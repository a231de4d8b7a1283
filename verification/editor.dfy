/** The editor's key dispatch: which key event runs which buffer operation,
    and which one asks the session to end. Terminal events are reduced to the
    parts the dispatch looks at: the key code and the exact set of modifier
    keys held. */
module Editor {
  import opened TextBuffer

  /** The modifier keys a terminal key event can report. */
  datatype Modifier = Shift | Control | Alt | Super | Hyper | Meta

  /** The key codes the dispatch distinguishes; every other key is `OtherKey`. */
  datatype KeyCode = Char(c: char) | Backspace | OtherKey

  /** A key event, or any other terminal event (mouse, resize, focus, paste). */
  datatype Event = Key(code: KeyCode, modifiers: set<Modifier>) | NonKey

  /** The editor's logical state: the quit flag and the buffer. */
  datatype EditorState = EditorState(shouldQuit: bool, buffer: Buffer)

  /** A key arm pattern with `KeyModifiers::CONTROL` matches only when Control
      is the one modifier held, so Ctrl+Shift+h is not Ctrl+h. */
  predicate IsCtrl(ev: Event, c: char) {
    ev == Key(Char(c), {Control})
  }

  /** A fresh editor: not quitting, with an empty buffer. */
  function Default(): (e: EditorState)
    ensures !e.shouldQuit
    ensures Valid(e.buffer) && Render(e.buffer) == []
  {
    EditorState(false, TextBuffer.Default())
  }

  /** One event, dispatched by the first arm that matches, in source order:
      Ctrl+q, Ctrl+h, Backspace, any character, anything else. */
  function HandleInput(e: EditorState, ev: Event): (r: EditorState)
    ensures r.shouldQuit <==> e.shouldQuit || IsCtrl(ev, 'q')
    ensures IsCtrl(ev, 'q') ==> r.buffer == e.buffer
    ensures IsCtrl(ev, 'h') ==> r.buffer == DelWord(e.buffer)
    ensures ev.Key? && ev.code.Backspace? ==> r.buffer == DelChar(e.buffer)
    ensures ev.Key? && ev.code.Char? && !IsCtrl(ev, 'q') && !IsCtrl(ev, 'h') ==>
              r.buffer == AddChar(e.buffer, ev.code.c)
    ensures ev.NonKey? || ev.code.OtherKey? ==> r == e
  {
    if IsCtrl(ev, 'q') then
      e.(shouldQuit := true)
    else if IsCtrl(ev, 'h') then
      e.(buffer := DelWord(e.buffer))
    else
      match ev
      case Key(Backspace, _) => e.(buffer := DelChar(e.buffer))
      case Key(Char(c), _) => e.(buffer := AddChar(e.buffer, c))
      case _ => e
  }

  /** Every event keeps the buffer invariant: the pending word stays free of
      spaces. */
  lemma HandleInputKeepsValid(e: EditorState, ev: Event)
    requires Valid(e.buffer)
    ensures Valid(HandleInput(e, ev).buffer)
  {
  }

  /** Ctrl+h never inserts the letter `h`: the displayed text after it is a
      prefix of the text before, because its arm comes before the character
      arm. */
  lemma CtrlHNeverInserts(e: EditorState)
    ensures Render(HandleInput(e, Key(Char('h'), {Control})).buffer) <= Render(e.buffer)
  {
  }

  /** The events of a session in order. The host loop stops reading events
      once the quit flag is set, so later events have no effect. */
  function Session(e: EditorState, evs: seq<Event>): (r: EditorState)
    ensures e.shouldQuit ==> r == e
    decreases |evs|
  {
    if evs == [] || e.shouldQuit then e
    else Session(HandleInput(e, evs[0]), evs[1..])
  }

  /** A session can be split anywhere: handling `s` and then `t` is handling
      `s + t`. */
  lemma {:induction false} SessionAppend(e: EditorState, s: seq<Event>, t: seq<Event>)
    ensures Session(e, s + t) == Session(Session(e, s), t)
    decreases |s|
  {
    if s == [] {
      assert s + t == t;
    } else if !e.shouldQuit {
      assert (s + t)[0] == s[0] && (s + t)[1..] == s[1..] + t;
      SessionAppend(HandleInput(e, s[0]), s[1..], t);
    }
  }

  /** Once a Ctrl+q has been handled part-way through the events, every later
      event is ignored. */
  lemma QuitMidSession(e: EditorState, s: seq<Event>, t: seq<Event>)
    requires Session(e, s).shouldQuit
    ensures Session(e, s + t) == Session(e, s)
  {
    SessionAppend(e, s, t);
  }

  /** The buffer invariant holds after any sequence of events from any valid
      starting state, and in particular from a fresh editor. */
  lemma {:induction false} SessionKeepsValid(e: EditorState, evs: seq<Event>)
    requires Valid(e.buffer)
    ensures Valid(Session(e, evs).buffer)
    decreases |evs|
  {
    if evs != [] && !e.shouldQuit {
      HandleInputKeepsValid(e, evs[0]);
      SessionKeepsValid(HandleInput(e, evs[0]), evs[1..]);
    }
  }

  /** Typing plain characters, `q` and `h` included, shows exactly the
      characters typed, whatever the mix of spaces and letters. */
  lemma {:induction false} TypingRendersTyped(e: EditorState, s: seq<char>)
    requires !e.shouldQuit
    ensures Render(Session(e, Typed(s)).buffer) == Render(e.buffer) + s
    decreases |s|
  {
    if s != [] {
      var e' := HandleInput(e, Key(Char(s[0]), {}));
      assert Typed(s)[0] == Key(Char(s[0]), {}) && Typed(s)[1..] == Typed(s[1..]);
      TypingRendersTyped(e', s[1..]);
      assert [s[0]] + s[1..] == s;
    }
  }

  /** The key events of typing `s` without modifiers. */
  function Typed(s: seq<char>): (evs: seq<Event>)
    ensures |evs| == |s|
    ensures forall i :: 0 <= i < |s| ==> evs[i] == Key(Char(s[i]), {})
    decreases |s|
  {
    if s == [] then [] else [Key(Char(s[0]), {})] + Typed(s[1..])
  }
}
