/** The editor's two-part text buffer: the committed text and the word that
    is still being typed. Rust's `String` is a sequence of Unicode scalar
    values and `push`/`pop` work one `char` at a time, so `seq<char>` with
    append and drop-last is an exact model. Every operation is a pure
    function from the old buffer to the new one. */
module TextBuffer {

  /** The only character that ends a word. */
  const Space: char := ' '

  /** `mainText` is the committed text, `current` the pending word. */
  datatype Buffer = Buffer(mainText: seq<char>, current: seq<char>)

  /** Number of spaces in `s`. */
  function Spaces(s: seq<char>): nat {
    multiset(s)[Space]
  }

  /** The state invariant: the pending word never holds a space. */
  predicate Valid(b: Buffer) {
    Space !in b.current
  }

  /** A fresh buffer: it renders as the empty text and satisfies the invariant. */
  function Default(): (b: Buffer)
    ensures Valid(b)
    ensures Render(b) == []
  {
    Buffer([], [])
  }

  /** The displayed text: the committed part followed by the pending word. */
  function Render(b: Buffer): (r: seq<char>)
    ensures |r| == |b.mainText| + |b.current|
    ensures r[..|b.mainText|] == b.mainText
    ensures r[|b.mainText|..] == b.current
  {
    b.mainText + b.current
  }

  /** Typing one character. A space commits the pending word together with the
      space; any other character only extends the pending word. Either way the
      displayed text grows by exactly `c`. */
  function AddChar(b: Buffer, c: char): (r: Buffer)
    ensures Render(r) == Render(b) + [c]
    ensures c == Space ==> r.current == [] && r.mainText == b.mainText + b.current + [Space]
    ensures c != Space ==> r.mainText == b.mainText && r.current == b.current + [c]
    ensures Valid(b) ==> Valid(r)
  {
    if c == Space then
      Buffer(b.mainText + (b.current + [c]), [])
    else
      Buffer(b.mainText, b.current + [c])
  }

  /** Backspace: drop the last character of the pending word, or of the
      committed text when no word is pending; nothing happens on an empty
      buffer. */
  function DelChar(b: Buffer): (r: Buffer)
    ensures Render(b) == [] ==> r == b
    ensures Render(b) != [] ==> Render(r) == Render(b)[..|Render(b)| - 1]
    ensures b.current == [] ==> r.current == [] && r.mainText == Pop(b.mainText)
    ensures b.current != [] ==> r.mainText == b.mainText
    ensures Valid(b) ==> Valid(r)
  {
    if b.current == [] then
      Buffer(Pop(b.mainText), b.current)
    else
      Buffer(b.mainText, Pop(b.current))
  }

  /** `String::pop` with its result discarded: drop the last character, if any. */
  function Pop(s: seq<char>): (r: seq<char>)
    ensures s == [] ==> r == []
    ensures s != [] ==> r + [s[|s| - 1]] == s
  {
    if s == [] then [] else s[..|s| - 1]
  }

  /** The backward scan of the delete-word loop, as a recursion over the text
      still to be popped. `spaces` is how many spaces have been popped so far.
      When the second space is popped, one space is pushed back and the scan
      stops; when the text runs out, the scan stops with nothing left. */
  function Unwind(text: seq<char>, spaces: nat): (r: seq<char>)
    requires spaces < 2
    ensures r <= text
    ensures spaces + Spaces(text) < 2 ==> r == []
    ensures spaces + Spaces(text) >= 2 ==>
              |r| > 0 && r[|r| - 1] == Space && spaces + Spaces(text[|r|..]) == 1
    decreases |text|
  {
    if text == [] then []
    else
      var c := text[|text| - 1];
      var rest := text[..|text| - 1];
      assert text == rest + [c];
      var n := if c == Space then spaces + 1 else spaces;
      if n == 2 then rest + [Space]
      else
        var r := Unwind(rest, n);
        assert text[|r|..] == rest[|r|..] + [c];
        r
  }

  /** Ctrl+h. With a word pending, the word is cancelled. Otherwise the
      committed text is cut back to just after its second-to-last space, so
      that the last space-terminated chunk disappears and the separator before
      it stays; with fewer than two spaces everything is erased. */
  function DelWord(b: Buffer): (r: Buffer)
    ensures r.current == []
    ensures b.current != [] ==> r.mainText == b.mainText
    ensures b.current == [] ==> r.mainText <= b.mainText
    ensures b.current == [] && Spaces(b.mainText) < 2 ==> r.mainText == []
    ensures b.current == [] && Spaces(b.mainText) >= 2 ==>
              && |r.mainText| > 0
              && r.mainText[|r.mainText| - 1] == Space
              && Spaces(r.mainText) + 1 == Spaces(b.mainText)
              && Spaces(b.mainText[|r.mainText|..]) == 1
  {
    if b.current == [] then
      var t := Unwind(b.mainText, 0);
      assert b.mainText == t + b.mainText[|t|..];
      Buffer(t, [])
    else
      Buffer(b.mainText, [])
  }

  /** The delete-word operation with its loop written out as in the source:
      pop, count spaces, and on the second space push one back and stop. The
      loop terminates because every pass shortens the text, and the result is
      the buffer `DelWord` describes. */
  method DelWordLoop(b: Buffer) returns (r: Buffer)
    ensures r == DelWord(b)
  {
    if b.current == [] {
      var text := b.mainText;
      var spaceCounter: nat := 0;
      while true
        invariant spaceCounter < 2
        invariant Unwind(text, spaceCounter) == Unwind(b.mainText, 0)
        decreases |text|
      {
        if text == [] {
          break;
        }
        var c := text[|text| - 1];
        text := text[..|text| - 1];
        if c == Space {
          spaceCounter := spaceCounter + 1;
        }
        if spaceCounter == 2 {
          text := text + [Space];
          break;
        }
      }
      r := Buffer(text, b.current);
    } else {
      r := Buffer(b.mainText, []);
    }
  }

  /** The contract of `Unwind` pins its result down: a non-empty prefix of the
      text that ends in a space and leaves exactly one space after it is the
      result of the scan, and nothing else is. */
  lemma UnwindUnique(text: seq<char>, r: seq<char>)
    requires r <= text && |r| > 0 && r[|r| - 1] == Space
    requires Spaces(text[|r|..]) == 1
    ensures Unwind(text, 0) == r
  {
    assert text == r + text[|r|..];
    assert Space in multiset(r);
    var u := Unwind(text, 0);
    assert |u| > 0 && u[|u| - 1] == Space && Spaces(text[|u|..]) == 1;
    if |u| < |r| {
      SpaceBeforeCut(text, |u|, |r|);
    } else if |r| < |u| {
      SpaceBeforeCut(text, |r|, |u|);
    }
    assert u == text[..|u|] && r == text[..|r|];
  }

  /** If the character just before position `j` is a space and `i < j`, the
      suffix from `i` holds at least one more space than the suffix from `j`. */
  lemma SpaceBeforeCut(text: seq<char>, i: nat, j: nat)
    requires i < j <= |text| && text[j - 1] == Space
    ensures Spaces(text[i..]) >= Spaces(text[j..]) + 1
  {
    assert text[i..] == text[i..j] + text[j..];
    assert text[i..j][j - 1 - i] == Space;
    assert Space in multiset(text[i..j]);
  }

  /** Deleting a word right after a space-terminated word `w` removes `w` and
      its space and keeps the separator in front of it. */
  lemma DelWordErasesLastWord(p: seq<char>, w: seq<char>)
    requires Space !in w
    ensures DelWord(Buffer(p + [Space] + w + [Space], [])) == Buffer(p + [Space], [])
  {
    var t := p + [Space] + w + [Space];
    var r := p + [Space];
    assert t == r + (w + [Space]);
    assert t[|r|..] == w + [Space];
    assert multiset(w)[Space] == 0;
    UnwindUnique(t, r);
  }

  /** When the committed text ends in a word `v` instead of a space, as after
      backspacing over the space that committed it, deleting a word removes
      `v` together with the space-terminated word `u` before it, and keeps the
      separator in front of `u`. */
  lemma DelWordAfterTrailingWord(p: seq<char>, u: seq<char>, v: seq<char>)
    requires Space !in u && Space !in v
    ensures DelWord(Buffer(p + [Space] + u + [Space] + v, [])) == Buffer(p + [Space], [])
  {
    var t := p + [Space] + u + [Space] + v;
    var r := p + [Space];
    assert t == r + (u + [Space] + v);
    assert t[|r|..] == u + [Space] + v;
    assert multiset(u)[Space] == 0 && multiset(v)[Space] == 0;
    UnwindUnique(t, r);
  }

  /** When the committed text holds a single space-terminated word and nothing
      else, deleting a word erases all of it: there is no second space at
      which to stop. */
  lemma DelWordErasesOnlyWord(w: seq<char>)
    requires Space !in w
    ensures DelWord(Buffer(w + [Space], [])) == Buffer([], [])
  {
  }

  /** Typing the characters of `s` one after another. */
  function AddString(b: Buffer, s: seq<char>): (r: Buffer)
    ensures Render(r) == Render(b) + s
    ensures Valid(b) ==> Valid(r)
    decreases |s|
  {
    if s == [] then b
    else
      assert s == [s[0]] + s[1..];
      AddString(AddChar(b, s[0]), s[1..])
  }

  /** Typing a word that holds no space only grows the pending word. */
  lemma {:induction false} TypingWordStaysPending(b: Buffer, w: seq<char>)
    requires Space !in w
    ensures AddString(b, w) == Buffer(b.mainText, b.current + w)
    decreases |w|
  {
    if w != [] {
      assert w == [w[0]] + w[1..];
      assert AddChar(b, w[0]) == Buffer(b.mainText, b.current + [w[0]]);
      assert b.current + w == (b.current + [w[0]]) + w[1..];
      TypingWordStaysPending(AddChar(b, w[0]), w[1..]);
    }
  }

  /** Typing a word and a space after committed text that is empty or ends in
      a space, and then deleting a word, returns the buffer to where it was. */
  lemma DelWordUndoesTypedWord(m: seq<char>, w: seq<char>)
    requires m == [] || m[|m| - 1] == Space
    requires Space !in w
    ensures DelWord(AddString(Buffer(m, []), w + [Space])) == Buffer(m, [])
  {
    TypingWordCommits(m, w);
    DelWordErasesCommittedWord(m, w);
  }

  /** After committed text that is empty or ends in a space, a space-free word
      with its space is exactly what deleting a word takes off again. */
  lemma DelWordErasesCommittedWord(m: seq<char>, w: seq<char>)
    requires m == [] || m[|m| - 1] == Space
    requires Space !in w
    ensures DelWord(Buffer(m + w + [Space], [])) == Buffer(m, [])
  {
    if m == [] {
      assert m + w + [Space] == w + [Space];
      DelWordErasesOnlyWord(w);
    } else {
      var p := m[..|m| - 1];
      assert m + w + [Space] == p + [Space] + w + [Space];
      DelWordErasesLastWord(p, w);
    }
  }

  /** Typing a space-free word and then a space commits the word and the
      space and leaves nothing pending. */
  lemma TypingWordCommits(m: seq<char>, w: seq<char>)
    requires Space !in w
    ensures AddString(Buffer(m, []), w + [Space]) == Buffer(m + w + [Space], [])
  {
    var b := Buffer(m, []);
    AddStringAppend(b, w, [Space]);
    TypingWordStaysPending(b, w);
    assert AddString(Buffer(m, w), [Space]) == AddChar(Buffer(m, w), Space);
  }

  /** Typing `s + t` is typing `s` and then `t`. */
  lemma {:induction false} AddStringAppend(b: Buffer, s: seq<char>, t: seq<char>)
    ensures AddString(b, s + t) == AddString(AddString(b, s), t)
    decreases |s|
  {
    if s == [] {
      assert s + t == t;
    } else {
      assert (s + t)[0] == s[0] && (s + t)[1..] == s[1..] + t;
      AddStringAppend(AddChar(b, s[0]), s[1..], t);
    }
  }

  /** Backspace undoes a typed character: the display is back to what it was,
      and for a character other than a space so is the whole buffer (a space
      has already moved the pending word into the committed text). */
  lemma DelCharUndoesAddChar(b: Buffer, c: char)
    ensures Render(DelChar(AddChar(b, c))) == Render(b)
    ensures c != Space ==> DelChar(AddChar(b, c)) == b
  {
  }
}
