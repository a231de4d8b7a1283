# Editor buffer model

A Dafny model of the text-entry core of the `zamboni` terminal editor
(`src/editor.rs`). The core is made of two parts:

- the two-part `Buffer`. `main_text` holds the committed text and `current`
  holds the word still being typed. The buffer has four operations:
  `add_char`, `del_char`, `del_word` and `render`.
- `Editor::handle_input`, which turns a key event into one buffer operation
  or into the quit flag.

`buffer.dfy` (module `TextBuffer`) models the buffer as an immutable
datatype with pure update functions. It holds the space-free invariant of
the pending word and the delete-word scan. The scan appears twice: once as a
recursion, and once as the source's `loop`, written as a `while` loop proved
equal to the recursion. `editor.dfy` (module `Editor`) models the dispatch.
It also has a pure fold over a sequence of events, which stops once the quit
flag is set.

Only a space ends a word, and committed words are kept as typed.

## Model

| member | source | states |
|---|---|---|
| TextBuffer.Default | src/editor.rs:106-111 | a fresh buffer renders as the empty text and satisfies the invariant that the pending word holds no space |
| TextBuffer.Render | src/editor.rs:149-152 | the rendered text is the committed text followed by the pending word, split exactly at the committed length |
| TextBuffer.AddChar | src/editor.rs:113-121 | typing any character appends exactly that character to the render; a space moves the pending word plus the space into the committed text and empties the pending word; any other character extends only the pending word; the invariant is kept |
| TextBuffer.DelChar | src/editor.rs:123-129 | on a non-empty buffer the render loses exactly its last character; on an empty buffer nothing changes; with no word pending the last character comes off the committed text and the pending word stays empty; with a word pending the committed text is untouched; the invariant is kept |
| TextBuffer.Unwind | src/editor.rs:133-143 | the backward pop-and-count scan yields a prefix of the text; it yields empty text when fewer than two spaces are available; otherwise it yields text ending in a space with exactly one space left in the removed part |
| TextBuffer.DelWord | src/editor.rs:131-147 | with a word pending, only that word is cleared; otherwise the pending part stays empty, the committed text becomes a prefix of itself, fewer than two spaces erase everything, and otherwise the result ends in a space, holds one space fewer, and exactly one space was removed |
| TextBuffer.DelWordLoop | src/editor.rs:131-147 | the source's pop/count/push-back loop terminates, because every pass shortens the text, and yields the same buffer as DelWord |
| TextBuffer.UnwindUnique | src/editor.rs:133-143 | any non-empty prefix that ends in a space and leaves exactly one space after it is the scan's result, so the delete-word contract determines the result completely |
| TextBuffer.DelWordErasesLastWord | src/editor.rs:131-143 | after text `p`, a space, a space-free word `w` and a space, deleting a word leaves `p` followed by its space |
| TextBuffer.DelWordErasesOnlyWord | src/editor.rs:131-143 | when the committed text is one space-free word and its space, deleting a word erases all of it |
| TextBuffer.DelWordAfterTrailingWord | src/editor.rs:133-143 | when the committed text ends in a word rather than a space (a committing space was backspaced), deleting a word removes that word and the whole space-terminated word before it, keeping the separator in front of them |
| TextBuffer.AddString | src/editor.rs:113-121 | typing a string character by character appends the string to the render and keeps the invariant |
| TextBuffer.TypingWordStaysPending | src/editor.rs:113-121 | typing a space-free word leaves the committed text alone and appends the word to the pending word |
| TextBuffer.TypingWordCommits | src/editor.rs:113-121 | typing a space-free word and then a space appends the word and the space to the committed text and leaves nothing pending |
| TextBuffer.DelWordErasesCommittedWord | src/editor.rs:131-143 | after committed text that is empty or ends in a space, deleting a word removes exactly a following space-free word and its space |
| TextBuffer.DelWordUndoesTypedWord | src/editor.rs:113-143 | after committed text that is empty or ends in a space, typing a word and a space and then deleting a word restores the buffer |
| TextBuffer.DelCharUndoesAddChar | src/editor.rs:113-129 | backspace after typing a character restores the render, and for a non-space character it restores the whole buffer |
| Editor.Default | src/editor.rs:54-60 | a fresh editor is not quitting and has an empty, valid buffer |
| Editor.HandleInput | src/editor.rs:75-97 | the first matching arm wins: Ctrl+q sets the quit flag and leaves the buffer alone; Ctrl+h deletes a word and inserts nothing; Backspace deletes a character; any other character key types it; any other event changes nothing; only Ctrl+q changes the quit flag |
| Editor.HandleInputKeepsValid | src/editor.rs:75-97 | every event keeps the pending word free of spaces |
| Editor.CtrlHNeverInserts | src/editor.rs:82-94 | after Ctrl+h the render is a prefix of the render before, so no `h` was inserted |
| Editor.Session | src/editor.rs:64-69 | once the quit flag is set, further events change nothing |
| Editor.SessionAppend | src/editor.rs:64-69 | handling events `s` and then `t` is the same as handling `s + t` in one session |
| Editor.QuitMidSession | src/editor.rs:64-69 | once Ctrl+q has arrived part-way through the events, no later event is handled: the session's result is the state at quit time |
| Editor.SessionKeepsValid | src/editor.rs:64-69 | the buffer invariant holds after any sequence of events from a valid state |
| Editor.TypingRendersTyped | src/editor.rs:91-94 | typing plain characters, `q` and `h` included, renders exactly the characters typed |

## Left out

- The `Terminal` struct (`setup`, `clean_up`, `draw_screen`) is left out. It only handles raw mode, the alternate screen and printing.
- `Editor::run` is left out except for its stop-on-quit rule, which `Session` models. Its 500 ms `poll`, its blocking `read` and its redraw after each event are timing and I/O.
- The "Unsupported event" `print!` is a side effect. That arm is modelled as leaving the state unchanged.
- `src/main.rs` is left out. It is only the process entry point.
- Crossterm's `KeyEvent` is reduced to a key code and the set of modifiers held. The event kind (press, release, repeat) and the keyboard state are left out because every arm ignores them with `..`. A Ctrl arm matches only when Control is the sole modifier held, as the source's pattern on `KeyModifiers::CONTROL` does.
- `render` takes `&mut self` in the source but changes nothing. The pure function models that directly, so no separate "state unchanged" clause is needed.
