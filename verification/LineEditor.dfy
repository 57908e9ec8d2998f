/**
 What the shell does to the bytes it receives, as a fold over the byte stream,
 and the console of src/shell/shell.c as a machine of four states (and of two
 more, for a call that waits inside handle_esc) that carries it out.
 */
module LineEditor {
  import opened Types

  /** SHELL_CMDLINE_SIZE - 1: the longest line, one place being kept for NUL. */
  const LINE_MAX: nat := 255

  type Line = seq<byte>

  predicate Printable(c: byte) {
    SPACE <= c < DELETE
  }

  predicate IsText(line: Line) {
    |line| <= LINE_MAX && forall c :: c in line ==> Printable(c)
  }

  // ----- the fold

  datatype Escape = Plain | AfterEsc | AfterBracket

  datatype Editor = Editor(line: Line, history: Line, escape: Escape, lines: seq<Line>)

  const FRESH := Editor([], [], Plain, [])

  function Submit(e: Editor): Editor {
    Editor([], if e.line != [] then e.line else e.history, Plain, e.lines + [e.line])
  }

  function Feed(e: Editor, c: byte): Editor {
    match e.escape
    case AfterEsc => e.(escape := if c == LEFT_BRACKET then AfterBracket else Plain)
    case AfterBracket => if c == UP then e.(line := e.history, escape := Plain) else e.(escape := Plain)
    case Plain =>
      if c == LF || LINE_MAX <= |e.line| then Submit(e)
      else if c == ESC then e.(escape := AfterEsc)
      else if c == BACKSPACE || c == DELETE then
        e.(line := if e.line == [] then [] else e.line[..|e.line| - 1])
      else if Printable(c) then e.(line := e.line + [c])
      else e
  }

  function FeedAll(e: Editor, s: seq<byte>): Editor {
    if s == [] then e else Feed(FeedAll(e, s[..|s| - 1]), s[|s| - 1])
  }

  /** The state after a byte stream, from a fresh shell. */
  function Fold(s: seq<byte>): Editor {
    FeedAll(FRESH, s)
  }

  lemma {:induction false} FeedAllConcat(e: Editor, s: seq<byte>, t: seq<byte>)
    ensures FeedAll(e, s + t) == FeedAll(FeedAll(e, s), t)
  {
    if t == [] {
      assert s + t == s;
    } else {
      FeedAllConcat(e, s, t[..|t| - 1]);
      assert (s + t)[..|s + t| - 1] == s + t[..|t| - 1];
    }
  }

  // ----- properties of the fold

  /** The last line that is not empty, or the empty line if all are. */
  function LastNonEmpty(lines: seq<Line>): Line {
    if lines == [] then []
    else if lines[|lines| - 1] != [] then lines[|lines| - 1]
    else LastNonEmpty(lines[..|lines| - 1])
  }

  ghost predicate Sound(e: Editor) {
    IsText(e.line) && e.history == LastNonEmpty(e.lines) && forall l :: l in e.lines ==> IsText(l)
  }

  lemma {:induction false} LastNonEmptyIsText(lines: seq<Line>)
    requires forall l :: l in lines ==> IsText(l)
    ensures IsText(LastNonEmpty(lines))
  {
    if lines != [] {
      LastNonEmptyIsText(lines[..|lines| - 1]);
    }
  }

  lemma FeedKeepsSound(e: Editor, c: byte)
    requires Sound(e)
    ensures Sound(Feed(e, c))
    ensures e.lines <= Feed(e, c).lines
  {
    LastNonEmptyIsText(e.lines);
    assert (e.lines + [e.line])[..|e.lines|] == e.lines;
  }

  /** In every run the line under edit and all submitted lines are at most 255
      printable bytes, and the history is the last non-empty line submitted:
      empty lines never replace it. */
  lemma {:induction false} FoldIsSound(s: seq<byte>)
    ensures Sound(Fold(s))
  {
    if s != [] {
      FoldIsSound(s[..|s| - 1]);
      FeedKeepsSound(Fold(s[..|s| - 1]), s[|s| - 1]);
    }
  }

  /** Lines are never taken back: more input only adds lines at the end. */
  lemma {:induction false} LinesGrow(e: Editor, s: seq<byte>)
    ensures e.lines <= FeedAll(e, s).lines
  {
    if s != [] {
      LinesGrow(e, s[..|s| - 1]);
    }
  }

  lemma {:induction false} TypingAppends(e: Editor, text: Line)
    requires e.escape == Plain && IsText(e.line + text)
    ensures FeedAll(e, text) == e.(line := e.line + text)
  {
    if text == [] {
      assert e.line + text == e.line;
    } else {
      var init := text[..|text| - 1];
      assert forall c :: c in e.line + init ==> c in e.line + text;
      TypingAppends(e, init);
      assert text[|text| - 1] in e.line + text;
      assert e.line + text == (e.line + init) + [text[|text| - 1]];
    }
  }

  /** What one byte does outside an escape sequence, below 255 bytes: 0x20 to 0x7E
      is appended, 0x08 and 0x7F take back the last byte if there is one, 0x0A
      submits the line, 0x1B starts an escape sequence, and every other byte, CR
      among them, is ignored. At 255 bytes every byte submits the line. */
  lemma OneByte(e: Editor, c: byte)
    requires e.escape == Plain && |e.line| <= 255
    ensures |e.line| < 255 && 0x20 <= c <= 0x7E ==> Feed(e, c) == e.(line := e.line + [c])
    ensures |e.line| < 255 && (c == 0x08 || c == 0x7F) ==>
              Feed(e, c) == if e.line == [] then e else e.(line := e.line[..|e.line| - 1])
    ensures |e.line| < 255 && (c < 0x08 || c == 0x09 || 0x0B <= c <= 0x1A || 0x1C <= c < 0x20 || 0x80 <= c) ==>
              Feed(e, c) == e
    ensures |e.line| < 255 && c == 0x1B ==> Feed(e, c) == e.(escape := AfterEsc)
    ensures |e.line| == 255 || c == 0x0A ==>
              Feed(e, c) == Editor([], if e.line == [] then e.history else e.line, Plain, e.lines + [e.line])
  {
  }

  /** An escape sequence, of two bytes or of three, is swallowed and leaves
      everything as it was; only ESC [ A puts the history into the line. */
  lemma EscapesAreSwallowed(e: Editor, c: byte)
    requires e.escape == Plain && |e.line| < 255
    ensures c != 0x5B ==> FeedAll(e, [0x1B, c]) == e
    ensures c != 0x41 ==> FeedAll(e, [0x1B, 0x5B, c]) == e
    ensures FeedAll(e, [0x1B, 0x5B, 0x41]) == e.(line := e.history)
  {
    FeedAllUnfolds(e, 0x1B, c, 0, 0);
    FeedAllUnfolds(e, 0x1B, 0x5B, c, 0);
    FeedAllUnfolds(e, 0x1B, 0x5B, 0x41, 0);
  }

  /** Typing a text at an empty prompt and pressing enter submits that text. At
      255 bytes any other byte ends the line as well, and is lost. */
  lemma TypedLineIsSubmitted(e: Editor, text: Line, last: byte)
    requires e.escape == Plain && e.line == [] && IsText(text)
    requires last == LF || |text| == LINE_MAX
    ensures FeedAll(e, text + [last]) ==
            Editor([], if text != [] then text else e.history, Plain, e.lines + [text])
  {
    assert [] + text == text;
    TypingAppends(e, text);
    FeedAllConcat(e, text, [last]);
    assert FeedAll(FeedAll(e, text), [last]) == Feed(FeedAll(e, text), last) by {
      assert [last][..0] == [];
    }
  }

  /** Backspace or delete takes back a printable byte exactly when the line had
      at most 253 bytes before it; at 254 the second byte submits the line. */
  lemma BackspaceUndoesIff(e: Editor, c: byte, erase: byte)
    requires e.escape == Plain && Printable(c) && |e.line| < LINE_MAX
    requires erase == BACKSPACE || erase == DELETE
    ensures Feed(Feed(e, c), erase) == e <==> |e.line| + 1 < LINE_MAX
  {
    assert (e.line + [c])[..|e.line|] == e.line;
    if |e.line| + 1 == LINE_MAX {
      assert |Feed(Feed(e, c), erase).lines| == |e.lines| + 1;
    }
  }

  lemma {:induction false} LastNonEmptyIsThere(lines: seq<Line>)
    ensures LastNonEmpty(lines) != [] ==> LastNonEmpty(lines) in lines
  {
    if lines != [] {
      LastNonEmptyIsThere(lines[..|lines| - 1]);
    }
  }

  /** Up-arrow after any run. Outside an escape sequence and with room in the
      line, whatever was typed, it restores the last non-empty line submitted in
      the whole run, and enter submits that line again. At 255 bytes its first
      byte submits the line, and inside an escape sequence its first byte ends
      that; either way its other two bytes are then typed like any text. */
  lemma UpArrowRecalls(s: seq<byte>)
    ensures var e := Fold(s);
            Fold(s + [ESC, LEFT_BRACKET, UP]) ==
            if e.escape != Plain then FeedAll(e.(escape := Plain), [LEFT_BRACKET, UP])
            else if |e.line| == LINE_MAX then FeedAll(Submit(e), [LEFT_BRACKET, UP])
            else e.(line := LastNonEmpty(e.lines))
    ensures Fold(s).escape == Plain && |Fold(s).line| < LINE_MAX ==>
              Fold(s + [ESC, LEFT_BRACKET, UP, LF]).lines == Fold(s).lines + [LastNonEmpty(Fold(s).lines)]
  {
    FoldIsSound(s);
    var e := Fold(s);
    FeedAllConcat(FRESH, s, [ESC, LEFT_BRACKET, UP]);
    FeedAllConcat(FRESH, s, [ESC, LEFT_BRACKET, UP, LF]);
    FeedAllUnfolds(e, ESC, LEFT_BRACKET, UP, LF);
    FeedAllUnfolds(Feed(e, ESC), LEFT_BRACKET, UP, 0, 0);
  }

  lemma FeedAllUnfolds(e: Editor, a: byte, b: byte, c: byte, d: byte)
    ensures FeedAll(e, [a, b]) == Feed(Feed(e, a), b)
    ensures FeedAll(e, [a, b, c]) == Feed(Feed(Feed(e, a), b), c)
    ensures FeedAll(e, [a, b, c, d]) == Feed(FeedAll(e, [a, b, c]), d)
  {
    assert [a][..0] == [] && [a, b][..1] == [a] && [a, b, c][..2] == [a, b] && [a, b, c, d][..3] == [a, b, c];
    assert FeedAll(e, [a]) == Feed(e, a);
    assert FeedAll(e, [a, b]) == Feed(Feed(e, a), b);
  }

  // ----- the console

  datatype Phase = Init | Input | InEsc | InBracket | Exec | EndCmd

  datatype Console = Console(phase: Phase, line: Line, history: Line, executed: seq<Line>)

  const STARTED := Console(Init, [], [], [])

  /** The console can take a byte: it polls the serial buffer. */
  predicate Waiting(c: Console) {
    c.phase in {Input, InEsc, InBracket}
  }

  /** One byte taken from getchar: a step of the fold. */
  function Accept(k: Console, c: byte): (r: Console)
    requires Waiting(k)
    ensures AsEditor(r) == Feed(AsEditor(k), c)
    ensures r.executed == k.executed
  {
    match k.phase
    case InEsc => k.(phase := if c == LEFT_BRACKET then InBracket else Input)
    case InBracket => if c == UP then k.(line := k.history, phase := Input) else k.(phase := Input)
    case Input =>
      if c != LF && |k.line| < LINE_MAX then
        if c == ESC then k.(phase := InEsc)
        else if c == BACKSPACE || c == DELETE then
          if |k.line| > 0 then k.(line := k.line[..|k.line| - 1]) else k
        else if SPACE <= c <= DELETE then k.(line := k.line + [c])
        else k
      else k.(phase := Exec)
  }

  /** A call of the state machine that takes no byte: the fold stays where it
      is, and the line that was submitted last may now have been executed. */
  function Advance(k: Console): (r: Console)
    requires !Waiting(k)
    ensures AsEditor(r) == AsEditor(k)
    ensures k.executed <= r.executed
  {
    match k.phase
    case Init => k.(phase := Input)
    case Exec => Console(EndCmd, [], if |k.line| > 0 then k.line else k.history, k.executed + [k.line])
    case EndCmd => k.(phase := Init)
  }

  /** A line that was entered: the next call executes it and keeps it as history
      unless it is empty, the second clears it, the third prompts, and then the
      console waits for input at an empty line. */
  lemma EnteredLineRuns(k: Console, c: byte)
    requires k.phase == Input && (c == 0x0A || |k.line| >= 255)
    ensures Accept(k, c) == Console(Exec, k.line, k.history, k.executed)
    ensures var history := if k.line == [] then k.history else k.line;
            var done := Advance(Accept(k, c));
            done == Console(EndCmd, [], history, k.executed + [k.line]) &&
            Advance(done) == Console(Init, [], history, k.executed + [k.line]) &&
            Advance(Advance(done)) == Console(Input, [], history, k.executed + [k.line])
  {
  }

  /** The state of the fold a console stands for. A line that waits to be
      executed counts as submitted; everything else has been executed. */
  function AsEditor(k: Console): (e: Editor)
    ensures k.executed <= e.lines
    ensures k.phase != Exec ==> k.executed == e.lines
  {
    match k.phase
    case InEsc => Editor(k.line, k.history, AfterEsc, k.executed)
    case InBracket => Editor(k.line, k.history, AfterBracket, k.executed)
    case Exec => Submit(Editor(k.line, k.history, Plain, k.executed))
    case _ => Editor(k.line, k.history, Plain, k.executed)
  }
}
