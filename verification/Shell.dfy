/**
 The console task: src/shell/shell.c, over its two command line buffers, fed
 through the serial buffer.
 */
module Shell {
  import opened Types
  import opened LineEditor
  import opened RingBuffer
  import RetargetIo
  import Tokenizer
  import TypedLines

  const SHELL_CMDLINE_SIZE: nat := 256
  const EOF := -1

  /** strlen */
  method StrLen(buf: array<byte>) returns (n: nat)
    requires NUL in buf[..]
    ensures n < buf.Length && buf[n] == NUL && NUL !in buf[..n]
  {
    n := 0;
    while buf[n] != NUL
      invariant n < buf.Length && NUL !in buf[..n]
      decreases buf.Length - n
    {
      n := n + 1;
      assert NUL in buf[n..] by {
        assert buf[..] == buf[..n] + buf[n..];
      }
    }
  }

  /** memcpy of a whole command line buffer */
  method Copy(to: array<byte>, from: array<byte>)
    requires to.Length == from.Length && to != from
    modifies to
    ensures to[..] == from[..]
  {
    var i := 0;
    while i < from.Length
      invariant i <= from.Length && to[..i] == from[..i]
    {
      to[i] := from[i];
      i := i + 1;
    }
  }

  /** getchar, as an unbuffered _read of one byte */
  method GetChar(ring: Ring) returns (ch: int)
    requires ring.Valid()
    modifies ring`tail
    ensures ring.Valid()
    ensures if old(ring.Contents()) == [] then ch == EOF && ring.Contents() == []
            else ch == RetargetIo.Cook(old(ring.Contents())[0]) && ring.Contents() == old(ring.Contents())[1..]
  {
    var buf := new byte[1];
    var n := RetargetIo.Read(ring, buf, 1);
    if n == 0 {
      return EOF;
    }
    assert buf[..1][0] == buf[0];
    ch := buf[0];
  }

  /** One call of the state machine, on console values and queues: a waiting
      console takes the oldest byte if there is one. */
  function Polled(k: LineEditor.Console, queue: seq<byte>): (LineEditor.Console, seq<byte>) {
    if !Waiting(k) then (Advance(k), queue)
    else if queue == [] then (k, queue)
    else (Accept(k, RetargetIo.Cook(queue[0])), queue[1..])
  }

  /** Executing a line adds the outcome its arguments call for; nothing else does. */
  ghost predicate Records(names: seq<Tokenizer.Text>, before: LineEditor.Console,
                          outcomes: seq<Tokenizer.Outcome>, now: seq<Tokenizer.Outcome>) {
    if before.phase == Exec then
      |now| == |outcomes| + 1 && now[..|outcomes|] == outcomes &&
      Tokenizer.IsOutcome(names, Tokenizer.Arguments(before.line), now[|outcomes|])
    else now == outcomes
  }

  class CommandLine {
    /** shell_state, with two values for a call that waits in handle_esc. */
    var phase: Phase
    var pos: nat
    const cmdline: array<byte>
    var prevPos: nat
    const cmdprev: array<byte>

    /** The lines given to rte_shell_execute and what became of them. */
    ghost var executed: seq<Line>
    ghost var outcomes: seq<Tokenizer.Outcome>

    ghost predicate Valid()
      reads this, cmdline, cmdprev
    {
      cmdline != cmdprev && cmdline.Length == cmdprev.Length == SHELL_CMDLINE_SIZE &&
      pos < SHELL_CMDLINE_SIZE && prevPos < SHELL_CMDLINE_SIZE &&
      IsText(cmdprev[..prevPos]) && cmdprev[prevPos] == NUL &&
      (phase != EndCmd ==> IsText(cmdline[..pos])) &&
      (phase == Exec ==> cmdline[pos] == NUL) &&
      (phase == Init ==> pos == 0)
    }

    /** The value the buffers and counters stand for. After execution the line
        is no longer of interest: its bytes have been cut up. */
    ghost function View(): LineEditor.Console
      reads this, cmdline, cmdprev
      requires Valid()
    {
      LineEditor.Console(phase, if phase == EndCmd then [] else cmdline[..pos], cmdprev[..prevPos], executed)
    }

    /** shell_init, over zeroed static variables */
    constructor ()
      ensures Valid() && View() == STARTED && outcomes == [] && fresh(cmdline) && fresh(cmdprev)
    {
      phase := Init;
      pos, prevPos := 0, 0;
      cmdline := new byte[SHELL_CMDLINE_SIZE](_ => 0);
      cmdprev := new byte[SHELL_CMDLINE_SIZE](_ => 0);
      executed, outcomes := [], [];
    }

    /** The default case of the input state and what precedes it. */
    method TakeInput(ch: byte)
      requires Valid() && phase == Input
      modifies `phase, `pos, cmdline
      ensures Valid() && View() == Accept(old(View()), ch)
    {
      if ch != LF && pos < SHELL_CMDLINE_SIZE - 1 {
        if ch == ESC {
          phase := InEsc;
        } else if ch == BACKSPACE || ch == DELETE {
          if pos > 0 {
            pos := pos - 1;
            assert cmdline[..pos] == old(cmdline[..pos])[..pos];
          }
        } else if pos + 1 < SHELL_CMDLINE_SIZE {
          if SPACE <= ch <= DELETE {
            cmdline[pos] := ch;
            pos := pos + 1;
            assert cmdline[..pos] == old(cmdline[..pos]) + [ch];
          }
        }
      } else {
        cmdline[pos] := NUL;
        phase := Exec;
        assert cmdline[..pos] == old(cmdline[..pos]);
      }
    }

    /** handle_esc, from the point where it has the byte it waited for. */
    method TakeEscape(ch: byte)
      requires Valid() && (phase == InEsc || phase == InBracket)
      modifies `phase, `pos, cmdline
      ensures Valid() && View() == Accept(old(View()), ch)
    {
      if phase == InEsc {
        phase := if ch == LEFT_BRACKET then InBracket else Input;
      } else {
        phase := Input;
        if ch == UP {
          Copy(cmdline, cmdprev);
          pos := prevPos;
          assert cmdline[..pos] == cmdline[..][..pos] == cmdprev[..][..pos];
        }
      }
    }

    /** What SHELL_STATE_EXEC_CMD does first: an empty line is not kept. */
    method SaveHistory(ghost line: Line)
      requires Valid() && phase == Exec && line == cmdline[..pos]
      modifies `prevPos, cmdprev
      ensures Valid() && Tokenizer.Holds(cmdline[..], line, 0)
      ensures cmdprev[..prevPos] == if |line| > 0 then line else old(cmdprev[..prevPos])
    {
      assert Tokenizer.Holds(cmdline[..], line, 0);
      assert cmdline[..][pos] == NUL;
      var n := StrLen(cmdline);
      LengthIsPos(cmdline[..], line, n);
      if n > 0 {
        Copy(cmdprev, cmdline);
        assert cmdprev[..][pos] == NUL;
        prevPos := StrLen(cmdprev);
        LengthIsPos(cmdprev[..], line, prevPos);
      }
    }

    /** SHELL_STATE_EXEC_CMD. The history is saved before the line is cut up;
        a command may overwrite its arguments as it likes. */
    method ExecuteLine(names: seq<Tokenizer.Text>)
      requires Valid() && phase == Exec
      modifies this, cmdline, cmdprev
      ensures Valid() && View() == Advance(old(View()))
      ensures Records(names, old(View()), old(outcomes), outcomes)
    {
      ghost var line := cmdline[..pos];
      SaveHistory(line);
      var outcome := Tokenizer.Execute(cmdline, names, line);
      modify cmdline;
      phase := EndCmd;
      executed, outcomes := executed + [line], outcomes + [outcome];
    }

    /** shell_state_machine. In the three states that wait for a byte it polls
        the serial buffer and leaves everything alone when that is empty. */
    method StateMachine(ring: Ring, names: seq<Tokenizer.Text>)
      requires Valid() && ring.Valid() && ring.len == RetargetIo.SERIAL_BUFFER_SIZE
      requires ring.buffer != cmdline && ring.buffer != cmdprev
      modifies this, cmdline, cmdprev, ring`tail
      ensures Valid() && ring.Valid()
      ensures (View(), ring.Contents()) == Polled(old(View()), old(ring.Contents()))
      ensures Records(names, old(View()), old(outcomes), outcomes)
    {
      if phase == Init {
        phase := Input;
      } else if phase == Exec {
        ExecuteLine(names);
      } else if phase == EndCmd {
        phase := Init;
        pos := 0;
        cmdline[0] := NUL;
      } else {
        var avail := ring.Avail();
        if avail > 0 {
          var ch := GetChar(ring);
          if ch != EOF {
            if phase == Input {
              TakeInput(ch);
            } else {
              TakeEscape(ch);
            }
          }
        }
      }
    }
  }

  /** A line without NUL that is followed by one has the length strlen finds. */
  lemma LengthIsPos(buf: seq<byte>, line: Line, n: nat)
    requires Tokenizer.Holds(buf, line, 0)
    requires n < |buf| && buf[n] == NUL && NUL !in buf[..n]
    ensures n == |line|
  {
    forall i | 0 <= i < |line|
      ensures buf[i] != NUL
    {
      assert buf[..|line|][i] in line;
    }
    forall i | 0 <= i < n
      ensures buf[i] != NUL
    {
      assert buf[..n][i] in buf[..n];
    }
  }

  // ----- whole runs

  datatype Event = Interrupt(success: bool, received: seq<byte>) | Tick

  /** The console, the bytes in the serial buffer, and all bytes ever put there. */
  datatype World = World(view: LineEditor.Console, queue: seq<byte>, accepted: seq<byte>)

  /** One event: an interrupt adds as much of its batch as there is room for,
      and a tick is one call of the state machine. */
  function NextWorld(w: World, e: Event): (x: World)
    requires |w.queue| < RetargetIo.SERIAL_BUFFER_SIZE
    ensures |x.queue| < RetargetIo.SERIAL_BUFFER_SIZE
  {
    match e
    case Interrupt(success, received) =>
      if !success then w
      else
        var taken := received[..RetargetIo.Room(w.queue, RetargetIo.SERIAL_BUFFER_SIZE, |received|)];
        World(w.view, w.queue + taken, w.accepted + taken)
    case Tick =>
      var (view, queue) := Polled(w.view, w.queue);
      World(view, queue, w.accepted)
  }

  /** The world after some events, from a fresh shell and an empty buffer. */
  function WorldAfter(events: seq<Event>): (w: World)
    ensures |w.queue| < RetargetIo.SERIAL_BUFFER_SIZE
  {
    if events == [] then World(STARTED, [], [])
    else NextWorld(WorldAfter(events[..|events| - 1]), events[|events| - 1])
  }

  lemma WorldGrows(events: seq<Event>, e: Event)
    ensures WorldAfter(events + [e]) == NextWorld(WorldAfter(events), e)
  {
    assert (events + [e])[..|events|] == events;
  }

  /** The console stands where the fold over the bytes it has taken is, and the
      buffer has the rest of the accepted bytes. */
  ghost predicate Linked(w: World, consumed: seq<byte>) {
    w.accepted == consumed + w.queue && AsEditor(w.view) == Fold(RetargetIo.Cooked(consumed))
  }

  lemma NextLinked(w: World, e: Event, consumed: seq<byte>) returns (now: seq<byte>)
    requires |w.queue| < RetargetIo.SERIAL_BUFFER_SIZE && Linked(w, consumed)
    ensures Linked(NextWorld(w, e), now)
  {
    now := consumed;
    if e.Tick? && Waiting(w.view) && w.queue != [] {
      now := consumed + [w.queue[0]];
      var s := RetargetIo.Cooked(now);
      assert s[..|s| - 1] == RetargetIo.Cooked(consumed);
      assert w.queue == [w.queue[0]] + w.queue[1..];
    }
  }

  lemma {:induction false} LinkedAfter(events: seq<Event>) returns (consumed: seq<byte>)
    ensures Linked(WorldAfter(events), consumed)
  {
    if events == [] {
      consumed := [];
    } else {
      var before := LinkedAfter(events[..|events| - 1]);
      consumed := NextLinked(WorldAfter(events[..|events| - 1]), events[|events| - 1], before);
    }
  }

  /** Nothing waits in the serial buffer and no line waits to be executed. */
  predicate Idle(w: World) {
    w.queue == [] && w.view.phase != Exec
  }

  lemma LinkedLines(w: World, consumed: seq<byte>)
    requires Linked(w, consumed)
    ensures w.view.executed <= Fold(RetargetIo.Cooked(w.accepted)).lines
    ensures Idle(w) ==> w.view.executed == Fold(RetargetIo.Cooked(w.accepted)).lines
  {
    RetargetIo.CookedConcat(consumed, w.queue);
    FeedAllConcat(FRESH, RetargetIo.Cooked(consumed), RetargetIo.Cooked(w.queue));
    LinesGrow(Fold(RetargetIo.Cooked(consumed)), RetargetIo.Cooked(w.queue));
    assert w.queue == [] ==> consumed == w.accepted;
  }

  /** After any events the lines executed are a prefix of the lines of the fold
      over the accepted bytes, and all of them once the buffer is empty and no
      line waits. */
  lemma LinesFollowEvents(events: seq<Event>)
    ensures var w := WorldAfter(events);
            w.view.executed <= Fold(RetargetIo.Cooked(w.accepted)).lines &&
            (Idle(w) ==> w.view.executed == Fold(RetargetIo.Cooked(w.accepted)).lines)
  {
    var consumed := LinkedAfter(events);
    LinkedLines(WorldAfter(events), consumed);
  }

  // ----- calls without interrupts finish

  function Ticks(n: nat): seq<Event> {
    if n == 0 then [] else [Tick] + Ticks(n - 1)
  }

  lemma TicksSplit(events: seq<Event>, n: nat)
    ensures events + Ticks(n) == if n == 0 then events else events + [Tick] + Ticks(n - 1)
  {
  }

  /** The number of calls that are certainly enough. */
  function Calls(w: World): nat {
    4 * |w.queue| +
    match w.view.phase
    case Exec => 3
    case EndCmd => 2
    case Init => 1
    case _ => 0
  }

  lemma TickApproaches(w: World)
    requires |w.queue| < RetargetIo.SERIAL_BUFFER_SIZE
    ensures var x := NextWorld(w, Tick);
            x.accepted == w.accepted && if Calls(w) == 0 then Calls(x) == 0 else Calls(x) < Calls(w)
  {
  }

  /** Every byte has been taken and every line has been executed. */
  ghost predicate AllDone(w: World, accepted: seq<byte>) {
    w.queue == [] && w.view.executed == Fold(RetargetIo.Cooked(accepted)).lines
  }

  lemma NoCallsLeft(events: seq<Event>)
    requires Calls(WorldAfter(events)) == 0
    ensures AllDone(WorldAfter(events), WorldAfter(events).accepted)
  {
    LinesFollowEvents(events);
  }

  lemma OneTick(events: seq<Event>, w: World, n: nat)
    requires w == WorldAfter(events) && Calls(w) <= n && 0 < n
    ensures var x := WorldAfter(events + [Tick]);
            x.accepted == w.accepted && Calls(x) <= n - 1
  {
    WorldGrows(events, Tick);
    TickApproaches(w);
  }

  /** From wherever some events have led, this many calls without interrupts
      take every byte and execute every line. */
  lemma {:induction false} CallsFinish(events: seq<Event>, w: World, n: nat)
    requires w == WorldAfter(events) && Calls(w) <= n
    ensures AllDone(WorldAfter(events + Ticks(n)), w.accepted)
    decreases n
  {
    TicksSplit(events, n);
    if n == 0 {
      NoCallsLeft(events);
    } else {
      OneTick(events, w, n);
      CallsFinish(events + [Tick], WorldAfter(events + [Tick]), n - 1);
    }
  }

  /** A text typed at an empty prompt, and enter, which sends CR: once everything
      has been taken, exactly that text has been executed in addition. */
  lemma TypedLineIsExecuted(events: seq<Event>, more: seq<Event>, text: seq<byte>)
    requires Idle(WorldAfter(events)) && Idle(WorldAfter(events + more))
    requires TypedLines.AtPrompt(WorldAfter(events).accepted) && TypedLines.Typed(text)
    requires WorldAfter(events + more).accepted == WorldAfter(events).accepted + text + [0x0D]
    ensures WorldAfter(events + more).view.executed == WorldAfter(events).view.executed + [text]
  {
    LinesFollowEvents(events);
    LinesFollowEvents(events + more);
    TypedLines.EnterSubmits(WorldAfter(events).accepted, text, 0x0D);
  }

  /** What an interrupt changes: nothing if its read failed, and else only the
      queue and the accepted bytes, which grow by the batch if 127 bytes hold it. */
  lemma InterruptAdds(w: World, batch: seq<byte>)
    requires |w.queue| <= 127
    ensures NextWorld(w, Interrupt(false, batch)) == w
    ensures |w.queue| + |batch| <= 127 ==>
              NextWorld(w, Interrupt(true, batch)) == World(w.view, w.queue + batch, w.accepted + batch)
    ensures |w.queue| + |batch| > 127 ==>
              |NextWorld(w, Interrupt(true, batch)).queue| == 127 &&
              NextWorld(w, Interrupt(true, batch)).queue <= w.queue + batch
  {
    assert batch[..|batch|] == batch;
  }

  lemma OneBatch(batch: seq<byte>)
    requires |batch| <= 64
    ensures WorldAfter([Interrupt(true, batch)]) == World(STARTED, batch, batch)
  {
    WorldGrows([], Interrupt(true, batch));
    InterruptAdds(WorldAfter([]), batch);
    assert [] + [Interrupt(true, batch)] == [Interrupt(true, batch)];
    assert [] + batch == batch;
  }

  /** From a fresh shell, one batch with a text and CR and enough calls execute
      exactly that text. */
  lemma FirstLineIsExecuted(text: seq<byte>, n: nat)
    requires TypedLines.Typed(text) && |text| < 64 && 4 * |text| + 5 <= n
    ensures WorldAfter([Interrupt(true, text + [0x0D])] + Ticks(n)).view.executed == [text]
  {
    OneBatch(text + [0x0D]);
    CallsFinish([Interrupt(true, text + [0x0D])], World(STARTED, text + [0x0D], text + [0x0D]), n);
    TypedLines.EnterSubmits([], text, 0x0D);
    assert [] + text + [0x0D] == text + [0x0D];
  }

  // ----- the real console and the real buffer

  /** Executing each line had the outcome its arguments call for. */
  ghost predicate AllOutcomes(names: seq<Tokenizer.Text>, lines: seq<Line>, outcomes: seq<Tokenizer.Outcome>) {
    |outcomes| == |lines| &&
    forall i :: 0 <= i < |lines| ==> Tokenizer.IsOutcome(names, Tokenizer.Arguments(lines[i]), outcomes[i])
  }

  lemma PolledRecords(names: seq<Tokenizer.Text>, k: LineEditor.Console, queue: seq<byte>,
                      outcomes: seq<Tokenizer.Outcome>, now: seq<Tokenizer.Outcome>)
    requires Records(names, k, outcomes, now) && AllOutcomes(names, k.executed, outcomes)
    ensures AllOutcomes(names, Polled(k, queue).0.executed, now)
  {
    if k.phase == Exec {
      assert Polled(k, queue).0.executed == k.executed + [k.line];
      assert forall i :: 0 <= i < |outcomes| ==> now[i] == now[..|outcomes|][i];
    }
  }

  /** Recalling the last non-empty line and pressing enter has the outcome that
      line had before. */
  lemma RecallRepeatsOutcome(names: seq<Tokenizer.Text>, s: seq<byte>, outcomes: seq<Tokenizer.Outcome>)
    returns (i: nat)
    requires Fold(s).escape == Plain && |Fold(s).line| < LINE_MAX && LastNonEmpty(Fold(s).lines) != []
    requires AllOutcomes(names, Fold(s + [ESC, LEFT_BRACKET, UP, LF]).lines, outcomes)
    ensures i < |Fold(s).lines| == |outcomes| - 1 && Fold(s).lines[i] == LastNonEmpty(Fold(s).lines)
    ensures outcomes[i] == outcomes[|outcomes| - 1]
  {
    UpArrowRecalls(s);
    var lines := Fold(s).lines;
    LastNonEmptyIsThere(lines);
    i :| 0 <= i < |lines| && lines[i] == LastNonEmpty(lines);
    var all := lines + [LastNonEmpty(lines)];
    assert all[i] == all[|lines|];
    Tokenizer.OutcomeUnique(names, Tokenizer.Arguments(all[i]), outcomes[i], outcomes[|lines|]);
  }

  /** Console and buffer are what the world says. */
  ghost predicate Stands(console: CommandLine, ring: Ring, names: seq<Tokenizer.Text>, w: World)
    reads console, console.cmdline, console.cmdprev, ring, ring.buffer
  {
    console.Valid() && ring.Valid() && ring.len == RetargetIo.SERIAL_BUFFER_SIZE &&
    ring.buffer != console.cmdline && ring.buffer != console.cmdprev &&
    console.View() == w.view && ring.Contents() == w.queue &&
    AllOutcomes(names, console.executed, console.outcomes)
  }

  method OnInterrupt(console: CommandLine, ring: Ring, success: bool, received: seq<byte>,
                     ghost names: seq<Tokenizer.Text>, ghost w: World)
    requires Stands(console, ring, names, w) && |received| <= RetargetIo.RX_BUF_SZ
    modifies ring`head, ring.buffer
    ensures |w.queue| < RetargetIo.SERIAL_BUFFER_SIZE
    ensures Stands(console, ring, names, NextWorld(w, Interrupt(success, received)))
  {
    RetargetIo.UartIsr(ring, success, received);
    assert console.View() == old(console.View());
  }

  method OnTick(console: CommandLine, ring: Ring, names: seq<Tokenizer.Text>, ghost w: World)
    requires Stands(console, ring, names, w)
    modifies console, console.cmdline, console.cmdprev, ring`tail
    ensures |w.queue| < RetargetIo.SERIAL_BUFFER_SIZE
    ensures Stands(console, ring, names, NextWorld(w, Tick))
  {
    ghost var outcomes := console.outcomes;
    console.StateMachine(ring, names);
    PolledRecords(names, w.view, w.queue, outcomes, console.outcomes);
  }

  method OnEvent(console: CommandLine, ring: Ring, names: seq<Tokenizer.Text>, e: Event, ghost w: World)
    requires Stands(console, ring, names, w)
    requires e.Interrupt? ==> |e.received| <= RetargetIo.RX_BUF_SZ
    modifies console, console.cmdline, console.cmdprev, ring`head, ring`tail, ring.buffer
    ensures |w.queue| < RetargetIo.SERIAL_BUFFER_SIZE && Stands(console, ring, names, NextWorld(w, e))
  {
    match e
    case Interrupt(success, received) => OnInterrupt(console, ring, success, received, names, w);
    case Tick => OnTick(console, ring, names, w);
  }

  lemma StandsForEvents(console: CommandLine, ring: Ring, names: seq<Tokenizer.Text>, events: seq<Event>)
    requires Stands(console, ring, names, WorldAfter(events))
    ensures console.executed <= Fold(RetargetIo.Cooked(WorldAfter(events).accepted)).lines
    ensures ring.Contents() == [] && console.phase != Exec ==>
              console.executed == Fold(RetargetIo.Cooked(WorldAfter(events).accepted)).lines
  {
    LinesFollowEvents(events);
    assert console.executed == console.View().executed;
  }

  /** shell_init and the empty serial buffer. */
  method PowerOn(ghost names: seq<Tokenizer.Text>) returns (console: CommandLine, ring: Ring)
    ensures fresh(console) && fresh(console.cmdline) && fresh(console.cmdprev) && fresh(ring) && fresh(ring.buffer)
    ensures Stands(console, ring, names, WorldAfter([]))
  {
    console := new CommandLine();
    ring := new Ring(RetargetIo.SERIAL_BUFFER_SIZE);
  }

  /** Any schedule of interrupts and calls of the state machine: buffers,
      counters and ring end where the events put them, and every line executed
      had the outcome its arguments call for. */
  method Run(events: seq<Event>, names: seq<Tokenizer.Text>) returns (console: CommandLine, ring: Ring)
    requires forall e :: e in events && e.Interrupt? ==> |e.received| <= RetargetIo.RX_BUF_SZ
    ensures console.Valid() && ring.Valid()
    ensures console.View() == WorldAfter(events).view && ring.Contents() == WorldAfter(events).queue
    ensures console.executed <= Fold(RetargetIo.Cooked(WorldAfter(events).accepted)).lines
    ensures ring.Contents() == [] && console.phase != Exec ==>
              console.executed == Fold(RetargetIo.Cooked(WorldAfter(events).accepted)).lines
    ensures AllOutcomes(names, console.executed, console.outcomes)
  {
    console, ring := PowerOn(names);
    ghost var w := WorldAfter([]);
    var k := 0;
    while k < |events|
      invariant k <= |events|
      invariant fresh(console) && fresh(console.cmdline) && fresh(console.cmdprev) && fresh(ring) && fresh(ring.buffer)
      invariant w == WorldAfter(events[..k]) && Stands(console, ring, names, w)
    {
      WorldGrows(events[..k], events[k]);
      assert events[..k + 1] == events[..k] + [events[k]];
      OnEvent(console, ring, names, events[k], w);
      w := NextWorld(w, events[k]);
      k := k + 1;
    }
    assert events[..k] == events;
    StandsForEvents(console, ring, names, events);
  }
}
