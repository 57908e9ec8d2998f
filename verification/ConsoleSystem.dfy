/**
 The whole input path: the interrupt handler puts bytes into the serial ring
 while the console task polls it, takes bytes out and edits and executes lines.
 Loads and stores of the two sides interleave in any way.
 */
module ConsoleSystem {
  import opened Types
  import opened Arithmetic
  import opened RingBuffer
  import opened RingProtocol
  import opened LineEditor
  import RetargetIo
  import TypedLines

  /** eof records whether getchar ever returned EOF. */
  datatype System = System(ring: State, console: Console, eof: bool)

  /** One step of the console task. Where it waits for a byte, the task asks
      ring_buffer_avail until the answer is positive and then calls getchar. */
  function ConsoleStep(y: System): System
    requires WellFormed(y.ring)
  {
    if !Waiting(y.console) then y.(console := Advance(y.console))
    else
      match y.ring.consumer
      case Resting => y.(ring := y.ring.(consumer := AvailHead))
      case AvailIs(n) => y.(ring := y.ring.(consumer := if n > 0 then EmptyHead else Resting))
      case GetEmpty => y.(ring := y.ring.(consumer := Resting), eof := true)
      case Got(c) => y.(ring := y.ring.(consumer := Resting), console := Accept(y.console, RetargetIo.Cook(c)))
      case _ => y.(ring := RingProtocol.ConsumerStep(y.ring))
  }

  datatype Choice = Receive(c: byte) | Handler | Task

  function SystemStep(y: System, a: Choice): System
    requires WellFormed(y.ring)
  {
    match a
    case Receive(c) => y.(ring := Step(y.ring, CallPut(c)))
    case Handler => y.(ring := ProducerStep(y.ring))
    case Task => ConsoleStep(y)
  }

  function Boot(buffer: seq<byte>): System {
    System(RingProtocol.Initial(buffer), STARTED, false)
  }

  /** The bytes the editor has seen: all that were taken from the ring, but for
      one that getchar is about to return. */
  function Seen(s: State): seq<byte> {
    if s.consumer.Got? && s.taken != [] then s.taken[..|s.taken| - 1] else s.taken
  }

  /** A get is called only when a byte is there, so it never finds the ring empty. */
  ghost predicate Sure(s: State) {
    !s.consumer.GetEmpty? &&
    (s.consumer.EmptyHead? ==> Unread(s) > 0) &&
    (s.consumer.EmptyTail? ==> s.consumer.seen > |s.taken|)
  }

  ghost predicate SystemInv(y: System) {
    Inv(y.ring) && Sure(y.ring) && !y.eof &&
    (!Waiting(y.console) ==> y.ring.consumer.Resting?) &&
    AsEditor(y.console) == Fold(RetargetIo.Cooked(Seen(y.ring)))
  }

  lemma BootInv(buffer: seq<byte>)
    requires 0 < |buffer| < TWO32
    ensures SystemInv(Boot(buffer))
  {
    InitialInv(buffer);
  }

  lemma HandlerKeepsInv(y: System, s: State)
    requires SystemInv(y) && Inv(s)
    requires s.consumer == y.ring.consumer && s.taken == y.ring.taken && y.ring.accepted <= s.accepted
    ensures SystemInv(y.(ring := s))
  {
  }

  lemma FoldOne(s: seq<byte>)
    requires s != []
    ensures Fold(RetargetIo.Cooked(s)) ==
            Feed(Fold(RetargetIo.Cooked(s[..|s| - 1])), RetargetIo.Cook(s[|s| - 1]))
  {
    var t := RetargetIo.Cooked(s);
    assert t[..|t| - 1] == RetargetIo.Cooked(s[..|s| - 1]);
  }

  lemma CallKeepsInv(y: System)
    requires SystemInv(y) && Waiting(y.console)
    requires !y.ring.consumer.Got? && !y.ring.consumer.Resting? && !y.ring.consumer.AvailIs?
    ensures SystemInv(ConsoleStep(y))
  {
    ConsumerStepKeepsInv(y.ring);
    if y.ring.consumer.EmptyTail? {
      SlotDistance(|y.ring.taken|, y.ring.consumer.seen, y.ring.Len());
    }
    assert Seen(ConsoleStep(y).ring) == Seen(y.ring);
  }

  lemma DeliverKeepsInv(y: System)
    requires SystemInv(y) && Waiting(y.console) && y.ring.consumer.Got?
    ensures SystemInv(ConsoleStep(y))
  {
    FoldOne(y.ring.taken);
    assert Seen(ConsoleStep(y).ring) == y.ring.taken;
  }

  lemma ReturnKeepsInv(y: System)
    requires SystemInv(y) && Waiting(y.console)
    requires y.ring.consumer.Got? || y.ring.consumer.Resting? || y.ring.consumer.AvailIs?
    ensures SystemInv(ConsoleStep(y))
  {
    if y.ring.consumer.Got? {
      DeliverKeepsInv(y);
    }
  }

  lemma ConsoleStepKeepsInv(y: System)
    requires SystemInv(y)
    ensures SystemInv(ConsoleStep(y))
  {
    if Waiting(y.console) {
      if y.ring.consumer.Got? || y.ring.consumer.Resting? || y.ring.consumer.AvailIs? {
        ReturnKeepsInv(y);
      } else {
        CallKeepsInv(y);
      }
    }
  }

  lemma SystemStepKeepsInv(y: System, a: Choice)
    requires SystemInv(y)
    ensures SystemInv(SystemStep(y, a))
  {
    match a
    case Receive(c) =>
      StepKeepsInv(y.ring, CallPut(c));
      HandlerKeepsInv(y, Step(y.ring, CallPut(c)));
    case Handler =>
      ProducerStepKeepsInv(y.ring);
      HandlerKeepsInv(y, ProducerStep(y.ring));
    case Task =>
      ConsoleStepKeepsInv(y);
  }

  /** The system after a schedule of received bytes, steps of the interrupt
      handler and steps of the console task. */
  ghost function Runs(y: System, schedule: seq<Choice>): (z: System)
    requires SystemInv(y)
    ensures SystemInv(z)
    decreases |schedule|
  {
    if schedule == [] then y
    else
      SystemStepKeepsInv(y, schedule[0]);
      Runs(SystemStep(y, schedule[0]), schedule[1..])
  }

  /** No byte waits in the ring or on its way to the editor, and no line waits. */
  predicate Quiet(y: System) {
    Unread(y.ring) == 0 && !y.ring.consumer.Got? && Waiting(y.console)
  }

  /** What the invariant says about the lines executed. */
  lemma ExecutedLines(y: System)
    requires SystemInv(y)
    ensures y.console.executed <= Fold(RetargetIo.Cooked(y.ring.accepted)).lines
    ensures Quiet(y) ==> y.console.executed == Fold(RetargetIo.Cooked(y.ring.accepted)).lines
  {
    var seen := Seen(y.ring);
    var rest := y.ring.accepted[|seen|..];
    assert y.ring.accepted == seen + rest;
    RetargetIo.CookedConcat(seen, rest);
    FeedAllConcat(FRESH, RetargetIo.Cooked(seen), RetargetIo.Cooked(rest));
    LinesGrow(Fold(RetargetIo.Cooked(seen)), RetargetIo.Cooked(rest));
    assert Quiet(y) ==> seen == y.ring.accepted;
  }

  /** For every stream of bytes and every schedule, whatever the length of the
      ring: the lines executed are a prefix of the lines of the fold over the
      accepted bytes, all of them when nothing is under way, and getchar never
      returns EOF. */
  lemma LinesAreFoldPrefix(buffer: seq<byte>, schedule: seq<Choice>)
    requires 0 < |buffer| < TWO32
    ensures SystemInv(Boot(buffer))
    ensures var y := Runs(Boot(buffer), schedule);
            var lines := Fold(RetargetIo.Cooked(y.ring.accepted)).lines;
            y.console.executed <= lines && (Quiet(y) ==> y.console.executed == lines) && !y.eof &&
            forall l :: l in y.console.executed ==> IsText(l)
  {
    BootInv(buffer);
    var y := Runs(Boot(buffer), schedule);
    ExecutedLines(y);
    FoldIsSound(RetargetIo.Cooked(y.ring.accepted));
  }

  /** A text typed at an empty prompt, and enter, which sends CR: once everything
      has been taken, exactly that text has been executed in addition, whatever
      the schedule in between. */
  lemma TypedLineIsExecuted(y: System, schedule: seq<Choice>, text: seq<byte>)
    requires SystemInv(y) && Quiet(y) && Quiet(Runs(y, schedule))
    requires y.console.phase == Input && y.console.line == [] && TypedLines.Typed(text)
    requires Runs(y, schedule).ring.accepted == y.ring.accepted + text + [0x0D]
    ensures Runs(y, schedule).console.executed == y.console.executed + [text]
  {
    ExecutedLines(y);
    ExecutedLines(Runs(y, schedule));
    assert Seen(y.ring) == y.ring.accepted;
    TypedLines.EnterSubmits(y.ring.accepted, text, 0x0D);
  }

  // ----- progress of the console task

  function Tasks(n: nat): seq<Choice> {
    if n == 0 then [] else [Task] + Tasks(n - 1)
  }

  /** The system after n steps of the console task alone. */
  ghost function TaskSteps(y: System, n: nat): (z: System)
    requires SystemInv(y)
    ensures SystemInv(z)
  {
    Runs(y, Tasks(n))
  }

  function PhaseRank(k: Console): nat {
    match k.phase
    case Exec => 3
    case EndCmd => 2
    case Init => 1
    case _ => 0
  }

  function ConsumerRank(s: State): nat {
    match s.consumer
    case AvailHead => if Unread(s) > 0 then 9 else 13
    case AvailTail(_, seen) => if seen > |s.taken| then 8 else 12
    case AvailIs(n) => if n > 0 then 7 else 11
    case Resting => 10
    case EmptyHead => 6
    case EmptyTail(_, _) => 5
    case GetIndex => 4
    case GetLoad(_) => 3
    case GetTail(_) => 2
    case GetRelease(_, _) => 1
    case GetEmpty | Got(_) => 0
  }

  /** How far the console task is from having nothing left to do. */
  function Distance(y: System): int {
    100 * (Unread(y.ring) + if y.ring.consumer.Got? then 1 else 0) + 20 * PhaseRank(y.console) + ConsumerRank(y.ring)
  }

  /** The queued bytes have not wrapped round the end of the buffer. */
  predicate Straight(s: State) {
    s.tail <= s.head && (s.consumer.AvailTail? ==> s.consumer.head == s.head)
  }

  /** ring_buffer_avail can be relied on to see queued bytes. */
  predicate Counts(s: State)
    requires 0 < s.Len()
  {
    TWO32 % s.Len() == 0 || Straight(s)
  }

  lemma StepKeepsCounts(y: System)
    requires SystemInv(y) && Counts(y.ring)
    ensures Counts(ConsoleStep(y).ring)
  {
    if y.ring.consumer.GetRelease? {
      SlotDistance(|y.ring.taken|, |y.ring.accepted|, y.ring.Len());
      AfterWraps(y.ring.tail, y.ring.Len());
    }
  }

  lemma CallApproaches(y: System)
    requires SystemInv(y) && Counts(y.ring) && Waiting(y.console)
    requires !y.ring.consumer.Got? && !y.ring.consumer.Resting? && !y.ring.consumer.AvailIs?
    ensures Distance(ConsoleStep(y)) < Distance(y)
  {
    if y.ring.consumer.AvailTail? {
      SlotDistance(|y.ring.taken|, y.ring.consumer.seen, y.ring.Len());
      AvailExactAt(y.ring.consumer.head, y.ring.tail, y.ring.Len());
    } else if y.ring.consumer.EmptyTail? {
      SlotDistance(|y.ring.taken|, y.ring.consumer.seen, y.ring.Len());
    }
  }

  lemma StepApproaches(y: System)
    requires SystemInv(y) && Counts(y.ring) && !(Quiet(y) && y.ring.consumer.Resting?)
    ensures Distance(ConsoleStep(y)) < Distance(y)
  {
    if Waiting(y.console) && !y.ring.consumer.Got? && !y.ring.consumer.Resting? && !y.ring.consumer.AvailIs? {
      CallApproaches(y);
    }
  }

  /** What the console task cannot change. */
  predicate SameStream(y: System, z: System) {
    z.ring.accepted == y.ring.accepted && z.ring.producer == y.ring.producer && z.ring.Len() == y.ring.Len()
  }

  lemma StepKeepsStream(y: System)
    requires SystemInv(y)
    ensures SystemInv(ConsoleStep(y))
    ensures SameStream(y, ConsoleStep(y)) && 0 <= Distance(y)
  {
    ConsoleStepKeepsInv(y);
  }

  lemma RunsOne(y: System, a: Choice, rest: seq<Choice>)
    requires SystemInv(y)
    ensures SystemInv(SystemStep(y, a)) && Runs(y, [a] + rest) == Runs(SystemStep(y, a), rest)
  {
    SystemStepKeepsInv(y, a);
    assert ([a] + rest)[1..] == rest;
  }

  lemma TaskStepsUnfold(y: System, n: nat)
    requires SystemInv(y)
    ensures SystemInv(ConsoleStep(y)) && TaskSteps(y, n + 1) == TaskSteps(ConsoleStep(y), n)
  {
    RunsOne(y, Task, Tasks(n));
  }

  /** One step towards being done; n further steps from there are n + 1 from here. */
  lemma TaskProgress(y: System) returns (z: System)
    requires SystemInv(y) && Counts(y.ring) && !(Quiet(y) && y.ring.consumer.Resting?)
    ensures SystemInv(z) && Counts(z.ring) && SameStream(y, z)
    ensures 0 <= Distance(z) < Distance(y)
    ensures forall m: nat, n: nat :: n == m + 1 ==> TaskSteps(y, n) == TaskSteps(z, m)
  {
    z := ConsoleStep(y);
    StepApproaches(y);
    StepKeepsStream(y);
    StepKeepsCounts(y);
    forall m: nat, n: nat | n == m + 1
      ensures TaskSteps(y, n) == TaskSteps(z, m)
    {
      TaskStepsUnfold(y, m);
    }
    StepKeepsStream(z);
  }

  lemma {:induction false} Drains(y: System) returns (n: nat)
    requires SystemInv(y) && Counts(y.ring)
    ensures var z := TaskSteps(y, n);
            Quiet(z) && z.ring.consumer.Resting? && SameStream(y, z)
    decreases Distance(y)
  {
    n := 0;
    if !(Quiet(y) && y.ring.consumer.Resting?) {
      var z := TaskProgress(y);
      var m := Drains(z);
      n := m + 1;
    }
  }

  /** If the length divides 2^32, the console task left to itself takes every
      byte and executes every line of the fold over the accepted bytes. */
  lemma EveryLineIsExecuted(y: System) returns (n: nat)
    requires SystemInv(y) && TWO32 % y.ring.Len() == 0
    ensures var z := TaskSteps(y, n);
            Unread(z.ring) == 0 && z.console.executed == Fold(RetargetIo.Cooked(y.ring.accepted)).lines
  {
    n := Drains(y);
    ExecutedLines(TaskSteps(y, n));
  }

  /** The console task left to itself takes every byte and executes every line. */
  ghost predicate Finishes(y: System)
    requires SystemInv(y)
  {
    exists n: nat :: Quiet(TaskSteps(y, n))
  }

  /** Bytes are queued, but the task reads a count of 0 for ever. */
  ghost predicate Stalled(y: System) {
    SystemInv(y) && Waiting(y.console) && Unread(y.ring) > 0 &&
    AvailValue(y.ring.head, y.ring.tail, y.ring.Len()) == 0 &&
    match y.ring.consumer
    case Resting | AvailHead => true
    case AvailTail(head, _) => head == y.ring.head
    case AvailIs(n) => n == 0
    case _ => false
  }

  lemma StallStep(y: System)
    requires Stalled(y)
    ensures Stalled(ConsoleStep(y)) && ConsoleStep(y).ring.taken == y.ring.taken
  {
    ConsoleStepKeepsInv(y);
  }

  lemma {:induction false} StallLasts(y: System, n: nat)
    requires Stalled(y)
    ensures Stalled(TaskSteps(y, n)) && TaskSteps(y, n).ring.taken == y.ring.taken
    decreases n
  {
    if n > 0 {
      TaskStepsUnfold(y, n - 1);
      StallStep(y);
      StallLasts(ConsoleStep(y), n - 1);
    }
  }

  lemma StalledNeverFinishes(y: System)
    requires Stalled(y)
    ensures !Finishes(y)
  {
    forall n: nat
      ensures !Quiet(TaskSteps(y, n))
    {
      StallLasts(y, n);
    }
  }

  // ----- a schedule that stalls when the length does not divide 2^32

  lemma {:induction false} RunsConcat(y: System, a: seq<Choice>, b: seq<Choice>)
    requires SystemInv(y)
    ensures Runs(y, a + b) == Runs(Runs(y, a), b)
    decreases |a|
  {
    if a == [] {
      assert a + b == b;
    } else {
      SystemStepKeepsInv(y, a[0]);
      assert (a + b)[1..] == a[1..] + b;
      RunsConcat(SystemStep(y, a[0]), a[1..], b);
    }
  }

  /** What the handler cannot change. */
  predicate SameTask(y: System, z: System) {
    z.console == y.console && z.ring.consumer == y.ring.consumer && z.ring.taken == y.ring.taken &&
    z.ring.Len() == y.ring.Len()
  }

  function HandlerRank(p: Producer): nat {
    match p
    case Idle => 0
    case PutPublish(_, _) => 1
    case PutHead(_) => 2
    case PutStore(_, _) => 3
    case PutIndex(_) => 4
    case FullTail(_, _) => 5
    case FullHead(_) => 6
  }

  lemma HandlerApproaches(y: System)
    requires SystemInv(y) && !y.ring.producer.Idle? && Unread(y.ring) + 1 < y.ring.Len()
    ensures var z, p := SystemStep(y, Handler), y.ring.producer;
            SystemInv(z) && SameTask(y, z) &&
            if p.PutPublish? then z.ring.producer.Idle? && z.ring.accepted == y.ring.accepted + [p.c]
            else !z.ring.producer.Idle? && z.ring.producer.c == p.c && z.ring.accepted == y.ring.accepted &&
                 HandlerRank(z.ring.producer) < HandlerRank(p)
  {
    SystemStepKeepsInv(y, Handler);
    if y.ring.producer.FullTail? {
      DroppedIffFull(y.ring);
    }
  }

  /** The handler left to itself completes a put when there is room. */
  lemma {:induction false} PutCompletes(y: System) returns (schedule: seq<Choice>)
    requires SystemInv(y) && !y.ring.producer.Idle? && Unread(y.ring) + 1 < y.ring.Len()
    ensures var z := Runs(y, schedule);
            SameTask(y, z) && z.ring.producer.Idle? && z.ring.accepted == y.ring.accepted + [y.ring.producer.c]
    decreases HandlerRank(y.ring.producer)
  {
    HandlerApproaches(y);
    var rest := [];
    if !y.ring.producer.PutPublish? {
      rest := PutCompletes(SystemStep(y, Handler));
    }
    RunsOne(y, Handler, rest);
    schedule := [Handler] + rest;
  }

  lemma PutZero(y: System) returns (schedule: seq<Choice>)
    requires SystemInv(y) && y.ring.producer.Idle? && Unread(y.ring) + 1 < y.ring.Len()
    ensures var z := Runs(y, schedule);
            SameTask(y, z) && z.ring.producer.Idle? && z.ring.accepted == y.ring.accepted + [0]
  {
    SystemStepKeepsInv(y, Receive(0));
    var rest := PutCompletes(SystemStep(y, Receive(0)));
    schedule := [Receive(0)] + rest;
  }

  /** From an idle system that has seen i bytes, i being less than the length,
      a schedule leads to one that has seen n bytes. */
  lemma {:induction false} ReachSeen(y: System, n: nat) returns (schedule: seq<Choice>)
    requires SystemInv(y) && y.ring.producer.Idle? && Quiet(y) && y.ring.consumer.Resting?
    requires |y.ring.accepted| <= n < y.ring.Len()
    ensures var z := Runs(y, schedule);
            z.ring.producer.Idle? && Quiet(z) && z.ring.consumer.Resting? &&
            |z.ring.accepted| == n && z.ring.Len() == y.ring.Len()
    decreases n - |y.ring.accepted|
  {
    schedule := [];
    if |y.ring.accepted| < n {
      var put := PutZero(y);
      var z := Runs(y, put);
      ModUnique(|z.ring.taken|, 0, z.ring.Len(), |z.ring.taken|);
      ModUnique(|z.ring.accepted|, 0, z.ring.Len(), |z.ring.accepted|);
      var k := Drains(z);
      var took := put + Tasks(k);
      RunsConcat(y, put, Tasks(k));
      var rest := ReachSeen(Runs(y, took), n);
      RunsConcat(y, took, rest);
      schedule := took + rest;
    }
  }

  lemma {:induction false} ReachFilled(y: System, n: nat) returns (schedule: seq<Choice>)
    requires SystemInv(y) && y.ring.producer.Idle?
    requires |y.ring.accepted| <= n && n - |y.ring.taken| < y.ring.Len()
    ensures var z := Runs(y, schedule);
            SameTask(y, z) && |z.ring.accepted| == n
    decreases n - |y.ring.accepted|
  {
    schedule := [];
    if |y.ring.accepted| < n {
      var put := PutZero(y);
      var rest := ReachFilled(Runs(y, put), n);
      RunsConcat(y, put, rest);
      schedule := put + rest;
    }
  }

  /** Take 2^32 mod len bytes, then fill the ring up to the end of the buffer:
      head is 0, tail is 2^32 mod len, and the count reads 0. */
  lemma StallIsReachable(buffer: seq<byte>) returns (schedule: seq<Choice>)
    requires 0 < |buffer| < TWO32 && TWO32 % |buffer| != 0
    ensures SystemInv(Boot(buffer)) && Stalled(Runs(Boot(buffer), schedule))
  {
    BootInv(buffer);
    var len, y := |buffer|, Boot(buffer);
    var r := TWO32 % len;
    var k := Drains(y);
    var start := Tasks(k);
    var take := ReachSeen(Runs(y, start), r);
    RunsConcat(y, start, take);
    var fill := ReachFilled(Runs(y, start + take), len);
    RunsConcat(y, start + take, fill);
    schedule := start + take + fill;
    ModUnique(len, 1, len, 0);
    ModUnique(r, 0, len, r);
    AvailMisses(len);
  }

  lemma DividingLengthFinishes(buffer: seq<byte>, schedule: seq<Choice>)
    requires 0 < |buffer| < TWO32 && TWO32 % |buffer| == 0
    ensures SystemInv(Boot(buffer)) && Finishes(Runs(Boot(buffer), schedule))
  {
    BootInv(buffer);
    RunsKeepLength(Boot(buffer), schedule);
    var n := Drains(Runs(Boot(buffer), schedule));
  }

  /** Every reachable state can finish. */
  ghost predicate AlwaysFinishes(buffer: seq<byte>)
    requires SystemInv(Boot(buffer))
  {
    forall schedule :: Finishes(Runs(Boot(buffer), schedule))
  }

  /** From every reachable state the console task left to itself takes every
      byte and executes every line, exactly when the length of the ring divides
      2^32, as 128 does. */
  lemma EveryRunFinishesIff(buffer: seq<byte>)
    requires 0 < |buffer| < TWO32
    ensures SystemInv(Boot(buffer))
    ensures AlwaysFinishes(buffer) <==> TWO32 % |buffer| == 0
  {
    BootInv(buffer);
    if TWO32 % |buffer| == 0 {
      forall schedule
        ensures Finishes(Runs(Boot(buffer), schedule))
      {
        DividingLengthFinishes(buffer, schedule);
      }
    } else {
      var schedule := StallIsReachable(buffer);
      StalledNeverFinishes(Runs(Boot(buffer), schedule));
    }
  }

  lemma {:induction false} RunsKeepLength(y: System, schedule: seq<Choice>)
    requires SystemInv(y)
    ensures Runs(y, schedule).ring.Len() == y.ring.Len()
    decreases |schedule|
  {
    if schedule != [] {
      SystemStepKeepsInv(y, schedule[0]);
      RunsKeepLength(SystemStep(y, schedule[0]), schedule[1..]);
    }
  }
}
