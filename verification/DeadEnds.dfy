/**
 Lengths of the serial ring for which the console can stop reading for ever:
 no further byte, however many arrive, makes it take one again.
 */
module DeadEnds {
  import opened Types
  import opened RingBuffer
  import opened RingProtocol
  import opened LineEditor
  import opened ConsoleSystem

  /** Bytes are queued, and no continuation takes another one. */
  ghost predicate DeadEnd(y: System)
    requires SystemInv(y)
  {
    Unread(y.ring) > 0 && forall schedule :: Runs(y, schedule).ring.taken == y.ring.taken
  }

  function CountNow(s: State): u32
    requires 0 < s.Len() < TWO32 && s.head < s.Len() && s.tail < s.Len()
  {
    AvailValue(s.head, s.tail, s.Len())
  }

  // ----- a full ring whose count reads 0

  ghost predicate Jammed(y: System) {
    Stalled(y) && Unread(y.ring) == y.ring.Len() - 1
  }

  lemma JammedStep(y: System, a: Choice)
    requires Jammed(y)
    ensures Jammed(SystemStep(y, a)) && SystemStep(y, a).ring.taken == y.ring.taken
  {
    SystemStepKeepsInv(y, a);
    if a.Task? {
      StallStep(y);
    } else if a.Handler? && y.ring.producer.FullTail? {
      DroppedIffFull(y.ring);
    }
  }

  lemma {:induction false} JammedForever(y: System, schedule: seq<Choice>)
    requires Jammed(y)
    ensures Runs(y, schedule).ring.taken == y.ring.taken
    decreases |schedule|
  {
    if schedule != [] {
      JammedStep(y, schedule[0]);
      JammedForever(SystemStep(y, schedule[0]), schedule[1..]);
    }
  }

  /** A count of 0 over queued bytes fixes their number. */
  lemma MissedNumber(s: State)
    requires Inv(s) && Unread(s) > 0 && CountNow(s) == 0
    ensures s.head < s.tail && TWO32 % s.Len() > 0 && Unread(s) == s.Len() - TWO32 % s.Len()
  {
    SlotDistance(|s.taken|, |s.accepted|, s.Len());
    AvailExactAt(s.head, s.tail, s.Len());
    AvailWrapped(s.head, s.tail, s.Len());
  }

  // ----- a positive count is acted on

  /** How far the console task is from taking a byte when the count is positive. */
  function TakeRank(y: System): nat {
    20 * PhaseRank(y.console) +
    match y.ring.consumer
    case Got(_) | GetEmpty => 100
    case AvailTail(head, _) =>
      if 0 < y.ring.Len() < TWO32 && AvailValue(head, y.ring.tail, y.ring.Len()) > 0 then 8 else 12
    case AvailIs(n) => if n > 0 then 7 else 11
    case Resting => 10
    case AvailHead => 9
    case EmptyHead => 6
    case EmptyTail(_, _) => 5
    case GetIndex => 4
    case GetLoad(_) => 3
    case GetTail(_) => 2
    case GetRelease(_, _) => 1
  }

  lemma TakeApproaches(y: System)
    requires SystemInv(y) && CountNow(y.ring) > 0
    ensures var z := ConsoleStep(y);
            if y.ring.consumer.GetRelease? && Waiting(y.console) then |z.ring.taken| == |y.ring.taken| + 1
            else z.ring.taken == y.ring.taken && z.ring.head == y.ring.head && z.ring.tail == y.ring.tail &&
                 z.ring.Len() == y.ring.Len() && TakeRank(z) < TakeRank(y)
  {
    if y.ring.consumer.EmptyTail? {
      SlotDistance(|y.ring.taken|, y.ring.consumer.seen, y.ring.Len());
    }
  }

  /** One step towards the next byte; n further steps from there are n + 1 from
      here. */
  lemma TakeProgress(y: System) returns (z: System)
    requires SystemInv(y) && CountNow(y.ring) > 0
    ensures SystemInv(z) && TaskSteps(z, 0) == z
    ensures |z.ring.taken| > |y.ring.taken| ||
            (z.ring.taken == y.ring.taken && CountNow(z.ring) > 0 && TakeRank(z) < TakeRank(y))
    ensures forall m: nat, n: nat :: n == m + 1 ==> TaskSteps(y, n) == TaskSteps(z, m)
  {
    z := ConsoleStep(y);
    TakeApproaches(y);
    StepKeepsStream(y);
    forall m: nat, n: nat | n == m + 1
      ensures TaskSteps(y, n) == TaskSteps(z, m)
    {
      TaskStepsUnfold(y, m);
    }
  }

  /** If the count is positive, the task left to itself takes a byte. */
  lemma {:induction false} TaskTakes(y: System) returns (n: nat)
    requires SystemInv(y) && CountNow(y.ring) > 0
    ensures |TaskSteps(y, n).ring.taken| > |y.ring.taken|
    decreases TakeRank(y)
  {
    var z := TakeProgress(y);
    var m := 0;
    if z.ring.taken == y.ring.taken {
      m := TaskTakes(z);
    }
    n := m + 1;
  }

  // ----- one more byte mends the count

  lemma OneMoreCounts(s: State, t: State)
    requires Inv(s) && Unread(s) > 0 && CountNow(s) == 0 && TWO32 % s.Len() != 1
    requires Inv(t) && t.taken == s.taken && t.Len() == s.Len() && |t.accepted| == |s.accepted| + 1
    ensures CountNow(t) > 0
  {
    MissedNumber(s);
    SlotAfter(|s.accepted|, s.Len());
    AfterWraps(s.head, s.Len());
    SlotDistance(|t.taken|, |t.accepted|, t.Len());
    AvailWrapped(t.head, t.tail, t.Len());
  }

  lemma PutOneMore(y: System) returns (schedule: seq<Choice>)
    requires SystemInv(y) && Unread(y.ring) + 1 < y.ring.Len()
    ensures var z := Runs(y, schedule);
            SameTask(y, z) && |z.ring.accepted| == |y.ring.accepted| + 1
  {
    if y.ring.producer.Idle? {
      schedule := PutZero(y);
    } else {
      schedule := PutCompletes(y);
    }
  }

  /** Unless 2^32 leaves 1 when divided by the length, every state with queued
      bytes can go on to take one. */
  lemma SomeByteIsTaken(y: System) returns (schedule: seq<Choice>)
    requires SystemInv(y) && Unread(y.ring) > 0 && TWO32 % y.ring.Len() != 1
    ensures |Runs(y, schedule).ring.taken| > |y.ring.taken|
  {
    schedule := [];
    if CountNow(y.ring) == 0 {
      MissedNumber(y.ring);
      schedule := PutOneMore(y);
      OneMoreCounts(y.ring, Runs(y, schedule).ring);
    }
    var n := TaskTakes(Runs(y, schedule));
    RunsConcat(y, schedule, Tasks(n));
    schedule := schedule + Tasks(n);
  }

  /** A state that no continuation can leave is reachable exactly when 2^32
      leaves 1 when divided by the length of the ring, as it does for 3 slots.
      For other lengths that do not divide 2^32 one more byte is enough. */
  lemma DeadEndReachableIff(buffer: seq<byte>)
    requires 0 < |buffer| < TWO32
    ensures SystemInv(Boot(buffer))
    ensures (exists schedule :: DeadEnd(Runs(Boot(buffer), schedule))) <==> TWO32 % |buffer| == 1
  {
    BootInv(buffer);
    if TWO32 % |buffer| == 1 {
      var schedule := StallIsReachable(buffer);
      var y := Runs(Boot(buffer), schedule);
      RunsKeepLength(Boot(buffer), schedule);
      MissedNumber(y.ring);
      forall more
        ensures Runs(y, more).ring.taken == y.ring.taken
      {
        JammedForever(y, more);
      }
      assert DeadEnd(y);
    } else {
      forall schedule
        ensures !DeadEnd(Runs(Boot(buffer), schedule))
      {
        var y := Runs(Boot(buffer), schedule);
        RunsKeepLength(Boot(buffer), schedule);
        if Unread(y.ring) > 0 {
          var more := SomeByteIsTaken(y);
        }
      }
    }
  }
}
