/**
 The serial ring shared without locks by one producer, the interrupt handler,
 and one consumer, the console task. Every load and every store of head, tail
 and buffer in ring_buffer.c is a step of its own, and the steps of the two
 sides interleave in any way.
 */
module RingProtocol {
  import opened Types
  import opened Arithmetic
  import opened RingBuffer

  /** Where the producer is inside ring_buffer_put(c), with its local values. */
  datatype Producer =
    | Idle
    | FullHead(c: byte)                  // about to load head, in ring_buffer_is_full
    | FullTail(c: byte, head: u32)       // about to load tail and compare
    | PutIndex(c: byte)                  // about to load head, for the store
    | PutStore(c: byte, index: u32)      // about to store into the buffer
    | PutHead(c: byte)                   // about to load head, to advance it
    | PutPublish(c: byte, head: u32)     // about to store head

  /** Where the consumer is inside ring_buffer_avail or ring_buffer_get. seen is
      the number of bytes put when head was loaded; the code does not use it. */
  datatype Consumer =
    | Resting
    | AvailHead
    | AvailTail(head: u32, seen: nat)
    | AvailIs(n: u32)                    // ring_buffer_avail returns n
    | EmptyHead                          // about to load head, in ring_buffer_is_empty
    | EmptyTail(head: u32, seen: nat)
    | GetEmpty                           // ring_buffer_get returns EMPTY_ERROR
    | GetIndex
    | GetLoad(index: u32)
    | GetTail(c: byte)
    | GetRelease(c: byte, tail: u32)     // about to store tail
    | Got(c: byte)                       // ring_buffer_get returns c

  /** accepted and taken are the bytes put and got so far, in order. */
  datatype State = State(buffer: seq<byte>, head: u32, tail: u32, producer: Producer, consumer: Consumer,
                         accepted: seq<byte>, taken: seq<byte>)
  {
    function Len(): nat { |buffer| }
  }

  predicate WellFormed(s: State) {
    0 < |s.buffer| < TWO32 && s.head < |s.buffer| && s.tail < |s.buffer| &&
    (s.producer.PutStore? ==> s.producer.index < |s.buffer|) &&
    (s.consumer.GetLoad? ==> s.consumer.index < |s.buffer|)
  }

  /** One step of the producer. */
  function ProducerStep(s: State): (t: State)
    requires WellFormed(s)
    ensures WellFormed(t) && t.Len() == s.Len() && t.consumer == s.consumer && t.taken == s.taken && t.tail == s.tail
  {
    match s.producer
    case Idle => s
    case FullHead(c) => s.(producer := FullTail(c, s.head))
    case FullTail(c, head) => s.(producer := if After(head, s.Len()) == s.tail then Idle else PutIndex(c))
    case PutIndex(c) => s.(producer := PutStore(c, s.head))
    case PutStore(c, index) => s.(producer := PutHead(c), buffer := s.buffer[index := c])
    case PutHead(c) => s.(producer := PutPublish(c, s.head))
    case PutPublish(c, head) => s.(producer := Idle, head := After(head, s.Len()), accepted := s.accepted + [c])
  }

  /** One step of the consumer inside a call. */
  function ConsumerStep(s: State): (t: State)
    requires WellFormed(s)
    ensures WellFormed(t) && t.buffer == s.buffer && t.producer == s.producer && t.accepted == s.accepted
    ensures t.head == s.head
  {
    match s.consumer
    case Resting | AvailIs(_) | GetEmpty | Got(_) => s
    case AvailHead => s.(consumer := AvailTail(s.head, |s.accepted|))
    case AvailTail(head, _) => s.(consumer := AvailIs(AvailValue(head, s.tail, s.Len())))
    case EmptyHead => s.(consumer := EmptyTail(s.head, |s.accepted|))
    case EmptyTail(head, _) => s.(consumer := if head == s.tail then GetEmpty else GetIndex)
    case GetIndex => s.(consumer := GetLoad(s.tail))
    case GetLoad(index) => s.(consumer := GetTail(s.buffer[index]))
    case GetTail(c) => s.(consumer := GetRelease(c, s.tail))
    case GetRelease(c, tail) => s.(consumer := Got(c), tail := After(tail, s.Len()), taken := s.taken + [c])
  }

  /** Choices of the schedule. A call that is not possible leaves the state alone. */
  datatype Action = CallPut(c: byte) | Produce | CallAvail | CallGet | Consume | Return

  function Step(s: State, a: Action): State
    requires WellFormed(s)
  {
    match a
    case CallPut(c) => if s.producer.Idle? then s.(producer := FullHead(c)) else s
    case Produce => ProducerStep(s)
    case CallAvail => if s.consumer.Resting? then s.(consumer := AvailHead) else s
    case CallGet => if s.consumer.Resting? then s.(consumer := EmptyHead) else s
    case Consume => ConsumerStep(s)
    case Return => if s.consumer.AvailIs? || s.consumer.GetEmpty? || s.consumer.Got? then s.(consumer := Resting) else s
  }

  function Initial(buffer: seq<byte>): State {
    State(buffer, 0, 0, Idle, Resting, [], [])
  }

  // ----- the slots of the ring

  /** The slot of the i-th byte ever put. */
  function Slot(i: nat, len: nat): (r: nat)
    requires 0 < len
    ensures r < len
  {
    i % len
  }

  lemma SlotAfter(i: nat, len: nat)
    requires 0 < len
    ensures After(Slot(i, len), len) == Slot(i + 1, len)
  {
    var q := i / len;
    assert i == len * q + i % len;
    assert len * q == q * len;
    AfterWraps(Slot(i, len), len);
    if i % len + 1 == len {
      assert q * len + len == (q + 1) * len;
      ModUnique(i + 1, q + 1, len, 0);
    } else {
      ModUnique(i + 1, q, len, i % len + 1);
    }
  }

  /** Bytes less than a ring apart are in different slots, and the distance
      between their slots is the distance between them. */
  lemma SlotDistance(i: nat, j: nat, len: nat)
    requires 0 < len && i <= j < i + len
    ensures Count(Slot(j, len), Slot(i, len), len) == j - i
    ensures Slot(i, len) == Slot(j, len) ==> i == j
  {
    var q, r := i / len, i % len;
    assert i == len * q + r;
    assert len * q == q * len;
    if r + (j - i) < len {
      ModUnique(j, q, len, r + (j - i));
    } else {
      assert q * len + len == (q + 1) * len;
      ModUnique(j, q + 1, len, r + (j - i) - len);
    }
  }

  // ----- what every step keeps

  /** The number of bytes put and not yet taken. */
  function Unread(s: State): int {
    |s.accepted| - |s.taken|
  }

  ghost predicate Shared(s: State) {
    0 < s.Len() < TWO32 &&
    s.taken <= s.accepted && Unread(s) < s.Len() &&
    s.head == Slot(|s.accepted|, s.Len()) && s.tail == Slot(|s.taken|, s.Len()) &&
    forall i :: |s.taken| <= i < |s.accepted| ==> s.buffer[Slot(i, s.Len())] == s.accepted[i]
  }

  ghost predicate ProducerKnows(s: State)
    requires Shared(s)
  {
    match s.producer
    case Idle | FullHead(_) => true
    case FullTail(_, head) => head == s.head
    case PutIndex(_) => Unread(s) + 1 < s.Len()
    case PutStore(_, index) => Unread(s) + 1 < s.Len() && index == s.head
    case PutHead(c) => Unread(s) + 1 < s.Len() && s.buffer[s.head] == c
    case PutPublish(c, head) => Unread(s) + 1 < s.Len() && s.buffer[s.head] == c && head == s.head
  }

  ghost predicate ConsumerKnows(s: State)
    requires Shared(s)
  {
    match s.consumer
    case Resting | AvailHead | EmptyHead | GetEmpty => true
    case AvailTail(head, seen) => |s.taken| <= seen <= |s.accepted| && head == Slot(seen, s.Len())
    case AvailIs(n) => (n > 0 ==> Unread(s) > 0) && (TWO32 % s.Len() == 0 ==> n <= Unread(s))
    case EmptyTail(head, seen) => |s.taken| <= seen <= |s.accepted| && head == Slot(seen, s.Len())
    case GetIndex => Unread(s) > 0
    case GetLoad(index) => Unread(s) > 0 && index == s.tail
    case GetTail(c) => Unread(s) > 0 && c == s.accepted[|s.taken|]
    case GetRelease(c, tail) => Unread(s) > 0 && c == s.accepted[|s.taken|] && tail == s.tail
    case Got(c) => s.taken != [] && c == s.taken[|s.taken| - 1]
  }

  ghost predicate Inv(s: State) {
    Shared(s) && WellFormed(s) && ProducerKnows(s) && ConsumerKnows(s)
  }

  lemma InitialInv(buffer: seq<byte>)
    requires 0 < |buffer| < TWO32
    ensures Inv(Initial(buffer))
  {
    ModUnique(0, 0, |buffer|, 0);
  }

  /** The producer writes only to a slot that holds no unread byte. */
  lemma FreeSlot(s: State)
    requires Shared(s) && Unread(s) + 1 < s.Len()
    ensures forall i :: |s.taken| <= i < |s.accepted| ==> Slot(i, s.Len()) != s.head
  {
    forall i | |s.taken| <= i < |s.accepted|
      ensures Slot(i, s.Len()) != s.head
    {
      SlotDistance(i, |s.accepted|, s.Len());
    }
  }

  /** What the consumer relies on survives anything the producer may do. */
  lemma ConsumerStable(s: State, t: State)
    requires Shared(s) && ConsumerKnows(s) && Shared(t)
    requires t.Len() == s.Len() && t.consumer == s.consumer && t.taken == s.taken && t.tail == s.tail
    requires s.accepted <= t.accepted
    ensures ConsumerKnows(t)
  {
  }

  /** What the producer relies on survives anything the consumer may do. */
  lemma ProducerStable(s: State, t: State)
    requires Shared(s) && ProducerKnows(s) && Shared(t)
    requires t.buffer == s.buffer && t.producer == s.producer && t.accepted == s.accepted && t.head == s.head
    requires s.taken <= t.taken
    ensures ProducerKnows(t)
  {
  }

  lemma StoreKeepsShared(s: State)
    requires Inv(s) && s.producer.PutStore?
    ensures Shared(ProducerStep(s)) && ProducerKnows(ProducerStep(s))
  {
    FreeSlot(s);
  }

  lemma PublishKeepsShared(s: State)
    requires Inv(s) && s.producer.PutPublish?
    ensures Shared(ProducerStep(s)) && ProducerKnows(ProducerStep(s))
  {
    SlotAfter(|s.accepted|, s.Len());
  }

  lemma ProducerStepKeepsInv(s: State)
    requires Inv(s)
    ensures Inv(ProducerStep(s))
  {
    match s.producer {
      case FullTail(c, head) => DroppedIffFull(s);
      case PutStore(c, index) => StoreKeepsShared(s);
      case PutPublish(c, head) => PublishKeepsShared(s);
      case _ =>
    }
    ConsumerStable(s, ProducerStep(s));
  }

  lemma ModUniqueShift(i: nat, len: nat)
    requires 0 < len
    ensures Slot(i + len, len) == Slot(i, len)
  {
    var q := i / len;
    assert i == len * q + i % len;
    assert len * q == q * len;
    assert q * len + len == (q + 1) * len;
    ModUnique(i + len, q + 1, len, i % len);
  }

  /** The slot at tail holds the oldest unread byte. */
  lemma TailSlotHolds(s: State)
    requires Shared(s)
    ensures Unread(s) > 0 ==> s.buffer[s.tail] == s.accepted[|s.taken|]
  {
  }

  lemma ReleaseKeepsShared(s: State)
    requires Inv(s) && s.consumer.GetRelease?
    ensures Shared(ConsumerStep(s)) && ConsumerKnows(ConsumerStep(s))
  {
    SlotAfter(|s.taken|, s.Len());
  }

  lemma CompareKeepsShared(s: State)
    requires Inv(s) && (s.consumer.AvailTail? || s.consumer.EmptyTail?)
    ensures Shared(ConsumerStep(s)) && ConsumerKnows(ConsumerStep(s))
  {
    if s.consumer.AvailTail? {
      AvailIsLowerBound(s);
    } else {
      SlotDistance(|s.taken|, s.consumer.seen, s.Len());
    }
  }

  lemma ConsumerStepKeepsInv(s: State)
    requires Inv(s)
    ensures Inv(ConsumerStep(s))
  {
    match s.consumer {
      case AvailTail(head, seen) => CompareKeepsShared(s);
      case EmptyTail(head, seen) => CompareKeepsShared(s);
      case GetLoad(index) => TailSlotHolds(s);
      case GetRelease(c, tail) => ReleaseKeepsShared(s);
      case _ =>
    }
    ProducerStable(s, ConsumerStep(s));
  }

  lemma StepKeepsInv(s: State, a: Action)
    requires Inv(s)
    ensures Inv(Step(s, a))
  {
    ProducerStepKeepsInv(s);
    ConsumerStepKeepsInv(s);
  }

  // ----- runs

  /** The state after a schedule; schedules of a run are read left to right. */
  function Run(s: State, schedule: seq<Action>): State
    requires Inv(s)
    ensures Inv(Run(s, schedule))
    decreases |schedule|
  {
    if schedule == [] then s
    else
      StepKeepsInv(s, schedule[0]);
      Run(Step(s, schedule[0]), schedule[1..])
  }

  /** Under every interleaving the bytes got are a prefix of the bytes put, at
      most len - 1 bytes are queued, and the bytes between tail and head are
      exactly the unread ones. */
  lemma RunIsFifo(buffer: seq<byte>, schedule: seq<Action>)
    requires 0 < |buffer| < TWO32
    ensures Inv(Initial(buffer))
    ensures var s := Run(Initial(buffer), schedule);
            s.taken <= s.accepted && 0 <= Unread(s) <= s.Len() - 1 &&
            s.head < s.Len() && s.tail < s.Len() &&
            Queued(s.buffer, s.head, s.tail) == s.accepted[|s.taken|..]
  {
    InitialInv(buffer);
    QueueIsUnread(Run(Initial(buffer), schedule));
  }

  lemma QueueIsUnread(s: State)
    requires Shared(s)
    ensures Queued(s.buffer, s.head, s.tail) == s.accepted[|s.taken|..]
  {
    var q := Queued(s.buffer, s.head, s.tail);
    SlotDistance(|s.taken|, |s.accepted|, s.Len());
    forall k | 0 <= k < Unread(s)
      ensures q[k] == s.accepted[|s.taken| + k]
    {
      var i := |s.taken| + k;
      SlotDistance(|s.taken|, i, s.Len());
      assert s.buffer[Slot(i, s.Len())] == s.accepted[i];
    }
  }

  /** No step overwrites a byte that has been put and not yet taken. */
  lemma UnreadSurvives(s: State, a: Action, i: nat)
    requires Inv(s) && |s.taken| <= i < |s.accepted|
    ensures Step(s, a).Len() == s.Len() && Step(s, a).buffer[Slot(i, s.Len())] == s.accepted[i]
  {
    if s.producer.PutStore? {
      FreeSlot(s);
    }
  }

  /** A put is refused exactly when len - 1 bytes are unread at the moment its
      check loads tail. */
  lemma DroppedIffFull(s: State)
    requires Inv(s) && s.producer.FullTail?
    ensures ProducerStep(s).producer.Idle? <==> Unread(s) == s.Len() - 1
  {
    SlotAfter(|s.accepted|, s.Len());
    if Unread(s) == s.Len() - 1 {
      ModUniqueShift(|s.taken|, s.Len());
    } else {
      SlotDistance(|s.taken|, |s.accepted| + 1, s.Len());
    }
  }

  /** The fill count the consumer reads is the number of bytes unread when it
      loaded head, if the length divides 2^32: puts that come later only make it
      too low, and a positive count is never wrong, whatever the length. */
  lemma AvailIsLowerBound(s: State)
    requires Inv(s) && s.consumer.AvailTail?
    ensures ConsumerStep(s).consumer.AvailIs?
    ensures var n := ConsumerStep(s).consumer.n;
            (TWO32 % s.Len() == 0 ==> n == s.consumer.seen - |s.taken| <= Unread(s)) &&
            (s.tail <= s.consumer.head ==> n == s.consumer.head - s.tail) &&
            (n > 0 ==> Unread(s) > 0)
  {
    SlotDistance(|s.taken|, s.consumer.seen, s.Len());
    AvailExactAt(s.consumer.head, s.tail, s.Len());
    AvailOfEmpty(s.tail, s.Len());
  }

  // ----- calls that run alone

  /** Without interference a put does what Ring.Put promises. */
  lemma PutAlone(s: State, c: byte)
    requires Inv(s) && s.producer.Idle?
    ensures var called := Step(s, CallPut(c));
            var t := ProducerStep(ProducerStep(ProducerStep(ProducerStep(ProducerStep(ProducerStep(called))))));
            var q := Queued(s.buffer, s.head, s.tail);
            t.producer.Idle? && Queued(t.buffer, t.head, t.tail) == if |q| == s.Len() - 1 then q else q + [c]
  {
    var s1 := Step(s, CallPut(c));
    StepKeepsInv(s, CallPut(c));
    ProducerStepKeepsInv(s1);
    var s2 := ProducerStep(s1);
    ProducerStepKeepsInv(s2);
    DroppedIffFull(s2);
    var s3 := ProducerStep(s2);
    QueueIsUnread(s);
    QueueIsUnread(s3);
    if s3.producer.PutIndex? {
      PutRestAlone(s3);
    }
  }

  lemma PutRestAlone(s: State)
    requires Inv(s) && s.producer.PutIndex?
    ensures var t := ProducerStep(ProducerStep(ProducerStep(ProducerStep(s))));
            t.producer.Idle? &&
            Queued(t.buffer, t.head, t.tail) == Queued(s.buffer, s.head, s.tail) + [s.producer.c]
  {
    var s1 := ProducerStep(s);
    var s2 := ProducerStep(s1);
    var s3 := ProducerStep(s2);
    ProducerStepKeepsInv(s);
    ProducerStepKeepsInv(s1);
    ProducerStepKeepsInv(s2);
    ProducerStepKeepsInv(s3);
    QueueIsUnread(s);
    QueueIsUnread(ProducerStep(s3));
  }

  /** Without interference avail does what Ring.Avail promises, and returning
      from it leaves everything as it was before the call. */
  lemma AvailAlone(s: State)
    requires Inv(s) && s.consumer.Resting?
    ensures var t := ConsumerStep(ConsumerStep(Step(s, CallAvail)));
            t.consumer.AvailIs? && Step(t, Return) == s &&
            (TWO32 % s.Len() == 0 ==> t.consumer.n == |Queued(s.buffer, s.head, s.tail)|) &&
            (t.consumer.n > 0 ==> Queued(s.buffer, s.head, s.tail) != [])
  {
    var s1 := Step(s, CallAvail);
    StepKeepsInv(s, CallAvail);
    ConsumerStepKeepsInv(s1);
    AvailIsLowerBound(ConsumerStep(s1));
    QueueIsUnread(s);
  }

  /** Without interference a get does what Ring.Get promises. */
  lemma GetAlone(s: State)
    requires Inv(s) && s.consumer.Resting?
    ensures var called := Step(s, CallGet);
            var t := ConsumerStep(ConsumerStep(ConsumerStep(ConsumerStep(ConsumerStep(ConsumerStep(called))))));
            var q := Queued(s.buffer, s.head, s.tail);
            if q == [] then t.consumer.GetEmpty? && Queued(t.buffer, t.head, t.tail) == []
            else t.consumer.Got? && q == [t.consumer.c] + Queued(t.buffer, t.head, t.tail)
  {
    var s1 := Step(s, CallGet);
    StepKeepsInv(s, CallGet);
    ConsumerStepKeepsInv(s1);
    var s2 := ConsumerStep(s1);
    ConsumerStepKeepsInv(s2);
    SlotDistance(|s.taken|, |s.accepted|, s.Len());
    var s3 := ConsumerStep(s2);
    QueueIsUnread(s);
    QueueIsUnread(s3);
    if s3.consumer.GetIndex? {
      GetRestAlone(s3);
    }
  }

  /** Loading tail and the byte there changes nothing the queue depends on. */
  lemma GetLoads(s: State) returns (t: State)
    requires Inv(s) && s.consumer.GetIndex?
    ensures t == ConsumerStep(ConsumerStep(s)) && Inv(t)
    ensures t == s.(consumer := GetTail(s.buffer[s.tail]))
  {
    ConsumerStepKeepsInv(s);
    t := ConsumerStep(ConsumerStep(s));
    ConsumerStepKeepsInv(ConsumerStep(s));
  }

  /** Advancing tail takes the byte that was loaded. */
  lemma GetReleases(s: State) returns (t: State)
    requires Inv(s) && s.consumer.GetTail?
    ensures t == ConsumerStep(ConsumerStep(s)) && Inv(t)
    ensures t.consumer == Got(s.consumer.c) && t.accepted == s.accepted && t.taken == s.taken + [s.consumer.c]
  {
    ConsumerStepKeepsInv(s);
    t := ConsumerStep(ConsumerStep(s));
    ConsumerStepKeepsInv(ConsumerStep(s));
  }

  lemma GetRestAlone(s: State)
    requires Inv(s) && s.consumer.GetIndex?
    ensures var t := ConsumerStep(ConsumerStep(ConsumerStep(ConsumerStep(s))));
            t.consumer.Got? && Queued(s.buffer, s.head, s.tail) == [t.consumer.c] + Queued(t.buffer, t.head, t.tail)
  {
    var loaded := GetLoads(s);
    var t := GetReleases(loaded);
    TakenOne(s, t, t.consumer.c);
  }

  lemma TakenOne(s: State, t: State, c: byte)
    requires Shared(s) && Shared(t) && t.accepted == s.accepted && t.taken == s.taken + [c]
    ensures Queued(s.buffer, s.head, s.tail) == [c] + Queued(t.buffer, t.head, t.tail)
  {
    assert t.accepted[|s.taken|] == t.taken[|s.taken|] == c;
    QueueIsUnread(s);
    QueueIsUnread(t);
  }
}
