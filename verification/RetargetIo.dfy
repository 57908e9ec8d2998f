/**
 The two ends of the serial buffer: src/shell/retarget_io.c.
 */
module RetargetIo {
  import opened Types
  import opened RingBuffer

  const SERIAL_BUFFER_SIZE: u32 := 128
  const RX_BUF_SZ: nat := 64

  /** What _read makes of a byte: CR becomes a newline. */
  function Cook(c: byte): byte {
    if c == CR then LF else c
  }

  function Cooked(s: seq<byte>): (t: seq<byte>)
    ensures |t| == |s| && forall i :: 0 <= i < |s| ==> t[i] == Cook(s[i])
  {
    seq(|s|, i requires 0 <= i < |s| => Cook(s[i]))
  }

  lemma CookedConcat(s: seq<byte>, t: seq<byte>)
    ensures Cooked(s + t) == Cooked(s) + Cooked(t)
  {
  }

  /** How much of a batch a ring with the given contents takes. */
  function Room(contents: seq<byte>, len: u32, batch: nat): nat
    requires |contents| < len
  {
    if batch <= len - 1 - |contents| then batch else len - 1 - |contents|
  }

  /** UART_Isr: success and received are what cyhal_uart_read delivers. A batch
      is taken up to the free space, and its rest is dropped. */
  method UartIsr(ring: Ring, success: bool, received: seq<byte>)
    requires ring.Valid() && |received| <= RX_BUF_SZ
    modifies ring`head, ring.buffer
    ensures ring.Valid()
    ensures ring.Contents() ==
            if success then old(ring.Contents()) + received[..Room(old(ring.Contents()), ring.len, |received|)]
            else old(ring.Contents())
  {
    ghost var was := ring.Contents();
    if success && |received| > 0 {
      var i := 0;
      while i < |received|
        invariant i <= |received| && ring.Valid()
        invariant ring.Contents() == was + received[..Room(was, ring.len, i)]
      {
        RoomGrows(was, received, ring.len, i);
        var result := ring.Put(received[i]);
        i := i + 1;
      }
    }
  }

  /** One more byte of a batch is taken exactly when the ring is not yet full. */
  lemma RoomGrows(was: seq<byte>, received: seq<byte>, len: u32, i: nat)
    requires |was| < len && i < |received|
    ensures var now := was + received[..Room(was, len, i)];
            was + received[..Room(was, len, i + 1)] == if |now| == len - 1 then now else now + [received[i]]
  {
    if Room(was, len, i) == i {
      assert received[..i + 1] == received[..i] + [received[i]];
      assert was + (received[..i] + [received[i]]) == was + received[..i] + [received[i]];
    }
  }

  /** How many bytes one _read takes from a queue. */
  function ReadLen(queue: seq<byte>, count: nat): (n: nat)
    ensures n <= count && n <= |queue|
  {
    if queue == [] || count == 0 then 0
    else if queue[0] == CR then 1
    else 1 + ReadLen(queue[1..], count - 1)
  }

  /** A read of n bytes does not go on past a CR and does not stop early. */
  ghost predicate StopsAt(queue: seq<byte>, count: nat, n: nat)
    requires n <= |queue|
  {
    (forall i :: 0 <= i < n - 1 ==> queue[i] != CR) &&
    (n == count || n == |queue| || (n > 0 && queue[n - 1] == CR))
  }

  /** ReadLen is the one length within count and queue at which a read stops. */
  lemma {:induction false} ReadLenIs(queue: seq<byte>, count: nat, n: nat)
    requires n <= count && n <= |queue|
    ensures n == ReadLen(queue, count) <==> StopsAt(queue, count, n)
  {
    if queue != [] && count > 0 {
      if n == 0 || queue[0] == CR {
        assert n > 1 ==> queue[0] == CR;
      } else {
        ReadLenIs(queue[1..], count - 1, n - 1);
        assert forall i :: 0 <= i < n - 2 ==> queue[1..][i] == queue[i + 1];
        assert forall i :: 1 <= i < n - 1 ==> queue[i] == queue[1..][i - 1];
      }
    }
  }

  lemma CookedFront(now: seq<byte>, kept: seq<byte>, queue: seq<byte>, n: nat)
    requires n <= |now| == |kept| && n <= |queue|
    requires forall i :: 0 <= i < n ==> now[i] == Cook(queue[i])
    requires forall i :: n <= i < |now| ==> now[i] == kept[i]
    ensures now[..n] == Cooked(queue[..n]) && now[n..] == kept[n..]
  {
  }

  /** ring_buffer_get, when n bytes of the queue have been taken. */
  method GetNext(ring: Ring, ghost queue: seq<byte>, n: nat) returns (result: int, c: byte)
    requires ring.Valid() && n <= |queue| && ring.Contents() == queue[n..]
    modifies ring`tail
    ensures ring.Valid()
    ensures if result == EMPTY_ERROR then n == |queue| && ring.Contents() == []
            else n < |queue| && c == queue[n] && ring.Contents() == queue[n + 1..]
  {
    result, c := ring.Get();
    if result != EMPTY_ERROR {
      FrontOf(queue, n, c, ring.Contents());
    }
  }

  /** _read: stops when the ring is empty, after count bytes, or after a CR. */
  method Read(ring: Ring, buf: array<byte>, count: nat) returns (n: nat)
    requires ring.Valid() && count <= buf.Length && buf != ring.buffer
    modifies ring`tail, buf
    ensures ring.Valid()
    ensures n <= count && n <= |old(ring.Contents())|
    ensures forall i :: 0 <= i < n - 1 ==> old(ring.Contents())[i] != 0x0D
    ensures n == count || n == |old(ring.Contents())| || (n > 0 && old(ring.Contents())[n - 1] == 0x0D)
    ensures ring.Contents() == old(ring.Contents())[n..]
    ensures buf[..n] == Cooked(old(ring.Contents())[..n])
    ensures forall i :: 0 <= i < n ==>
              buf[i] == if old(ring.Contents())[i] == 0x0D then 0x0A else old(ring.Contents())[i]
    ensures buf[n..] == old(buf[n..])
  {
    ghost var was, kept := ring.Contents(), buf[..];
    n := 0;
    while n < count
      invariant n <= count && n <= |was| && ring.Valid()
      invariant ring.Contents() == was[n..]
      invariant forall i :: 0 <= i < n ==> buf[i] == Cook(was[i]) && was[i] != CR
      invariant forall i :: n <= i < buf.Length ==> buf[i] == kept[i]
    {
      var result, c := GetNext(ring, was, n);
      if result == EMPTY_ERROR {
        break;
      }
      buf[n] := c;
      n := n + 1;
      if c == CR {
        buf[n - 1] := LF;
        break;
      }
    }
    CookedFront(buf[..], kept, was, n);
  }

  // ----- sessions

  datatype Event = Interrupt(success: bool, received: seq<byte>) | Call(count: nat)

  /** What has come of the bytes so far: those waiting in the ring, those taken
      into it, those returned by _read, and those dropped. */
  datatype Traffic = Traffic(queue: seq<byte>, accepted: seq<byte>, delivered: seq<byte>, dropped: seq<byte>)

  /** What one event does: a batch is accepted as far as there is room, and a
      call delivers what one _read takes. */
  function NextTraffic(t: Traffic, e: Event): (u: Traffic)
    requires |t.queue| < SERIAL_BUFFER_SIZE
    ensures |u.queue| < SERIAL_BUFFER_SIZE
  {
    match e
    case Interrupt(success, batch) =>
      if !success then t
      else
        var room := Room(t.queue, SERIAL_BUFFER_SIZE, |batch|);
        Traffic(t.queue + batch[..room], t.accepted + batch[..room], t.delivered, t.dropped + batch[room..])
    case Call(count) =>
      var n := ReadLen(t.queue, count);
      t.(queue := t.queue[n..], delivered := t.delivered + Cooked(t.queue[..n]))
  }

  /** After some events, from an empty buffer. */
  function TrafficAfter(events: seq<Event>): (t: Traffic)
    ensures |t.queue| < SERIAL_BUFFER_SIZE
  {
    if events == [] then Traffic([], [], [], [])
    else NextTraffic(TrafficAfter(events[..|events| - 1]), events[|events| - 1])
  }

  /** The bytes the interrupts received, in order. */
  function Received(events: seq<Event>): seq<byte> {
    if events == [] then []
    else
      var last := events[|events| - 1];
      Received(events[..|events| - 1]) + if last.Interrupt? && last.success then last.received else []
  }

  /** The delivered bytes are the accepted ones, in order, with 0x0A for 0x0D;
      those still to be delivered wait in the queue; the others were dropped. */
  ghost predicate Conserved(t: Traffic, received: seq<byte>) {
    |t.delivered| <= |t.accepted| && t.queue == t.accepted[|t.delivered|..] && |t.queue| <= 127 &&
    (forall i :: 0 <= i < |t.delivered| ==>
       t.delivered[i] == if t.accepted[i] == 0x0D then 0x0A else t.accepted[i]) &&
    multiset(received) == multiset(t.accepted) + multiset(t.dropped) &&
    (t.dropped == [] ==> t.accepted == received)
  }

  /** A read from the UART that failed changes nothing. A batch that was read
      loses bytes exactly when it would leave more than 127 in the ring. */
  lemma DropsIffNoRoom(t: Traffic, batch: seq<byte>)
    requires |t.queue| <= 127
    ensures NextTraffic(t, Interrupt(false, batch)) == t
    ensures NextTraffic(t, Interrupt(true, batch)).dropped == t.dropped <==> |t.queue| + |batch| <= 127
  {
    var u := NextTraffic(t, Interrupt(true, batch));
    assert |u.dropped| == |t.dropped| + |batch| - Room(t.queue, SERIAL_BUFFER_SIZE, |batch|);
  }

  lemma BatchConserves(t: Traffic, batch: seq<byte>, received: seq<byte>)
    requires Conserved(t, received)
    ensures Conserved(NextTraffic(t, Interrupt(true, batch)), received + batch)
  {
    var room := Room(t.queue, SERIAL_BUFFER_SIZE, |batch|);
    assert batch == batch[..room] + batch[room..];
  }

  lemma CallConserves(t: Traffic, count: nat, received: seq<byte>)
    requires Conserved(t, received)
    ensures Conserved(NextTraffic(t, Call(count)), received)
  {
  }

  lemma NextConserves(t: Traffic, e: Event, received: seq<byte>)
    requires Conserved(t, received)
    ensures Conserved(NextTraffic(t, e), received + if e.Interrupt? && e.success then e.received else [])
  {
    assert received + [] == received;
    match e
    case Interrupt(success, batch) =>
      if success {
        BatchConserves(t, batch, received);
      }
    case Call(count) =>
      CallConserves(t, count, received);
  }

  /** Over any interrupts and reads, every byte received was dropped or accepted;
      what was delivered, followed by what is queued, is the accepted stream with
      0x0A delivered for 0x0D. If none was dropped, every byte was accepted, in
      order. */
  lemma {:induction false} TrafficIsConserved(events: seq<Event>)
    ensures Conserved(TrafficAfter(events), Received(events))
  {
    if events != [] {
      TrafficIsConserved(events[..|events| - 1]);
      NextConserves(TrafficAfter(events[..|events| - 1]), events[|events| - 1], Received(events[..|events| - 1]));
    }
  }

  lemma CookedStream(t: Traffic, received: seq<byte>)
    requires Conserved(t, received)
    ensures t.delivered + Cooked(t.queue) == Cooked(t.accepted)
  {
  }

  lemma TrafficGrows(events: seq<Event>, e: Event)
    ensures TrafficAfter(events + [e]) == NextTraffic(TrafficAfter(events), e)
  {
    assert (events + [e])[..|events|] == events;
  }

  /** One event on the real ring, and the bytes it delivers. */
  method Serve(ring: Ring, e: Event, ghost t: Traffic) returns (bytes: seq<byte>)
    requires ring.Valid() && ring.len == SERIAL_BUFFER_SIZE && ring.Contents() == t.queue
    requires e.Interrupt? ==> |e.received| <= RX_BUF_SZ
    modifies ring`head, ring`tail, ring.buffer
    ensures ring.Valid() && |t.queue| < SERIAL_BUFFER_SIZE
    ensures ring.Contents() == NextTraffic(t, e).queue
    ensures t.delivered + bytes == NextTraffic(t, e).delivered
  {
    bytes := [];
    match e
    case Interrupt(success, received) =>
      UartIsr(ring, success, received);
    case Call(count) =>
      var buf := new byte[count];
      var n := Read(ring, buf, count);
      ReadLenIs(t.queue, count, n);
      bytes := buf[..n];
  }

  /** Serving any sequence of interrupts and _read calls from an empty buffer. */
  method Session(events: seq<Event>) returns (delivered: seq<byte>, ring: Ring)
    requires forall e :: e in events && e.Interrupt? ==> |e.received| <= RX_BUF_SZ
    ensures ring.Valid()
    ensures delivered == TrafficAfter(events).delivered && ring.Contents() == TrafficAfter(events).queue
    ensures delivered + Cooked(ring.Contents()) == Cooked(TrafficAfter(events).accepted)
  {
    ring := new Ring(SERIAL_BUFFER_SIZE);
    delivered := [];
    ghost var t := TrafficAfter([]);
    var k := 0;
    while k < |events|
      invariant k <= |events|
      invariant ring.Valid() && fresh(ring) && fresh(ring.buffer) && ring.len == SERIAL_BUFFER_SIZE
      invariant t == TrafficAfter(events[..k]) && delivered == t.delivered && ring.Contents() == t.queue
    {
      TrafficGrows(events[..k], events[k]);
      assert events[..k + 1] == events[..k] + [events[k]];
      var bytes := Serve(ring, events[k], t);
      t := NextTraffic(t, events[k]);
      delivered := delivered + bytes;
      k := k + 1;
    }
    assert events[..k] == events;
    TrafficIsConserved(events);
    CookedStream(TrafficAfter(events), Received(events));
  }
}
