/**
 Row indices of the LLDP tables: rte/src/net/mib/rowindex.c.

 A Stack value holds the answers the callbacks of struct rte_snmp_cfg give
 during one request. Nothing links the stacks of two requests: neighbours come,
 go and change their time stamps between them. A request asks each callback at
 most once for each port, so a stack also covers neighbours that change while
 the request runs.
 */
module RowIndex {
  import opened Types
  import opened Oids

  /** A local port number; 0 ends the iteration over the ports. */
  type Port = p: int | 0 < p < 0x8000_0000 witness 1

  /** The bytes in use of a management address: its len is at most 32. */
  type AddressBytes = v: seq<byte> | |v| <= 32

  /** The bytes in use of a text field of at most 256 bytes. */
  type Text = t: seq<byte> | |t| <= 256

  datatype Address = Address(subtype: byte, value: AddressBytes)

  datatype Name = Name(text: Text, subtype: byte)

  datatype InterfaceNumber = InterfaceNumber(value: s32, subtype: byte)

  datatype Delays = Delays(tx: u32, rx: u32, line: u32)

  datatype Link = Link(supported: s32, enabled: s32, cap0: byte, cap1: byte, mau: s32)

  /** What the peer callbacks answer for one port; None stands for the error -1. */
  datatype Peer = Peer(timestamp: Option<u32>, address: Option<Address>,
                       chassis: Option<Name>, portId: Option<Name>, portDescription: Option<Text>,
                       portIndex: Option<InterfaceNumber>, delays: Option<Delays>,
                       station: Option<Text>, link: Option<Link>)

  const SILENT := Peer(None, None, None, None, None, None, None, None, None)

  datatype Stack = Stack(ports: seq<Port>, peers: map<Port, Peer>, local: Address)
  {
    function At(port: Port): Peer {
      if port in peers then peers[port] else SILENT
    }
  }

  /** The three tables whose rows are found by iterating over the ports. */
  datatype Kind = LocalPort | RemoteDevice | RemoteInterface

  /** The row index of a port, if its neighbour answers. */
  function RowOf(kind: Kind, stack: Stack, port: Port): Option<Oid> {
    var peer := stack.At(port);
    match kind
    case LocalPort => Some([port])
    case RemoteDevice =>
      if peer.timestamp.None? then None
      else Some([peer.timestamp.value, port, port])
    case RemoteInterface =>
      if peer.timestamp.None? || peer.address.None? then None
      else Some([peer.timestamp.value, port, port, peer.address.value.subtype] + peer.address.value.value)
  }

  /** All rows of a table. */
  ghost function Rows(kind: Kind, stack: Stack): set<Oid> {
    set p | p in stack.ports && RowOf(kind, stack, p).Some? :: RowOf(kind, stack, p).value
  }

  function LocalInterfaceRow(stack: Stack): Oid {
    [stack.local.subtype] + stack.local.value
  }

  /** An index names its port, whatever the neighbours answered when it was
      built and however long the address at its end. */
  lemma RowNamesPort(kind: Kind, s: Stack, p: Port, t: Stack, q: Port)
    requires RowOf(kind, s, p).Some? && RowOf(kind, s, p) == RowOf(kind, t, q)
    ensures p == q
  {
    var r := RowOf(kind, s, p).value;
    if kind.LocalPort? {
      assert r[0] == p && r[0] == q;
    } else {
      assert r[1] == p && r[1] == q;
    }
  }

  /** What the elements of an index are: elements 1 and 2 of a remote index are
      both the port. */
  lemma RowParts(kind: Kind, s: Stack, p: Port, r: Oid)
    requires RowOf(kind, s, p) == Some(r)
    ensures kind.LocalPort? ==> r == [p]
    ensures !kind.LocalPort? ==> |r| >= 3 && s.At(p).timestamp == Some(r[0]) && r[1] == p && r[2] == p
    ensures kind.RemoteDevice? ==> |r| == 3
    ensures kind.RemoteInterface? ==>
              s.At(p).address.Some? && |r| == 4 + |s.At(p).address.value.value| &&
              r[3] == s.At(p).address.value.subtype && r[4..] == s.At(p).address.value.value
  {
  }

  /** A port has a row exactly when its neighbour gave what the index needs. */
  lemma RowExistsIff(kind: Kind, s: Stack, p: Port)
    ensures RowOf(kind, s, p).Some? <==>
            kind.LocalPort? ||
            (s.At(p).timestamp.Some? && (kind.RemoteInterface? ==> s.At(p).address.Some?))
  {
  }

  /** An index determines everything it was built from. */
  lemma RowDetermines(kind: Kind, s: Stack, p: Port, t: Stack, q: Port)
    requires RowOf(kind, s, p).Some? && RowOf(kind, s, p) == RowOf(kind, t, q)
    ensures p == q
    ensures !kind.LocalPort? ==> s.At(p).timestamp == t.At(q).timestamp
    ensures kind.RemoteInterface? ==> s.At(p).address == t.At(q).address
  {
    var r := RowOf(kind, s, p).value;
    RowParts(kind, s, p, r);
    RowParts(kind, t, q, r);
  }

  /** The one index of the local interface table: a subtype and an address. */
  lemma LocalRowParts(stack: Stack)
    ensures var r := LocalInterfaceRow(stack);
            |r| == 1 + |stack.local.value| && r[0] == stack.local.subtype && r[1..] == stack.local.value
  {
  }

  // ----- building an index in place

  method ConstructForLocalPort(row: ObjId, port: Port)
    requires row.Valid()
    modifies row, row.id
    ensures row.Valid() && row.Value() == [port]
  {
    row.id[0] := port;
    row.len := 1;
  }

  method ConstructForLocalInterface(row: ObjId, stack: Stack)
    requires row.Valid()
    modifies row, row.id
    ensures row.Valid() && row.Value() == LocalInterfaceRow(stack)
  {
    var address := stack.local;
    row.id[0] := address.subtype;
    var i := 0;
    while i < |address.value|
      invariant i <= |address.value|
      invariant row.id[0] == address.subtype
      invariant row.id[1..1 + i] == address.value[..i]
    {
      row.id[1 + i] := address.value[i];
      i := i + 1;
    }
    row.len := 1 + |address.value|;
    assert row.id[..row.len] == [row.id[0]] + row.id[1..1 + i];
  }

  method ConstructForRemoteDevice(row: ObjId, stack: Stack, port: Port) returns (error: int)
    requires row.Valid()
    modifies row, row.id
    ensures row.Valid()
    ensures error != 0 <==> RowOf(RemoteDevice, stack, port).None?
    ensures error == 0 ==> RowOf(RemoteDevice, stack, port) == Some(row.Value())
  {
    var timestamp := stack.At(port).timestamp;
    if timestamp.None? {
      return -1;
    }
    row.id[0] := timestamp.value;
    row.id[1] := port;
    row.id[2] := port;
    row.len := 3;
    assert row.id[..3] == [timestamp.value, port, port];
    error := 0;
  }

  method ConstructForRemoteInterface(row: ObjId, stack: Stack, port: Port) returns (error: int)
    requires row.Valid()
    modifies row, row.id
    ensures row.Valid()
    ensures error != 0 <==> RowOf(RemoteInterface, stack, port).None?
    ensures error == 0 ==> RowOf(RemoteInterface, stack, port) == Some(row.Value())
  {
    var timestamp := stack.At(port).timestamp;
    if timestamp.None? {
      return -1;
    }
    var found := stack.At(port).address;
    if found.None? {
      return -1;
    }
    var address := found.value;
    row.id[0] := timestamp.value;
    row.id[1] := port;
    row.id[2] := port;
    row.id[3] := address.subtype;
    var i := 0;
    while i < |address.value|
      invariant i <= |address.value|
      invariant row.id[..4] == [timestamp.value, port, port, address.subtype]
      invariant row.id[4..4 + i] == address.value[..i]
    {
      row.id[4 + i] := address.value[i];
      i := i + 1;
    }
    row.len := 4 + |address.value|;
    assert row.id[..row.len] == row.id[..4] + row.id[4..4 + i];
    assert address.value[..i] == address.value;
    error := 0;
  }

  method Construct(kind: Kind, row: ObjId, stack: Stack, port: Port) returns (error: int)
    requires row.Valid()
    modifies row, row.id
    ensures row.Valid()
    ensures error != 0 <==> RowOf(kind, stack, port).None?
    ensures error == 0 ==> RowOf(kind, stack, port) == Some(row.Value())
  {
    match kind
    case LocalPort =>
      ConstructForLocalPort(row, port);
      error := 0;
    case RemoteDevice =>
      error := ConstructForRemoteDevice(row, stack, port);
    case RemoteInterface =>
      error := ConstructForRemoteInterface(row, stack, port);
  }

  // ----- iterating over the ports

  /** rte_snmp_get_next_port; cursor is the void pointer the caller keeps. */
  method NextPort(ports: seq<Port>, cursor: nat) returns (port: int, after: nat)
    requires cursor <= |ports|
    ensures if cursor < |ports| then port == ports[cursor] && after == cursor + 1
            else port == 0 && after == cursor
  {
    if cursor < |ports| {
      port, after := ports[cursor], cursor + 1;
    } else {
      port, after := 0, cursor;
    }
  }

  /** The candidates the first n ports offer. */
  ghost function Offers(kind: Kind, stack: Stack, n: nat): seq<Candidate>
    requires n <= |stack.ports|
  {
    if n == 0 then []
    else
      var p := stack.ports[n - 1];
      var row := RowOf(kind, stack, p);
      Offers(kind, stack, n - 1) + if row.Some? then [Candidate(row.value, p)] else []
  }

  lemma {:induction false} OffersAreRows(kind: Kind, stack: Stack, n: nat, c: Candidate)
    requires n <= |stack.ports|
    ensures c in Offers(kind, stack, n) <==>
            exists i: nat :: i < n && c.reference == stack.ports[i] && RowOf(kind, stack, stack.ports[i]) == Some(c.oid)
  {
    if n > 0 {
      OffersAreRows(kind, stack, n - 1, c);
      assert c in Offers(kind, stack, n) <==>
             (c in Offers(kind, stack, n - 1) ||
              (c.reference == stack.ports[n - 1] && RowOf(kind, stack, stack.ports[n - 1]) == Some(c.oid)));
    }
  }

  /** rowindex_match_with_*: the port whose index is the given one, or 0. */
  method Match(kind: Kind, stack: Stack, rowOid: Oid) returns (port: int)
    ensures port == 0 ==> rowOid !in Rows(kind, stack)
    ensures port != 0 ==> port in stack.ports && RowOf(kind, stack, port) == Some(rowOid)
  {
    var portOid := new ObjId(MAX_ROW_LEN);
    var cursor;
    port, cursor := NextPort(stack.ports, 0);
    ghost var n := 0;
    while port != 0
      invariant n <= |stack.ports|
      invariant if n < |stack.ports| then port == stack.ports[n] && cursor == n + 1 else port == 0 && cursor == n
      invariant portOid.Valid() && fresh(portOid) && fresh(portOid.id)
      invariant forall i :: 0 <= i < n ==> RowOf(kind, stack, stack.ports[i]) != Some(rowOid)
      decreases |stack.ports| - n
    {
      var error := Construct(kind, portOid, stack, port);
      if error == 0 {
        var c := Compare(rowOid, portOid.id[..portOid.len]);
        if c == 0 {
          return port;
        }
      }
      n := n + 1;
      port, cursor := NextPort(stack.ports, cursor);
    }
  }

  /** One turn of the loops in rowindex_update_with_next_*. */
  method Offer(kind: Kind, stack: Stack, port: Port, portOid: ObjId, state: NextOidState, ghost offered: seq<Candidate>)
    requires portOid.Valid() && state.Valid() && portOid.id != state.next
    requires state.status != BufTooSmall && MAX_ROW_LEN <= state.next.Length
    requires IsBest(offered, state.start, state.Best())
    modifies portOid, portOid.id, state, state.next
    ensures portOid.Valid() && state.Valid() && state.status != BufTooSmall
    ensures var row := RowOf(kind, stack, port);
            IsBest(offered + if row.Some? then [Candidate(row.value, port)] else [], state.start, state.Best())
  {
    var error := Construct(kind, portOid, stack, port);
    if error == 0 {
      NearerKeepsBest(offered, state.start, state.Best(), Candidate(portOid.Value(), port));
      state.Check(portOid.id[..portOid.len], port);
    }
  }

  /** The scan of rowindex_update_with_next_*, in whatever order the ports come. */
  method Scan(kind: Kind, stack: Stack, start: Oid, capacity: nat) returns (state: NextOidState)
    requires MAX_ROW_LEN <= capacity
    ensures fresh(state) && fresh(state.next)
    ensures state.Valid() && state.status != BufTooSmall && state.start == start && state.next.Length == capacity
    ensures IsBest(Offers(kind, stack, |stack.ports|), start, state.Best())
  {
    state := new NextOidState(start, capacity);
    var portOid := new ObjId(MAX_ROW_LEN);
    var port, cursor := NextPort(stack.ports, 0);
    ghost var n := 0;
    while port != 0
      invariant n <= |stack.ports|
      invariant if n < |stack.ports| then port == stack.ports[n] && cursor == n + 1 else port == 0 && cursor == n
      invariant fresh(portOid) && fresh(portOid.id) && portOid.Valid()
      invariant portOid.id != state.next && state.Valid() && state.status != BufTooSmall
      invariant IsBest(Offers(kind, stack, n), start, state.Best())
      decreases |stack.ports| - n
    {
      Offer(kind, stack, port, portOid, state, Offers(kind, stack, n));
      n := n + 1;
      port, cursor := NextPort(stack.ports, cursor);
    }
  }

  /** rowindex_update_with_next_*: moves row to the least index above it. */
  method UpdateWithNext(kind: Kind, stack: Stack, row: ObjId) returns (port: int)
    requires row.Valid()
    modifies row, row.id
    ensures row.Valid()
    ensures port == 0 ==> row.Value() == old(row.Value()) && NoneAbove(Rows(kind, stack), row.Value())
    ensures port != 0 ==> port in stack.ports && RowOf(kind, stack, port) == Some(row.Value()) &&
                          IsSuccessor(Rows(kind, stack), old(row.Value()), row.Value())
  {
    var state := Scan(kind, stack, row.id[..row.len], row.id.Length);
    BestIsSuccessor(kind, stack, state.start, state.Best());
    if state.status == Success {
      row.Assign(state.next[..state.nextLen]);
      port := state.reference;
    } else {
      port := 0;
    }
  }

  lemma BestIsSuccessor(kind: Kind, stack: Stack, start: Oid, best: Option<Candidate>)
    requires IsBest(Offers(kind, stack, |stack.ports|), start, best)
    ensures best.None? ==> NoneAbove(Rows(kind, stack), start)
    ensures best.Some? ==> IsSuccessor(Rows(kind, stack), start, best.value.oid) &&
                           best.value.reference in stack.ports &&
                           RowOf(kind, stack, best.value.reference) == Some(best.value.oid)
  {
    var offers := Offers(kind, stack, |stack.ports|);
    if best.Some? {
      OffersAreRows(kind, stack, |stack.ports|, best.value);
    }
    forall q | q in Rows(kind, stack) && Less(start, q)
      ensures best.Some? && AtMost(best.value.oid, q)
    {
      var i :| 0 <= i < |stack.ports| && RowOf(kind, stack, stack.ports[i]) == Some(q);
      OffersAreRows(kind, stack, |stack.ports|, Candidate(q, stack.ports[i]));
      assert Candidate(q, stack.ports[i]) in offers;
    }
  }

  /** rowindex_match_with_local_interface */
  method MatchLocalInterface(stack: Stack, rowOid: Oid) returns (found: int)
    ensures found == if rowOid == LocalInterfaceRow(stack) then 1 else 0
  {
    var interfaceOid := new ObjId(MAX_ROW_LEN);
    ConstructForLocalInterface(interfaceOid, stack);
    var c := Compare(rowOid, interfaceOid.id[..interfaceOid.len]);
    found := if c == 0 then 1 else 0;
  }

  /** rowindex_update_with_next_local_interface: the table has this one row. */
  method UpdateWithNextLocalInterface(stack: Stack, row: ObjId) returns (found: int)
    requires row.Valid()
    modifies row, row.id
    ensures row.Valid()
    ensures found == 0 ==> row.Value() == old(row.Value()) && NoneAbove({LocalInterfaceRow(stack)}, row.Value())
    ensures found != 0 ==> found == 1 && IsSuccessor({LocalInterfaceRow(stack)}, old(row.Value()), row.Value())
  {
    var state := new NextOidState(row.id[..row.len], row.id.Length);
    var interfaceOid := new ObjId(MAX_ROW_LEN);
    ConstructForLocalInterface(interfaceOid, stack);
    state.Check(interfaceOid.id[..interfaceOid.len], 0);
    if state.status == Success {
      row.Assign(state.next[..state.nextLen]);
      found := 1;
    } else {
      found := 0;
    }
  }
}
