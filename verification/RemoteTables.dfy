/**
 The remote LLDP tables: lldpRemTable and lldpRemManAddrTable (lldp-mib.c),
 lldpXPnoRemTable (lldp-ext-pno-mib.c) and lldpXdot3RemPortTable
 (lldp-ext-dot3-mib.c). All four read a cell while they locate it, park it in
 the one response buffer of the server and copy it out afterwards.
 */
module RemoteTables {
  import opened Types
  import opened Oids
  import opened RowIndex
  import opened Walks

  datatype Table = Rem | RemManAddr | PnoRem | Dot3Rem

  function KindOf(table: Table): Kind {
    if table == RemManAddr then RemoteInterface else RemoteDevice
  }

  /** A 32-bit value as the four bytes it has in memory, least significant first. */
  function Encode32(x: int): seq<byte> {
    var u := Wrap(x);
    [u % 0x100, u / 0x100 % 0x100, u / 0x1_0000 % 0x100, u / 0x100_0000]
  }

  function Decode32(b: seq<byte>): u32
    requires |b| == 4
  {
    var b0: int, b1: int, b2: int, b3: int := b[0], b[1], b[2], b[3];
    b0 + 0x100 * b1 + 0x1_0000 * b2 + 0x100_0000 * b3
  }

  /** The signed value with the same 32 bits. */
  function Signed(u: u32): s32 {
    if u < 0x8000_0000 then u else u - TWO32
  }

  lemma DecodeEncode(x: int)
    ensures Decode32(Encode32(x)) == Wrap(x)
  {
    var u := Wrap(x);
    assert u == u % 0x100 + 0x100 * (u / 0x100);
    assert u / 0x100 == u / 0x100 % 0x100 + 0x100 * (u / 0x1_0000);
    assert u / 0x1_0000 == u / 0x1_0000 % 0x100 + 0x100 * (u / 0x100_0000);
  }

  /** What was stored through either 32-bit member of the union is read back,
      as an unsigned and as a signed value. */
  lemma Encode32RoundTrip(x: int)
    requires -0x8000_0000 <= x < TWO32
    ensures 0 <= x ==> Decode32(Encode32(x)) == x
    ensures x < 0x8000_0000 ==> Signed(Decode32(Encode32(x))) == x
    ensures var b0: int, b1: int, b2: int, b3: int := Encode32(x)[0], Encode32(x)[1], Encode32(x)[2], Encode32(x)[3];
            b0 + 256 * b1 + 65536 * b2 + 16777216 * b3 == if x < 0 then x + TWO32 else x
  {
    DecodeEncode(x);
  }

  /** The bytes of one cell, or None when there is no value to return. */
  function Cell(table: Table, column: u32, peer: Peer): Option<seq<byte>> {
    match table
    case Rem =>
      if (column == 4 || column == 5) && peer.chassis.Some? then
        Some(if column == 4 then Encode32(peer.chassis.value.subtype) else peer.chassis.value.text)
      else if (column == 6 || column == 7) && peer.portId.Some? then
        Some(if column == 6 then Encode32(peer.portId.value.subtype) else peer.portId.value.text)
      else if column == 8 && peer.portDescription.Some? then Some(peer.portDescription.value)
      else None
    case RemManAddr =>
      if (column == 3 || column == 4) && peer.portIndex.Some? then
        Some(Encode32(if column == 3 then peer.portIndex.value.subtype else peer.portIndex.value.value))
      else None
    case PnoRem =>
      if 1 <= column <= 3 && peer.delays.Some? then
        var d := peer.delays.value;
        Some(Encode32(if column == 1 then d.line else if column == 2 then d.tx else d.rx))
      else if column == 6 && peer.station.Some? then Some(peer.station.value)
      else None
    case Dot3Rem =>
      if 1 <= column <= 4 && peer.link.Some? then
        var l := peer.link.value;
        Some(if column == 3 then [l.cap0, l.cap1]
             else Encode32(if column == 1 then l.supported else if column == 2 then l.enabled else l.mau))
      else None
  }

  /** The cell at a port; 0 stands for no port. */
  function CellAt(table: Table, column: u32, stack: Stack, port: int): Option<seq<byte>> {
    if 0 < port < 0x8000_0000 then Cell(table, column, stack.At(port)) else None
  }

  /** Where a GetNext request for a column, made at place, ended up. */
  ghost predicate Arrived(table: Table, column: u32, stack: Stack, place: Oid, port: int, stop: Oid, found: bool) {
    var rows := Rows(KindOf(table), stack);
    if port == 0 then NoneAbove(rows, place) && !found
    else 0 < port < 0x8000_0000 && port in stack.ports && RowOf(KindOf(table), stack, port) == Some(stop) &&
         IsSuccessor(rows, place, stop) && (found <==> Cell(table, column, stack.At(port)).Some?)
  }

  /** The row names a port whose cell in this column has a value. */
  ghost predicate Readable(table: Table, column: u32, stack: Stack, row: Oid) {
    exists p :: p in stack.ports && RowOf(KindOf(table), stack, p) == Some(row) &&
                Cell(table, column, stack.At(p)).Some?
  }

  /** The response buffer after a cell has been read into it: the bytes behind
      the cell stay, and a text that does not fit is not copied. */
  function Overlaid(before: seq<byte>, cell: Option<seq<byte>>): (after: seq<byte>)
    ensures |after| == |before|
  {
    if cell.None? || |before| < |cell.value| then before
    else cell.value + before[|cell.value|..]
  }

  /** struct snmp_node_instance: where the parked cell is and how long it is. */
  class CellInstance {
    var reference: array?<byte>
    var referenceLen: int

    constructor ()
    {
      reference := null;
      referenceLen := 0;
    }
  }

  /** The part of pnal_snmp_t the tables share: the response union, as bytes. */
  class Server {
    const response: array<byte>

    /** size is SNMP_MAX_VALUE_SIZE, set by lwIP's options. */
    constructor (size: nat)
      requires 4 <= size
      ensures response.Length == size && fresh(response)
    {
      response := new byte[size];
    }

    method StoreInt(x: int) returns (len: int)
      requires 4 <= response.Length
      modifies response
      ensures Parked(len, Some(Encode32(x)), old(response[..]))
    {
      var b := Encode32(x);
      response[0], response[1], response[2], response[3] := b[0], b[1], b[2], b[3];
      len := 4;
      assert response[..] == b + old(response[..])[4..];
    }

    /** The copy is skipped when the text does not fit; the length is not cut. */
    method StoreText(text: Text) returns (len: int)
      modifies response
      ensures Parked(len, Some(text), old(response[..]))
    {
      len := |text|;
      if len <= response.Length {
        var i := 0;
        while i < |text|
          invariant i <= |text|
          invariant forall k :: 0 <= k < i ==> response[k] == text[k]
          invariant forall k :: i <= k < response.Length ==> response[k] == old(response[k])
        {
          response[i] := text[i];
          i := i + 1;
        }
        assert response[..] == text + old(response[..])[|text|..];
      }
    }

    /** What reading a cell into the buffer leaves behind. */
    ghost predicate Parked(len: int, cell: Option<seq<byte>>, before: seq<byte>)
      reads response
    {
      len == (if cell.None? then -1 else |cell.value|) && response[..] == Overlaid(before, cell)
    }

    /** lldpremtable_get_value_from_remote_device */
    method ReadRem(peer: Peer, column: u32) returns (len: int)
      requires 4 <= response.Length
      modifies response
      ensures Parked(len, Cell(Rem, column, peer), old(response[..]))
    {
      if column == 4 || column == 5 {
        if peer.chassis.None? {
          return -1;
        }
        if column == 4 {
          len := StoreInt(peer.chassis.value.subtype);
        } else {
          len := StoreText(peer.chassis.value.text);
        }
      } else if column == 6 || column == 7 {
        if peer.portId.None? {
          return -1;
        }
        if column == 6 {
          len := StoreInt(peer.portId.value.subtype);
        } else {
          len := StoreText(peer.portId.value.text);
        }
      } else if column == 8 {
        if peer.portDescription.None? {
          return -1;
        }
        len := StoreText(peer.portDescription.value);
      } else {
        len := -1;
      }
    }

    /** lldpremmanaddrtable_get_value_from_remote_interface */
    method ReadRemManAddr(peer: Peer, column: u32) returns (len: int)
      requires 4 <= response.Length
      modifies response
      ensures Parked(len, Cell(RemManAddr, column, peer), old(response[..]))
    {
      if column == 3 || column == 4 {
        if peer.portIndex.None? {
          return -1;
        }
        if column == 3 {
          len := StoreInt(peer.portIndex.value.subtype);
        } else {
          len := StoreInt(peer.portIndex.value.value);
        }
      } else {
        len := -1;
      }
    }

    /** lldpxpnoremtable_get_value_from_remote_device */
    method ReadPnoRem(peer: Peer, column: u32) returns (len: int)
      requires 4 <= response.Length
      modifies response
      ensures Parked(len, Cell(PnoRem, column, peer), old(response[..]))
    {
      if 1 <= column <= 3 {
        if peer.delays.None? {
          return -1;
        }
        if column == 1 {
          len := StoreInt(peer.delays.value.line);
        } else if column == 2 {
          len := StoreInt(peer.delays.value.tx);
        } else {
          len := StoreInt(peer.delays.value.rx);
        }
      } else if column == 6 {
        if peer.station.None? {
          return -1;
        }
        len := StoreText(peer.station.value);
      } else {
        len := -1;
      }
    }

    /** lldpxdot3remporttable_get_value_from_remote_device */
    method ReadDot3Rem(peer: Peer, column: u32) returns (len: int)
      requires 4 <= response.Length
      modifies response
      ensures Parked(len, Cell(Dot3Rem, column, peer), old(response[..]))
    {
      if 1 <= column <= 4 {
        if peer.link.None? {
          return -1;
        }
        if column == 1 {
          len := StoreInt(peer.link.value.supported);
        } else if column == 2 {
          len := StoreInt(peer.link.value.enabled);
        } else if column == 3 {
          var link := peer.link.value;
          response[0], response[1] := link.cap0, link.cap1;
          len := 2;
          assert response[..] == [link.cap0, link.cap1] + old(response[..])[2..];
        } else {
          len := StoreInt(peer.link.value.mau);
        }
      } else {
        len := -1;
      }
    }

    method Read(table: Table, peer: Peer, column: u32) returns (len: int)
      requires 4 <= response.Length
      modifies response
      ensures Parked(len, Cell(table, column, peer), old(response[..]))
    {
      match table
      case Rem => len := ReadRem(peer, column);
      case RemManAddr => len := ReadRemManAddr(peer, column);
      case PnoRem => len := ReadPnoRem(peer, column);
      case Dot3Rem => len := ReadDot3Rem(peer, column);
    }

    /** The cell at a port is parked for the value call that follows. */
    ghost predicate Ready(cell: CellInstance, bytes: seq<byte>)
      reads cell, response
    {
      cell.reference == response && cell.referenceLen == |bytes| &&
      (|bytes| <= response.Length ==> response[..|bytes|] == bytes)
    }

    /** The get_instance callbacks of the remote tables. */
    method GetInstance(table: Table, column: u32, stack: Stack, rowOid: Oid, cell: CellInstance)
      returns (err: Err, ghost port: int)
      requires 4 <= response.Length
      modifies response, cell
      ensures port == 0 ==> rowOid !in Rows(KindOf(table), stack) && err == NoSuchInstance
      ensures port != 0 ==> port in stack.ports && RowOf(KindOf(table), stack, port) == Some(rowOid)
      ensures port != 0 ==>
                var value := Cell(table, column, stack.At(port));
                if value.None? then err == NoSuchInstance else err == NoError && Ready(cell, value.value)
      ensures response[..] == Overlaid(old(response[..]), CellAt(table, column, stack, port))
    {
      var p := Match(KindOf(table), stack, rowOid);
      port := p;
      if p == 0 {
        return NoSuchInstance, port;
      }
      var responseLen := Read(table, stack.At(p), column);
      if responseLen < 0 {
        return NoSuchInstance, port;
      }
      cell.reference := response;
      cell.referenceLen := responseLen;
      err := NoError;
    }

    /** The get_next_instance callbacks of the remote tables. The index moves
        on even when the cell it then names has no value. */
    method GetNextInstance(table: Table, column: u32, stack: Stack, row: ObjId, cell: CellInstance)
      returns (err: Err, ghost port: int)
      requires row.Valid() && 4 <= response.Length
      modifies response, cell, row, row.id
      ensures row.Valid()
      ensures Arrived(table, column, stack, old(row.Value()), port, row.Value(), err == NoError)
      ensures err == NoError ==> Ready(cell, Cell(table, column, stack.At(port)).value)
      ensures response[..] == Overlaid(old(response[..]), CellAt(table, column, stack, port))
    {
      var p := UpdateWithNext(KindOf(table), stack, row);
      port := p;
      if p == 0 {
        return NoSuchInstance, port;
      }
      var responseLen := Read(table, stack.At(p), column);
      if responseLen < 0 {
        return NoSuchInstance, port;
      }
      cell.reference := response;
      cell.referenceLen := responseLen;
      err := NoError;
    }
  }

  /** The get_value callbacks of the remote tables: copy out what is parked. */
  method GetValue(cell: CellInstance, value: array<byte>, maxSize: nat) returns (len: int)
    requires cell.reference != null && cell.reference != value && cell.referenceLen >= 0
    requires cell.reference.Length == maxSize <= value.Length
    modifies value
    ensures if cell.referenceLen > maxSize then len == -1 && value[..] == old(value[..])
            else len == cell.referenceLen && value[..len] == cell.reference[..len]
  {
    len := cell.referenceLen;
    if len > maxSize {
      return -1;
    }
    var i := 0;
    while i < len
      invariant 0 <= i <= len
      invariant value[..i] == cell.reference[..i]
    {
      value[i] := cell.reference[i];
      i := i + 1;
    }
  }

  // ----- requests

  datatype Request = Request(table: Table, column: u32, stack: Stack, oid: Oid, next: bool)

  datatype Reply = NoSuchName | GenErr | Value(oid: Oid, bytes: seq<byte>)

  function CellReply(maxSize: nat, oid: Oid, cell: Option<seq<byte>>): Reply {
    if cell.None? then NoSuchName
    else if maxSize < |cell.value| then GenErr
    else Value(oid, cell.value)
  }

  /** The port and index a request names: its own index for Get, the successor
      of that index for GetNext. */
  ghost predicate Names(req: Request, port: Port, oid: Oid) {
    var kind := KindOf(req.table);
    port in req.stack.ports && RowOf(kind, req.stack, port) == Some(oid) &&
    if req.next then IsSuccessor(Rows(kind, req.stack), req.oid, oid) else oid == req.oid
  }

  /** The right answer, from the request alone: no buffer and no earlier
      request takes part in it. */
  ghost predicate Answers(maxSize: nat, req: Request, reply: Reply) {
    if exists port, oid :: Names(req, port, oid) then
      exists port, oid :: Names(req, port, oid) &&
        reply == CellReply(maxSize, oid, Cell(req.table, req.column, req.stack.At(port)))
    else reply == NoSuchName
  }

  /** There is one right answer to a request. */
  lemma AnswerUnique(maxSize: nat, req: Request, a: Reply, b: Reply)
    requires Answers(maxSize, req, a) && Answers(maxSize, req, b)
    ensures a == b
  {
    if exists port, oid :: Names(req, port, oid) {
      var p, r :| Names(req, p, r) && a == CellReply(maxSize, r, Cell(req.table, req.column, req.stack.At(p)));
      var q, s :| Names(req, q, s) && b == CellReply(maxSize, s, Cell(req.table, req.column, req.stack.At(q)));
      var kind := KindOf(req.table);
      if req.next {
        SuccessorUnique(Rows(kind, req.stack), req.oid, r, s);
      }
      RowNamesPort(kind, req.stack, p, req.stack, q);
    }
  }

  lemma NamesARow(req: Request)
    ensures forall port, oid :: Names(req, port, oid) ==>
                                  oid in Rows(KindOf(req.table), req.stack) &&
                                  if req.next then Less(req.oid, oid) else oid == req.oid
  {
  }

  lemma UnnamedAnswer(req: Request)
    requires if req.next then NoneAbove(Rows(KindOf(req.table), req.stack), req.oid)
             else req.oid !in Rows(KindOf(req.table), req.stack)
    ensures !exists port, oid :: Names(req, port, oid)
  {
    NamesARow(req);
  }

  /** What a request asks for: the cell at the index it names, or None when
      there is no such cell or it has no value. */
  ghost predicate Asks(req: Request, oid: Oid, cell: Option<seq<byte>>) {
    if exists port, r :: Names(req, port, r) then
      exists port :: Names(req, port, oid) && cell == Cell(req.table, req.column, req.stack.At(port))
    else cell == None
  }

  lemma AskedAnswer(maxSize: nat, req: Request, oid: Oid, cell: Option<seq<byte>>)
    requires Asks(req, oid, cell)
    ensures Answers(maxSize, req, CellReply(maxSize, oid, cell))
  {
  }

  /** The instance call of a request, and the index it leaves behind. */
  method Locate(server: Server, req: Request, cell: CellInstance)
    returns (err: Err, oid: Oid, ghost asked: Option<seq<byte>>)
    requires 4 <= server.response.Length
    modifies server.response, cell
    ensures Asks(req, oid, asked)
    ensures if asked.None? then err == NoSuchInstance else err == NoError && server.Ready(cell, asked.value)
    ensures server.response[..] == Overlaid(old(server.response[..]), asked)
  {
    ghost var port;
    var row := new ObjId(MAX_ROW_LEN + |req.oid|);
    row.Assign(req.oid);
    if req.next {
      err, port := server.GetNextInstance(req.table, req.column, req.stack, row, cell);
    } else {
      err, port := server.GetInstance(req.table, req.column, req.stack, req.oid, cell);
    }
    oid := row.id[..row.len];
    asked := CellAt(req.table, req.column, req.stack, port);
    if port == 0 {
      UnnamedAnswer(req);
    } else {
      assert Names(req, port, oid);
    }
  }

  /** The value call of a located request, and the reply it makes. */
  method Collect(server: Server, oid: Oid, cell: CellInstance, value: array<byte>) returns (reply: Reply)
    requires cell.reference == server.response && cell.referenceLen >= 0
    requires server.response.Length == value.Length && value != server.response
    modifies value
    ensures reply == if cell.referenceLen > value.Length then GenErr
                     else Value(oid, server.response[..cell.referenceLen])
  {
    var len := GetValue(cell, value, server.response.Length);
    if len < 0 {
      return GenErr;
    }
    reply := Value(oid, value[..len]);
  }

  // ----- what the replies say

  ghost predicate CarriesUnsigned(reply: Reply, oid: Oid, x: u32) {
    reply.Value? && reply.oid == oid && |reply.bytes| == 4 && Decode32(reply.bytes) == x
  }

  ghost predicate CarriesSigned(reply: Reply, oid: Oid, x: s32) {
    reply.Value? && reply.oid == oid && |reply.bytes| == 4 && Signed(Decode32(reply.bytes)) == x
  }

  /** A text that does not fit is an error. */
  ghost predicate CarriesText(maxSize: nat, reply: Reply, oid: Oid, text: seq<byte>) {
    reply == if maxSize < |text| then GenErr else Value(oid, text)
  }

  lemma NamedReply(maxSize: nat, req: Request, port: Port, oid: Oid, reply: Reply)
    requires Names(req, port, oid) && Answers(maxSize, req, reply)
    ensures reply == CellReply(maxSize, oid, Cell(req.table, req.column, req.stack.At(port)))
  {
    AnswerUnique(maxSize, req, reply, CellReply(maxSize, oid, Cell(req.table, req.column, req.stack.At(port))));
  }

  /** The right answer in lldpRemTable: the neighbour's chassis, port and port
      description, or no such name where it gave none and in other columns. */
  lemma RemReplies(maxSize: nat, req: Request, port: Port, oid: Oid, reply: Reply)
    requires 4 <= maxSize && req.table == Rem && Names(req, port, oid) && Answers(maxSize, req, reply)
    ensures var peer := req.stack.At(port);
            if req.column == 4 && peer.chassis.Some? then CarriesSigned(reply, oid, peer.chassis.value.subtype)
            else if req.column == 5 && peer.chassis.Some? then
              CarriesText(maxSize, reply, oid, peer.chassis.value.text)
            else if req.column == 6 && peer.portId.Some? then CarriesSigned(reply, oid, peer.portId.value.subtype)
            else if req.column == 7 && peer.portId.Some? then
              CarriesText(maxSize, reply, oid, peer.portId.value.text)
            else if req.column == 8 && peer.portDescription.Some? then
              CarriesText(maxSize, reply, oid, peer.portDescription.value)
            else reply == NoSuchName
  {
    NamedReply(maxSize, req, port, oid, reply);
    var peer := req.stack.At(port);
    if req.column == 4 && peer.chassis.Some? {
      Encode32RoundTrip(peer.chassis.value.subtype);
    } else if req.column == 6 && peer.portId.Some? {
      Encode32RoundTrip(peer.portId.value.subtype);
    }
  }

  /** In lldpRemManAddrTable: the number of the neighbour's management port. */
  lemma RemManAddrReplies(maxSize: nat, req: Request, port: Port, oid: Oid, reply: Reply)
    requires 4 <= maxSize && req.table == RemManAddr && Names(req, port, oid) && Answers(maxSize, req, reply)
    ensures var peer := req.stack.At(port);
            if req.column == 3 && peer.portIndex.Some? then CarriesSigned(reply, oid, peer.portIndex.value.subtype)
            else if req.column == 4 && peer.portIndex.Some? then CarriesSigned(reply, oid, peer.portIndex.value.value)
            else reply == NoSuchName
  {
    NamedReply(maxSize, req, port, oid, reply);
    var peer := req.stack.At(port);
    if peer.portIndex.Some? {
      Encode32RoundTrip(peer.portIndex.value.subtype);
      Encode32RoundTrip(peer.portIndex.value.value);
    }
  }

  /** In lldpXPnoRemTable: line, transmit and receive delay and station name. */
  lemma PnoRemReplies(maxSize: nat, req: Request, port: Port, oid: Oid, reply: Reply)
    requires 4 <= maxSize && req.table == PnoRem && Names(req, port, oid) && Answers(maxSize, req, reply)
    ensures var peer := req.stack.At(port);
            if req.column == 1 && peer.delays.Some? then CarriesUnsigned(reply, oid, peer.delays.value.line)
            else if req.column == 2 && peer.delays.Some? then CarriesUnsigned(reply, oid, peer.delays.value.tx)
            else if req.column == 3 && peer.delays.Some? then CarriesUnsigned(reply, oid, peer.delays.value.rx)
            else if req.column == 6 && peer.station.Some? then CarriesText(maxSize, reply, oid, peer.station.value)
            else reply == NoSuchName
  {
    NamedReply(maxSize, req, port, oid, reply);
    var peer := req.stack.At(port);
    if peer.delays.Some? {
      Encode32RoundTrip(peer.delays.value.line);
      Encode32RoundTrip(peer.delays.value.tx);
      Encode32RoundTrip(peer.delays.value.rx);
    }
  }

  /** In lldpXdot3RemPortTable: the neighbour's link status. */
  lemma Dot3RemReplies(maxSize: nat, req: Request, port: Port, oid: Oid, reply: Reply)
    requires 4 <= maxSize && req.table == Dot3Rem && Names(req, port, oid) && Answers(maxSize, req, reply)
    ensures var peer := req.stack.At(port);
            if req.column == 1 && peer.link.Some? then CarriesSigned(reply, oid, peer.link.value.supported)
            else if req.column == 2 && peer.link.Some? then CarriesSigned(reply, oid, peer.link.value.enabled)
            else if req.column == 3 && peer.link.Some? then
              reply == Value(oid, [peer.link.value.cap0, peer.link.value.cap1])
            else if req.column == 4 && peer.link.Some? then CarriesSigned(reply, oid, peer.link.value.mau)
            else reply == NoSuchName
  {
    NamedReply(maxSize, req, port, oid, reply);
    var peer := req.stack.At(port);
    if peer.link.Some? {
      Encode32RoundTrip(peer.link.value.supported);
      Encode32RoundTrip(peer.link.value.enabled);
      Encode32RoundTrip(peer.link.value.mau);
    }
  }

  /** Neighbours that differ in one field have equal cells in all other columns. */
  lemma OtherColumnsKeep(table: Table, column: u32, p: Peer, q: Peer)
    ensures p.(timestamp := q.timestamp, address := q.address) == q ==>
              Cell(table, column, p) == Cell(table, column, q)
    ensures p.(chassis := q.chassis) == q && !(table == Rem && 4 <= column <= 5) ==>
              Cell(table, column, p) == Cell(table, column, q)
    ensures p.(portId := q.portId) == q && !(table == Rem && 6 <= column <= 7) ==>
              Cell(table, column, p) == Cell(table, column, q)
    ensures p.(portDescription := q.portDescription) == q && !(table == Rem && column == 8) ==>
              Cell(table, column, p) == Cell(table, column, q)
    ensures p.(portIndex := q.portIndex) == q && !(table == RemManAddr && 3 <= column <= 4) ==>
              Cell(table, column, p) == Cell(table, column, q)
    ensures p.(delays := q.delays) == q && !(table == PnoRem && 1 <= column <= 3) ==>
              Cell(table, column, p) == Cell(table, column, q)
    ensures p.(station := q.station) == q && !(table == PnoRem && column == 6) ==>
              Cell(table, column, p) == Cell(table, column, q)
    ensures p.(link := q.link) == q && !(table == Dot3Rem && 1 <= column <= 4) ==>
              Cell(table, column, p) == Cell(table, column, q)
  {
  }

  /** A request that names no port is answered with no such name. */
  lemma UnnamedReply(maxSize: nat, req: Request, reply: Reply)
    requires Answers(maxSize, req, reply) && forall port, oid :: !Names(req, port, oid)
    ensures reply == NoSuchName
  {
  }

  /** The index of a named cell: time mark and twice the port, and in the
      management address table, and only there, subtype and address behind. */
  lemma NamedIndex(req: Request, port: Port, oid: Oid)
    requires Names(req, port, oid)
    ensures |oid| >= 3 && req.stack.At(port).timestamp == Some(oid[0]) && oid[1] == oid[2] == port
    ensures req.table == RemManAddr <==> |oid| > 3
    ensures req.table == RemManAddr ==>
              req.stack.At(port).address.Some? &&
              oid[3..] == [req.stack.At(port).address.value.subtype] + req.stack.At(port).address.value.value
    ensures if req.next then Less(req.oid, oid) else oid == req.oid
  {
    RowParts(KindOf(req.table), req.stack, port, oid);
  }

  /** One request as the agent serves it: the instance call, then the value call. */
  method ServeOne(server: Server, req: Request, cell: CellInstance, value: array<byte>) returns (reply: Reply)
    requires 4 <= server.response.Length == value.Length && value != server.response
    modifies server.response, cell, value
    ensures Answers(value.Length, req, reply)
  {
    var err, oid, asked := Locate(server, req, cell);
    AskedAnswer(value.Length, req, oid, asked);
    if err != NoError {
      return NoSuchName;
    }
    reply := Collect(server, oid, cell, value);
  }

  /** Any run of requests, one after the other, over all four tables and any
      history of the neighbours: every reply is the right answer to its own
      request, whatever cell the shared buffer held before. */
  method Serve(server: Server, requests: seq<Request>) returns (replies: seq<Reply>)
    requires 4 <= server.response.Length
    modifies server.response
    ensures |replies| == |requests|
    ensures forall i :: 0 <= i < |requests| ==> Answers(server.response.Length, requests[i], replies[i])
  {
    var cell := new CellInstance();
    var value := new byte[server.response.Length];
    replies := [];
    while |replies| < |requests|
      invariant |replies| <= |requests|
      invariant forall i :: 0 <= i < |replies| ==> Answers(server.response.Length, requests[i], replies[i])
      decreases |requests| - |replies|
    {
      var reply := ServeOne(server, requests[|replies|], cell, value);
      replies := replies + [reply];
    }
  }

  // ----- two requests at once

  /** Reading a second cell over a first leaves the first as it was. */
  predicate Spares(maxSize: nat, first: seq<byte>, second: seq<byte>) {
    maxSize < |first| || maxSize < |second| ||
    var m := Min(|first|, |second|);
    first[..m] == second[..m]
  }

  lemma SparesIff(before: seq<byte>, first: seq<byte>, second: seq<byte>)
    requires |first| <= |before|
    ensures Overlaid(Overlaid(before, Some(first)), Some(second))[..|first|] == first <==>
            Spares(|before|, first, second)
  {
    var once := Overlaid(before, Some(first));
    var twice := Overlaid(once, Some(second));
    if |second| <= |before| {
      var m := Min(|first|, |second|);
      assert twice[..m] == second[..m];
      assert twice[..|first|] == second[..m] + first[m..];
      assert first == first[..m] + first[m..];
      assert twice[..|first|][..m] == second[..m];
    }
  }

  /** Serving the requests one after the other is needed. When the instance call
      of a second request comes between the two calls of a first, the reply to
      the first is right exactly when one of the two has no cell to read, or
      the second cell does not change the first one's bytes: one of them is too
      large, or they agree as far as both go. */
  method Overlap(server: Server, first: Request, second: Request, cell1: CellInstance, cell2: CellInstance,
                 value: array<byte>)
    returns (reply: Reply, oid1: Oid, oid2: Oid, ghost asked1: Option<seq<byte>>, ghost asked2: Option<seq<byte>>)
    requires 4 <= server.response.Length == value.Length && value != server.response && cell1 != cell2
    modifies server.response, cell1, cell2, value
    ensures Asks(first, oid1, asked1) && Asks(second, oid2, asked2)
    ensures Answers(value.Length, first, reply) <==>
            asked1.None? || asked2.None? || Spares(value.Length, asked1.value, asked2.value)
  {
    ghost var before := server.response[..];
    var err1, err2: Err;
    err1, oid1, asked1 := Locate(server, first, cell1);
    err2, oid2, asked2 := Locate(server, second, cell2);
    AskedAnswer(value.Length, first, oid1, asked1);
    if err1 != NoError {
      reply := NoSuchName;
      return;
    }
    reply := Collect(server, oid1, cell1, value);
    RightReplyIff(value.Length, first, oid1, asked1.value, reply);
    if |asked1.value| <= value.Length && asked2.Some? {
      SparesIff(before, asked1.value, asked2.value);
    }
  }

  /** A reply is right exactly when it is the one the request asks for. */
  lemma RightReplyIff(maxSize: nat, req: Request, oid: Oid, bytes: seq<byte>, reply: Reply)
    requires Asks(req, oid, Some(bytes))
    ensures Answers(maxSize, req, reply) <==> reply == CellReply(maxSize, oid, Some(bytes))
  {
    AskedAnswer(maxSize, req, oid, Some(bytes));
    if Answers(maxSize, req, reply) {
      AnswerUnique(maxSize, req, reply, CellReply(maxSize, oid, Some(bytes)));
    }
  }

  lemma AskedUnique(req: Request, r: Oid, a: Option<seq<byte>>, s: Oid, b: Option<seq<byte>>)
    requires Asks(req, r, a) && Asks(req, s, b)
    ensures a == b
  {
    var maxSize := (if a.Some? then |a.value| else 0) + if b.Some? then |b.value| else 0;
    AskedAnswer(maxSize, req, r, a);
    AskedAnswer(maxSize, req, s, b);
    AnswerUnique(maxSize, req, CellReply(maxSize, r, a), CellReply(maxSize, s, b));
  }

  /** Two requests for cells of one neighbour, the name of its port and the
      subtype of that name, of which the first is answered with a byte of the
      second, whatever the size of a value. */
  lemma OverlapFails() returns (first: Request, second: Request)
    ensures forall oid1, oid2, asked1, asked2 :: Asks(first, oid1, asked1) && Asks(second, oid2, asked2) ==>
              asked1.Some? && asked2.Some? && forall m :: 4 <= m ==> !Spares(m, asked1.value, asked2.value)
  {
    var peer := SILENT.(timestamp := Some(9), portId := Some(Name([0x70, 0x31], 7)));
    var stack := Stack([1], map[1 := peer], Address(1, []));
    first := Request(Rem, 7, stack, [9, 1, 1], false);
    second := Request(Rem, 6, stack, [9, 1, 1], false);
    assert Names(first, 1, [9, 1, 1]) && Names(second, 1, [9, 1, 1]);
    var name, subtype := [0x70, 0x31], Encode32(7);
    assert name[..2][0] != subtype[..2][0];
    forall oid1, oid2, asked1, asked2 | Asks(first, oid1, asked1) && Asks(second, oid2, asked2)
      ensures asked1 == Some(name) && asked2 == Some(subtype)
    {
      AskedUnique(first, [9, 1, 1], Some(name), oid1, asked1);
      AskedUnique(second, [9, 1, 1], Some(subtype), oid2, asked2);
    }
  }

  // ----- walking one column

  /** The rows a column walk has passed, all of them readable. */
  ghost predicate ColumnWalkedTo(table: Table, column: u32, stack: Stack, place: Oid, visited: seq<Oid>) {
    WalkedTo(Rows(KindOf(table), stack), place, visited) &&
    forall q :: q in visited ==> Readable(table, column, stack, q)
  }

  lemma ColumnWalkContinues(table: Table, column: u32, stack: Stack, place: Oid, visited: seq<Oid>,
                            port: int, stop: Oid)
    requires ColumnWalkedTo(table, column, stack, place, visited)
    requires Arrived(table, column, stack, place, port, stop, true)
    ensures ColumnWalkedTo(table, column, stack, stop, visited + [stop])
    ensures var rows := Rows(KindOf(table), stack);
            |Above(rows, stop)| < |Above(rows, place)|
  {
    WalkContinues(Rows(KindOf(table), stack), place, visited, stop);
    assert Readable(table, column, stack, stop);
  }

  lemma ColumnWalkEnds(table: Table, column: u32, stack: Stack, place: Oid, visited: seq<Oid>,
                       port: int, stop: Oid)
    requires ColumnWalkedTo(table, column, stack, place, visited)
    requires Arrived(table, column, stack, place, port, stop, false)
    ensures forall r :: r in visited <==> ReadableUpTo(table, column, stack, r)
  {
    var rows := Rows(KindOf(table), stack);
    forall r | r in visited
      ensures ReadableUpTo(table, column, stack, r)
    {
      forall q | q in rows && AtMost(q, r)
        ensures q in visited
      {
        if q != r && Less(place, q) {
          LessTransitive(place, q, r);
        }
      }
    }
    forall r | r in rows && r !in visited
      ensures !ReadableUpTo(table, column, stack, r)
    {
      assert AtMost(stop, r) && stop in rows;
      if Readable(table, column, stack, stop) {
        var p :| p in stack.ports && RowOf(KindOf(table), stack, p) == Some(stop) &&
                 Cell(table, column, stack.At(p)).Some?;
        RowNamesPort(KindOf(table), stack, p, stack, port);
      }
    }
  }

  /** A row of the table such that it and every row before it is readable. */
  ghost predicate ReadableUpTo(table: Table, column: u32, stack: Stack, row: Oid) {
    row in Rows(KindOf(table), stack) &&
    forall q :: q in Rows(KindOf(table), stack) && AtMost(q, row) ==> Readable(table, column, stack, q)
  }

  /** A walk of one column stops at the first cell without a value: it returns
      exactly the rows that come before it, and all rows if there is none. */
  method ColumnWalk(server: Server, table: Table, column: u32, stack: Stack) returns (visited: seq<Oid>)
    requires 4 <= server.response.Length
    modifies server.response
    ensures Ascending(visited)
    ensures forall r :: r in visited <==> ReadableUpTo(table, column, stack, r)
  {
    ghost var rows := Rows(KindOf(table), stack);
    var row := new ObjId(MAX_ROW_LEN);
    var cell := new CellInstance();
    visited := [];
    ghost var place: Oid := [];
    NoEmptyRow(KindOf(table), stack);
    WalkStarts(rows);
    var err, port := server.GetNextInstance(table, column, stack, row, cell);
    while err == NoError
      invariant row.Valid() && fresh(row) && fresh(row.id) && fresh(cell)
      invariant ColumnWalkedTo(table, column, stack, place, visited)
      invariant Arrived(table, column, stack, place, port, row.Value(), err == NoError)
      decreases |Above(rows, place)|
    {
      ColumnWalkContinues(table, column, stack, place, visited, port, row.Value());
      place := row.Value();
      visited := visited + [row.id[..row.len]];
      err, port := server.GetNextInstance(table, column, stack, row, cell);
    }
    ColumnWalkEnds(table, column, stack, place, visited, port, row.Value());
  }
}
