/**
 The interfaces group of the patched lwIP agent:
 src/lwip/src/apps/snmp/snmp_mib2_interfaces.c. The list of network interfaces
 is given by their numbers, in list order; a position in it stands for the
 pointer the code keeps in cell_instance->reference.
 */
module IfTable {
  import opened Types
  import opened Oids
  import opened Walks

  type Netifs = seq<u32>

  ghost predicate Distinct(netifs: Netifs) {
    forall i, j :: 0 <= i < j < |netifs| ==> netifs[i] != netifs[j]
  }

  ghost predicate InRange(netifs: Netifs) {
    forall i :: 0 <= i < |netifs| ==> 1 <= netifs[i] <= 0xff
  }

  ghost function Rows(netifs: Netifs): set<Oid> {
    set i | 0 <= i < |netifs| :: [netifs[i]]
  }

  function Offers(netifs: Netifs, n: nat): seq<Candidate>
    requires n <= |netifs|
  {
    seq(n, i requires 0 <= i < n => Candidate([netifs[i]], i))
  }

  /** interfaces_get_value: ifNumber counts the list. */
  method IfNumber(netifs: Netifs) returns (count: nat)
    ensures count == |netifs|
  {
    count := 0;
    while count < |netifs|
      invariant count <= |netifs|
    {
      count := count + 1;
    }
  }

  /** The condition under which GetCell answers. */
  ghost predicate Resolves(netifs: Netifs, rowOid: Oid) {
    |rowOid| == 1 && 1 <= rowOid[0] <= 0xff && rowOid[0] in netifs
  }

  /** The first interface in the list with the number a row index holds. */
  ghost predicate Finds(netifs: Netifs, rowOid: Oid, netif: nat) {
    netif < |netifs| && rowOid == [netifs[netif]] && netifs[netif] !in netifs[..netif]
  }

  /** interfaces_Table_get_cell_instance */
  method GetCell(netifs: Netifs, rowOid: Oid) returns (err: Err, netif: nat)
    ensures err == NoError <==> Resolves(netifs, rowOid)
    ensures err == NoError <==> |rowOid| == 1 && 1 <= rowOid[0] <= 255 && rowOid[0] in netifs
    ensures err == NoError ==> Finds(netifs, rowOid, netif)
  {
    netif := 0;
    if |rowOid| != 1 || !(1 <= rowOid[0] <= 0xff) {
      return NoSuchInstance, netif;
    }
    while netif < |netifs|
      invariant netif <= |netifs|
      invariant rowOid[0] !in netifs[..netif]
    {
      if netifs[netif] == rowOid[0] {
        return NoError, netif;
      }
      netif := netif + 1;
    }
    err := NoSuchInstance;
  }

  /** interfaces_Table_get_next_cell_instance */
  method GetNextCell(netifs: Netifs, row: ObjId) returns (err: Err, netif: nat)
    requires row.Valid()
    modifies row, row.id
    ensures row.Valid()
    ensures err != NoError ==> row.Value() == old(row.Value()) && NoneAbove(Rows(netifs), row.Value())
    ensures err == NoError ==> netif < |netifs| && row.Value() == [netifs[netif]] &&
                               IsSuccessor(Rows(netifs), old(row.Value()), row.Value())
  {
    var state := new NextOidState(row.id[..row.len], 1);
    netif := 0;
    while netif < |netifs|
      invariant netif <= |netifs|
      invariant row.Valid() && row.Value() == old(row.Value()) && fresh(state) && fresh(state.next)
      invariant state.Valid() && state.status != BufTooSmall
      invariant IsBest(Offers(netifs, netif), state.start, state.Best())
    {
      NearerKeepsBest(Offers(netifs, netif), state.start, state.Best(), Candidate([netifs[netif]], netif));
      state.Check([netifs[netif]], netif);
      assert Offers(netifs, netif + 1) == Offers(netifs, netif) + [Candidate([netifs[netif]], netif)];
      netif := netif + 1;
    }
    BestIsSuccessor(netifs, state.start, state.Best());
    if state.status == Success {
      row.Assign(state.next[..state.nextLen]);
      return NoError, state.reference;
    }
    err := NoSuchInstance;
  }

  lemma BestIsSuccessor(netifs: Netifs, start: Oid, best: Option<Candidate>)
    requires IsBest(Offers(netifs, |netifs|), start, best)
    ensures best.None? ==> NoneAbove(Rows(netifs), start)
    ensures best.Some? ==> IsSuccessor(Rows(netifs), start, best.value.oid) &&
                           0 <= best.value.reference < |netifs| && best.value.oid == [netifs[best.value.reference]]
  {
    var offers := Offers(netifs, |netifs|);
    forall q | q in Rows(netifs) && Less(start, q)
      ensures best.Some? && AtMost(best.value.oid, q)
    {
      var i :| 0 <= i < |netifs| && q == [netifs[i]];
      assert offers[i] == Candidate(q, i);
    }
  }

  lemma OneNumberEach(netifs: Netifs, k: nat)
    requires Distinct(netifs) && InRange(netifs) && k < |netifs|
    ensures Resolves(netifs, [netifs[k]]) && Finds(netifs, [netifs[k]], k)
  {
  }

  /** A walk so far: where it got to, and what each index stands for. */
  ghost predicate IfWalkedTo(netifs: Netifs, place: Oid, visited: seq<Oid>, found: seq<nat>) {
    WalkedTo(Rows(netifs), place, visited) && |found| == |visited| &&
    forall i :: 0 <= i < |found| ==> Resolves(netifs, visited[i]) && Finds(netifs, visited[i], found[i])
  }

  /** Where GetNext has arrived, if anywhere. */
  ghost predicate IfArrived(netifs: Netifs, place: Oid, err: Err, stop: Oid, netif: nat) {
    if err == NoError then netif < |netifs| && stop == [netifs[netif]] && IsSuccessor(Rows(netifs), place, stop)
    else NoneAbove(Rows(netifs), place)
  }

  lemma IfWalkContinues(netifs: Netifs, place: Oid, visited: seq<Oid>, found: seq<nat>, stop: Oid, netif: nat)
    requires Distinct(netifs) && InRange(netifs)
    requires IfWalkedTo(netifs, place, visited, found) && IfArrived(netifs, place, NoError, stop, netif)
    ensures IfWalkedTo(netifs, stop, visited + [stop], found + [netif])
    ensures |Above(Rows(netifs), stop)| < |Above(Rows(netifs), place)|
  {
    WalkContinues(Rows(netifs), place, visited, stop);
    OneNumberEach(netifs, netif);
  }

  /** A walk over ifTable lists the interfaces by ascending ifIndex whatever the
      order of the list and visits as many rows as ifNumber reports. Get resolves
      every index visited, and finds the interface GetNext found there. */
  method IfWalk(netifs: Netifs) returns (visited: seq<Oid>, found: seq<nat>)
    requires Distinct(netifs) && InRange(netifs)
    ensures Ascending(visited)
    ensures |visited| == |found| == |netifs|
    ensures forall r :: r in visited <==> r in Rows(netifs)
    ensures forall i :: 0 <= i < |visited| ==> Resolves(netifs, visited[i]) && Finds(netifs, visited[i], found[i])
  {
    var row := new ObjId(MAX_ROW_LEN);
    visited, found := [], [];
    ghost var place: Oid := [];
    WalkStarts(Rows(netifs));
    var err, netif := GetNextCell(netifs, row);
    while err == NoError
      invariant row.Valid() && fresh(row) && fresh(row.id)
      invariant IfWalkedTo(netifs, place, visited, found)
      invariant IfArrived(netifs, place, err, row.Value(), netif)
      decreases |Above(Rows(netifs), place)|
    {
      IfWalkContinues(netifs, place, visited, found, row.Value(), netif);
      place := row.Value();
      visited := visited + [row.id[..row.len]];
      found := found + [netif];
      err, netif := GetNextCell(netifs, row);
    }
    WalkCounts(netifs, visited);
  }

  lemma WalkCounts(netifs: Netifs, visited: seq<Oid>)
    requires Distinct(netifs) && Ascending(visited)
    requires forall r :: r in visited <==> r in Rows(netifs)
    ensures |visited| == |netifs|
  {
    var listed := seq(|netifs|, i requires 0 <= i < |netifs| => [netifs[i]]);
    forall i, j | 0 <= i < j < |visited|
      ensures visited[i] != visited[j]
    {
      LessIrreflexive(visited[i]);
    }
    forall r
      ensures r in visited <==> r in listed
    {
      if r in listed {
        var i :| 0 <= i < |listed| && listed[i] == r;
        assert r == [netifs[i]];
      }
      if r in visited {
        var i :| 0 <= i < |netifs| && r == [netifs[i]];
        assert listed[i] == r;
      }
    }
    SameElementsSameLength(visited, listed);
  }

  lemma {:induction false} SameElementsSameLength(s: seq<Oid>, t: seq<Oid>)
    requires forall i, j :: 0 <= i < j < |s| ==> s[i] != s[j]
    requires forall i, j :: 0 <= i < j < |t| ==> t[i] != t[j]
    requires forall r :: r in s <==> r in t
    ensures |s| == |t|
  {
    assert t == [] || t[0] in s;
    if s != [] {
      var x := s[0];
      assert x in s;
      var k :| 0 <= k < |t| && t[k] == x;
      var rest := t[..k] + t[k + 1..];
      forall r
        ensures r in s[1..] <==> r in rest
      {
        assert r in t <==> r in rest || r == x;
        assert r in s <==> r in s[1..] || r == x;
      }
      SameElementsSameLength(s[1..], rest);
    }
  }
}
