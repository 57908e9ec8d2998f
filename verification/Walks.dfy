/**
 Whole walks over a table: what repeated GetNext requests return, first while
 the neighbours stay the same and then while they change between requests.
 */
module Walks {
  import opened Types
  import opened Oids
  import opened RowIndex

  /** The rows not yet passed: what a walk still has to visit. */
  ghost function Above(rows: set<Oid>, place: Oid): set<Oid> {
    set r | r in rows && Less(place, r)
  }

  lemma StepShrinksAbove(rows: set<Oid>, place: Oid, next: Oid)
    requires IsSuccessor(rows, place, next)
    ensures Above(rows, next) < Above(rows, place)
  {
    LessIrreflexive(next);
    assert next in Above(rows, place) && next !in Above(rows, next);
    forall q | q in Above(rows, next)
      ensures q in Above(rows, place)
    {
      LessTransitive(place, next, q);
    }
  }

  /** visited lists, in ascending order, the rows that place has reached. */
  ghost predicate WalkedTo(rows: set<Oid>, place: Oid, visited: seq<Oid>) {
    Ascending(visited) &&
    (visited != [] ==> visited[|visited| - 1] == place) &&
    forall r :: r in visited <==> r in rows && !Less(place, r)
  }

  lemma WalkStarts(rows: set<Oid>)
    requires [] !in rows
    ensures WalkedTo(rows, [], [])
  {
  }

  lemma WalkContinues(rows: set<Oid>, place: Oid, visited: seq<Oid>, next: Oid)
    requires WalkedTo(rows, place, visited) && IsSuccessor(rows, place, next)
    ensures WalkedTo(rows, next, visited + [next])
    ensures |Above(rows, next)| < |Above(rows, place)|
  {
    StepShrinksAbove(rows, place, next);
    SubsetIsSmaller(Above(rows, next), Above(rows, place));
    AscendingSnoc(visited, next);
    forall r
      ensures r in visited + [next] <==> r in rows && !Less(next, r)
    {
      if r in rows {
        SuccessorSplits(rows, place, next, r);
      }
    }
  }

  lemma NoEmptyRow(kind: Kind, stack: Stack)
    ensures [] !in Rows(kind, stack)
  {
  }

  /** Which port each visited row belongs to. */
  ghost predicate PortsNamed(kind: Kind, stack: Stack, visited: seq<Oid>, ports: seq<Port>) {
    |ports| == |visited| &&
    forall i :: 0 <= i < |visited| ==>
                  ports[i] in stack.ports && RowOf(kind, stack, ports[i]) == Some(visited[i])
  }

  /** What GetNext found above place. */
  ghost predicate Reached(kind: Kind, stack: Stack, place: Oid, port: int, stop: Oid) {
    if port == 0 then NoneAbove(Rows(kind, stack), place)
    else 0 < port < 0x8000_0000 && port in stack.ports && RowOf(kind, stack, port) == Some(stop) &&
         IsSuccessor(Rows(kind, stack), place, stop)
  }

  lemma WalkAdds(kind: Kind, stack: Stack, place: Oid, visited: seq<Oid>, ports: seq<Port>, port: Port, stop: Oid)
    requires WalkedTo(Rows(kind, stack), place, visited) && PortsNamed(kind, stack, visited, ports)
    requires Reached(kind, stack, place, port, stop)
    ensures WalkedTo(Rows(kind, stack), stop, visited + [stop])
    ensures PortsNamed(kind, stack, visited + [stop], ports + [port])
    ensures |Above(Rows(kind, stack), stop)| < |Above(Rows(kind, stack), place)|
  {
    WalkContinues(Rows(kind, stack), place, visited, stop);
  }

  /** GetNext from the empty index until nothing follows: each row once, in
      strictly ascending order, and the ports the rows belong to. */
  method Walk(kind: Kind, stack: Stack) returns (visited: seq<Oid>, ports: seq<Port>)
    ensures Ascending(visited)
    ensures forall r :: r in visited <==> r in Rows(kind, stack)
    ensures |ports| == |visited|
    ensures forall i :: 0 <= i < |visited| ==> RowOf(kind, stack, ports[i]) == Some(visited[i])
    ensures forall p :: p in ports <==> p in stack.ports && RowOf(kind, stack, p).Some?
    ensures forall i, j :: 0 <= i < j < |ports| ==> ports[i] != ports[j]
  {
    var row := new ObjId(MAX_ROW_LEN);
    visited, ports := [], [];
    NoEmptyRow(kind, stack);
    WalkStarts(Rows(kind, stack));
    var port := UpdateWithNext(kind, stack, row);
    ghost var place: Oid := [];
    while port != 0
      invariant row.Valid() && fresh(row) && fresh(row.id)
      invariant WalkedTo(Rows(kind, stack), place, visited) && PortsNamed(kind, stack, visited, ports)
      invariant Reached(kind, stack, place, port, row.Value())
      decreases |Above(Rows(kind, stack), place)|
    {
      WalkAdds(kind, stack, place, visited, ports, port, row.Value());
      place := row.Value();
      visited := visited + [row.id[..row.len]];
      ports := ports + [port];
      port := UpdateWithNext(kind, stack, row);
    }
    WalkNamesPorts(kind, stack, visited, ports);
  }

  lemma SubsetIsSmaller<T>(a: set<T>, b: set<T>)
    requires a < b
    ensures |a| < |b|
  {
    var x :| x in b && x !in a;
    assert a <= b - {x};
    SubsetIsNoLarger(a, b - {x});
  }

  lemma {:induction false} SubsetIsNoLarger<T>(a: set<T>, b: set<T>)
    requires a <= b
    ensures |a| <= |b|
    decreases a
  {
    if a != {} {
      var x :| x in a;
      SubsetIsNoLarger(a - {x}, b - {x});
    }
  }

  lemma WalkNamesPorts(kind: Kind, stack: Stack, visited: seq<Oid>, ports: seq<Port>)
    requires Ascending(visited) && PortsNamed(kind, stack, visited, ports)
    requires forall r :: r in visited <==> r in Rows(kind, stack)
    ensures forall p :: p in ports <==> p in stack.ports && RowOf(kind, stack, p).Some?
    ensures forall i, j :: 0 <= i < j < |ports| ==> ports[i] != ports[j]
  {
    forall p | p in stack.ports && RowOf(kind, stack, p).Some?
      ensures p in ports
    {
      var r := RowOf(kind, stack, p).value;
      assert r in Rows(kind, stack);
      var i :| 0 <= i < |visited| && visited[i] == r;
      RowNamesPort(kind, stack, p, stack, ports[i]);
    }
    forall i, j | 0 <= i < j < |ports|
      ensures ports[i] != ports[j]
    {
      LessIrreflexive(visited[i]);
      assert Less(visited[i], visited[j]);
    }
  }

  /** The order in which the iterator yields the ports has no effect on a walk:
      two walks over the same readable rows return the same list. */
  lemma WalkIgnoresPortOrder(kind: Kind, s: Stack, t: Stack, a: seq<Oid>, b: seq<Oid>)
    requires forall p :: p in s.ports <==> p in t.ports
    requires s.peers == t.peers
    requires Ascending(a) && forall r :: r in a <==> r in Rows(kind, s)
    requires Ascending(b) && forall r :: r in b <==> r in Rows(kind, t)
    ensures a == b
  {
    assert Rows(kind, s) == Rows(kind, t);
    AscendingUnique(a, b);
  }

  /** Where a walk stands after the given answers. */
  function Place(answers: seq<Oid>): Oid {
    if answers == [] then [] else answers[|answers| - 1]
  }

  /** The answers of a walk over changing tables. */
  ghost predicate Chained(kind: Kind, stacks: seq<Stack>, answers: seq<Oid>) {
    |answers| <= |stacks| &&
    forall i :: 0 <= i < |answers| ==> IsSuccessor(Rows(kind, stacks[i]), Place(answers[..i]), answers[i])
  }

  lemma ChainedSnoc(kind: Kind, stacks: seq<Stack>, answers: seq<Oid>, next: Oid)
    requires Chained(kind, stacks, answers) && |answers| < |stacks|
    requires IsSuccessor(Rows(kind, stacks[|answers|]), Place(answers), next)
    ensures Chained(kind, stacks, answers + [next])
  {
    var now := answers + [next];
    assert now[..|answers|] == answers;
    assert forall i :: 0 <= i < |answers| ==> now[..i] == answers[..i];
  }

  /** While neighbours appear, vanish and change their time stamps between the
      requests, the answers still ascend strictly, and each is the successor of
      the one before it in the table as it was for that request. */
  method WalkAcrossChanges(kind: Kind, stacks: seq<Stack>) returns (answers: seq<Oid>)
    ensures Ascending(answers) && Chained(kind, stacks, answers)
    ensures |answers| < |stacks| ==>
              NoneAbove(Rows(kind, stacks[|answers|]), Place(answers))
  {
    var row := new ObjId(MAX_ROW_LEN);
    answers := [];
    while |answers| < |stacks|
      invariant row.Valid() && fresh(row) && fresh(row.id)
      invariant row.Value() == Place(answers)
      invariant Ascending(answers) && Chained(kind, stacks, answers)
      decreases |stacks| - |answers|
    {
      var port := UpdateWithNext(kind, stacks[|answers|], row);
      if port == 0 {
        return;
      }
      AscendingSnoc(answers, row.Value());
      ChainedSnoc(kind, stacks, answers, row.Value());
      answers := answers + [row.id[..row.len]];
    }
  }

  lemma {:induction false} StableRowIsAhead(kind: Kind, stacks: seq<Stack>, answers: seq<Oid>, r: Oid, n: nat)
    requires Chained(kind, stacks, answers) && n <= |answers| && r != []
    requires forall i :: 0 <= i < n ==> r in Rows(kind, stacks[i]) && answers[i] != r
    ensures Less(Place(answers[..n]), r)
  {
    if n > 0 {
      StableRowIsAhead(kind, stacks, answers, r, n - 1);
      assert IsSuccessor(Rows(kind, stacks[n - 1]), Place(answers[..n - 1]), answers[n - 1]);
      assert AtMost(answers[n - 1], r);
    }
  }

  /** A row that stays in the table is never skipped: whatever else changes, a
      walk that has come to its end has returned it. */
  lemma StableRowIsVisited(kind: Kind, stacks: seq<Stack>, answers: seq<Oid>, r: Oid)
    requires Chained(kind, stacks, answers) && |answers| < |stacks|
    requires NoneAbove(Rows(kind, stacks[|answers|]), Place(answers))
    requires forall i :: 0 <= i <= |answers| ==> r in Rows(kind, stacks[i])
    ensures r in answers
  {
    NoEmptyRow(kind, stacks[|answers|]);
    assert answers[..|answers|] == answers;
    if r !in answers {
      StableRowIsAhead(kind, stacks, answers, r, |answers|);
    }
  }

  /** Get and GetNext agree: the index GetNext writes is the one Get finds, at
      the same port. */
  method NextThenGet(kind: Kind, stack: Stack, row: ObjId) returns (next: int, found: int)
    requires row.Valid()
    modifies row, row.id
    ensures row.Valid()
    ensures next != 0 ==> found == next
    ensures next == 0 ==> NoneAbove(Rows(kind, stack), old(row.Value()))
  {
    next := UpdateWithNext(kind, stack, row);
    found := Match(kind, stack, row.id[..row.len]);
    if next != 0 {
      assert row.Value() in Rows(kind, stack);
      RowNamesPort(kind, stack, next, stack, found);
    }
  }
}
