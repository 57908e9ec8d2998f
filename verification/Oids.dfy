/**
 Object identifiers and the search for the next one. The helper functions
 snmp_oid_compare, snmp_oid_equal, snmp_oid_assign and snmp_next_oid_init/check
 belong to lwIP and are not in the repository; they are written out here so
 that what the tables rely on is proved and not assumed.
 */
module Oids {
  import opened Types

  type Oid = seq<u32>

  /** Strict lexicographic order, the order of section 4.2.2 of RFC 3416. */
  predicate Less(a: Oid, b: Oid) {
    b != [] && (a == [] || a[0] < b[0] || (a[0] == b[0] && Less(a[1..], b[1..])))
  }

  predicate AtMost(a: Oid, b: Oid) {
    a == b || Less(a, b)
  }

  lemma {:induction false} LessIrreflexive(a: Oid)
    ensures !Less(a, a)
  {
    if a != [] {
      LessIrreflexive(a[1..]);
    }
  }

  lemma {:induction false} LessTransitive(a: Oid, b: Oid, c: Oid)
    requires Less(a, b) && Less(b, c)
    ensures Less(a, c)
  {
    if a != [] && a[0] == b[0] == c[0] {
      LessTransitive(a[1..], b[1..], c[1..]);
    }
  }

  lemma {:induction false} LessTotal(a: Oid, b: Oid)
    ensures Less(a, b) || a == b || Less(b, a)
  {
    if a != [] && b != [] && a[0] == b[0] {
      LessTotal(a[1..], b[1..]);
      assert a == [a[0]] + a[1..] && b == [b[0]] + b[1..];
    }
  }

  lemma LessAsymmetric(a: Oid, b: Oid)
    requires Less(a, b)
    ensures !Less(b, a) && a != b
  {
    LessIrreflexive(a);
    if Less(b, a) {
      LessTransitive(a, b, a);
    }
  }

  /** An identifier is below another exactly when it is a proper prefix of it
      or is smaller at the first place where the two differ. */
  lemma {:induction false} LessCharacterised(a: Oid, b: Oid)
    ensures Less(a, b) <==> exists k: nat :: FirstDifference(a, b, k)
  {
    if b == [] {
    } else if a == [] {
      assert FirstDifference(a, b, 0);
    } else if a[0] != b[0] {
      if a[0] < b[0] {
        assert FirstDifference(a, b, 0);
      }
    } else {
      LessCharacterised(a[1..], b[1..]);
      if Less(a, b) {
        var k: nat :| FirstDifference(a[1..], b[1..], k);
        assert a[..k + 1] == [a[0]] + a[1..][..k] && b[..k + 1] == [b[0]] + b[1..][..k];
        assert FirstDifference(a, b, k + 1);
      }
      if k: nat :| FirstDifference(a, b, k) {
        assert k > 0;
        assert a[1..][..k - 1] == a[..k][1..] && b[1..][..k - 1] == b[..k][1..];
        assert FirstDifference(a[1..], b[1..], k - 1);
      }
    }
  }

  ghost predicate FirstDifference(a: Oid, b: Oid, k: nat) {
    k <= |a| && k < |b| && a[..k] == b[..k] && (k == |a| || a[k] < b[k])
  }

  /** Three-way comparison: negative, zero or positive. */
  method Compare(a: Oid, b: Oid) returns (c: int)
    ensures c < 0 <==> Less(a, b)
    ensures c == 0 <==> a == b
    ensures c > 0 <==> Less(b, a)
  {
    LessTotal(a, b);
    LessIrreflexive(a);
    var i := 0;
    while i < |a| && i < |b|
      invariant i <= |a| && i <= |b|
      invariant a[..i] == b[..i]
      invariant Less(a, b) == Less(a[i..], b[i..])
      invariant Less(b, a) == Less(b[i..], a[i..])
    {
      if a[i] < b[i] {
        LessAsymmetric(a[i..], b[i..]);
        return -1;
      }
      if a[i] > b[i] {
        LessAsymmetric(b[i..], a[i..]);
        return 1;
      }
      assert a[i..][1..] == a[i + 1..] && b[i..][1..] == b[i + 1..];
      i := i + 1;
    }
    c := if |a| < |b| then -1 else if |a| > |b| then 1 else 0;
  }

  // ----- ascending sequences of identifiers

  ghost predicate Ascending(s: seq<Oid>) {
    forall i, j :: 0 <= i < j < |s| ==> Less(s[i], s[j])
  }

  /** A strictly ascending list is determined by its elements. */
  lemma {:induction false} AscendingUnique(s: seq<Oid>, t: seq<Oid>)
    requires Ascending(s) && Ascending(t)
    requires forall x :: x in s <==> x in t
    ensures s == t
  {
    assert t == [] || t[0] in s;
    if s == [] {
    } else {
      assert s[0] in t && t != [];
      assert t[0] in s;
      var i :| 0 <= i < |t| && t[i] == s[0];
      var j :| 0 <= j < |s| && s[j] == t[0];
      if s[0] != t[0] {
        LessAsymmetric(t[0], s[0]);
      }
      forall x
        ensures x in s[1..] <==> x in t[1..]
      {
        HeadNotInTail(s, x);
        HeadNotInTail(t, x);
      }
      AscendingUnique(s[1..], t[1..]);
      assert s == [s[0]] + s[1..] && t == [t[0]] + t[1..];
    }
  }

  lemma HeadNotInTail(s: seq<Oid>, x: Oid)
    requires s != [] && Ascending(s)
    ensures x in s[1..] <==> x in s && x != s[0]
  {
    LessIrreflexive(s[0]);
    if x in s && x != s[0] {
      var i :| 0 <= i < |s| && s[i] == x;
      assert s[1..][i - 1] == x;
    }
  }

  lemma AscendingSnoc(s: seq<Oid>, x: Oid)
    requires Ascending(s)
    requires s != [] ==> Less(s[|s| - 1], x)
    ensures Ascending(s + [x])
  {
    forall i | 0 <= i < |s|
      ensures Less(s[i], x)
    {
      if i < |s| - 1 {
        LessTransitive(s[i], s[|s| - 1], x);
      }
    }
  }

  // ----- the least identifier above a given one

  /** r is the least member of rows strictly above start. */
  ghost predicate IsSuccessor(rows: set<Oid>, start: Oid, r: Oid) {
    r in rows && Less(start, r) && forall q :: q in rows && Less(start, q) ==> AtMost(r, q)
  }

  ghost predicate NoneAbove(rows: set<Oid>, start: Oid) {
    forall q :: q in rows ==> !Less(start, q)
  }

  lemma SuccessorUnique(rows: set<Oid>, start: Oid, r: Oid, q: Oid)
    requires IsSuccessor(rows, start, r) && IsSuccessor(rows, start, q)
    ensures r == q
  {
    if r != q {
      LessAsymmetric(r, q);
    }
  }

  /** After a step to the successor, the rows not above the new place are the
      rows not above the old place and the successor itself. */
  lemma SuccessorSplits(rows: set<Oid>, start: Oid, r: Oid, q: Oid)
    requires IsSuccessor(rows, start, r) && q in rows
    ensures Less(start, q) <==> q == r || Less(r, q)
    ensures q == r ==> !Less(r, q)
  {
    LessIrreflexive(r);
    if Less(r, q) {
      LessTransitive(start, r, q);
    }
  }

  /** The results of the instance callbacks that occur here. */
  datatype Err = NoError | NoSuchInstance

  // ----- struct snmp_obj_id and struct snmp_next_oid_state

  /** The longest row index: time mark, port, port, subtype and 32 address bytes. */
  const MAX_ROW_LEN := 36

  /** struct snmp_obj_id: a fixed array and the number of elements in use. */
  class ObjId {
    const id: array<u32>
    var len: nat

    ghost predicate Valid()
      reads this
    {
      len <= id.Length && MAX_ROW_LEN <= id.Length
    }

    ghost function Value(): Oid
      reads this, id
      requires Valid()
    {
      id[..len]
    }

    constructor (capacity: nat)
      requires MAX_ROW_LEN <= capacity
      ensures Valid() && Value() == [] && fresh(id) && id.Length == capacity
    {
      id := new u32[capacity];
      len := 0;
    }

    /** snmp_oid_assign */
    method Assign(oid: Oid)
      requires Valid() && |oid| <= id.Length
      modifies this, id
      ensures Valid() && Value() == oid
    {
      var i := 0;
      while i < |oid|
        invariant i <= |oid|
        invariant id[..i] == oid[..i]
      {
        id[i] := oid[i];
        i := i + 1;
      }
      len := |oid|;
    }
  }

  datatype Status = NoMatch | Success | BufTooSmall

  datatype Candidate = Candidate(oid: Oid, reference: int)

  /** What one offer does to the best candidate found so far. */
  function Nearer(start: Oid, best: Option<Candidate>, c: Candidate): Option<Candidate> {
    if Less(start, c.oid) && (best.None? || Less(c.oid, best.value.oid)) then Some(c) else best
  }

  /** best is a least candidate strictly above start among those offered. */
  ghost predicate IsBest(offered: seq<Candidate>, start: Oid, best: Option<Candidate>) {
    match best
    case None => forall c :: c in offered ==> !Less(start, c.oid)
    case Some(b) =>
      b in offered && Less(start, b.oid) &&
      forall c :: c in offered && Less(start, c.oid) ==> AtMost(b.oid, c.oid)
  }

  lemma NearerKeepsBest(offered: seq<Candidate>, start: Oid, best: Option<Candidate>, c: Candidate)
    requires IsBest(offered, start, best)
    ensures IsBest(offered + [c], start, Nearer(start, best, c))
  {
    var now := Nearer(start, best, c);
    if now.Some? && best.Some? {
      LessTotal(c.oid, best.value.oid);
      forall d | d in offered + [c] && Less(start, d.oid)
        ensures AtMost(now.value.oid, d.oid)
      {
        if d in offered && Less(c.oid, best.value.oid) && best.value.oid != d.oid {
          LessTransitive(c.oid, best.value.oid, d.oid);
        }
      }
    }
  }

  /** struct snmp_next_oid_state: the search for the next identifier. */
  class NextOidState {
    const start: Oid
    const next: array<u32>
    var nextLen: nat
    var status: Status
    var reference: int

    ghost predicate Valid()
      reads this, next
    {
      nextLen <= next.Length &&
      (status == NoMatch ==> nextLen == 0) &&
      (status == Success ==> nextLen != 0) &&
      (status == Success ==> Less(start, next[..nextLen]))
    }

    /** The candidate held, if there is one. */
    ghost function Best(): Option<Candidate>
      reads this, next
      requires Valid()
    {
      if status == Success then Some(Candidate(next[..nextLen], reference)) else None
    }

    /** snmp_next_oid_init */
    constructor (start: Oid, maxLen: nat)
      ensures Valid() && fresh(next) && next.Length == maxLen
      ensures this.start == start && status == NoMatch
    {
      this.start := start;
      next := new u32[maxLen];
      nextLen := 0;
      status := NoMatch;
      reference := 0;
    }

    /** snmp_next_oid_check. An empty nextLen stands for "nothing held yet". A
        candidate that should be held and does not fit ends the search. */
    method Check(oid: Oid, reference: int)
      requires Valid()
      modifies this, next
      ensures Valid()
      ensures old(status) == BufTooSmall ==> status == BufTooSmall
      ensures old(status) != BufTooSmall ==>
                var best := Nearer(start, old(Best()), Candidate(oid, reference));
                if best != old(Best()) && next.Length < |oid| then status == BufTooSmall
                else status != BufTooSmall && Best() == best
    {
      if status != BufTooSmall {
        var behind := Compare(oid, start);
        if behind > 0 {
          var closer := nextLen == 0;
          if !closer {
            var c := Compare(oid, next[..nextLen]);
            closer := c < 0;
          }
          if closer {
            if |oid| <= next.Length {
              var i := 0;
              while i < |oid|
                invariant i <= |oid|
                invariant next[..i] == oid[..i]
              {
                next[i] := oid[i];
                i := i + 1;
              }
              assert next[..|oid|] == oid;
              nextLen := |oid|;
              status := Success;
              this.reference := reference;
            } else {
              status := BufTooSmall;
            }
          }
        }
      }
    }
  }
}
