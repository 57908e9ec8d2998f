/**
 The writable variables of the system group, sysContact, sysName and
 sysLocation: rte/src/net/mib/mib2_system.c. The three behave alike.
 */
module SystemGroup {
  import opened Types

  /** The size of the string in each of the three structures. */
  const STRING_SIZE: nat := 256

  const NOERROR := 0
  const GENERROR := 5
  const WRONGVALUE := 10

  /** The structure the application keeps; a callback copies it whole. */
  class Variable {
    const text: array<byte>

    ghost predicate Valid()
      reads this, text
    {
      text.Length == STRING_SIZE && NUL in text[..]
    }

    /** The text up to the first NUL, and zeros behind it. */
    ghost predicate Stores(value: seq<byte>)
      reads this, text
    {
      |value| < STRING_SIZE == text.Length && text[..|value|] == value &&
      forall i :: |value| <= i < STRING_SIZE ==> text[i] == NUL
    }

    constructor ()
      ensures Valid() && Stores([]) && fresh(text)
    {
      text := new byte[STRING_SIZE](_ => NUL);
      new;
      assert text[0] == NUL;
    }
  }

  /** system_test_*: lengths that leave no room for the final NUL are refused. */
  function Test(size: nat): (err: int)
    ensures err == NOERROR <==> size < STRING_SIZE
    ensures err == NOERROR || err == WRONGVALUE
  {
    if STRING_SIZE <= size then WRONGVALUE else NOERROR
  }

  /** system_set_*; accepted is the answer of the application's callback. */
  method Set(variable: Variable, value: seq<byte>, accepted: bool) returns (err: int)
    requires variable.Valid() && Test(|value|) == NOERROR
    modifies variable.text
    ensures variable.Valid()
    ensures if accepted then err == NOERROR && variable.Stores(value)
            else err == GENERROR && variable.text[..] == old(variable.text[..])
  {
    ghost var was := variable.text[..];
    var local := new byte[STRING_SIZE](_ => NUL);
    var i := 0;
    while i < |value|
      invariant i <= |value| && variable.text[..] == was
      invariant forall k :: 0 <= k < i ==> local[k] == value[k]
      invariant forall k :: i <= k < STRING_SIZE ==> local[k] == NUL
    {
      local[i] := value[i];
      i := i + 1;
    }
    if !accepted {
      return GENERROR;
    }
    i := 0;
    while i < STRING_SIZE
      invariant i <= STRING_SIZE
      invariant forall k :: 0 <= k < |value| ==> local[k] == value[k]
      invariant forall k :: |value| <= k < STRING_SIZE ==> local[k] == NUL
      invariant forall k :: 0 <= k < i ==> variable.text[k] == local[k]
    {
      variable.text[i] := local[i];
      i := i + 1;
    }
    assert variable.text[..][|value|] == NUL;
    assert variable.text[..|value|] == value;
    err := NOERROR;
  }

  /** system_get_*: the length of the text, or the error code when it does not
      fit, which a caller cannot tell from a length of 5. */
  method Get(variable: Variable, value: array<byte>, maxSize: nat) returns (size: int)
    requires variable.Valid() && maxSize <= value.Length && value != variable.text
    modifies value
    ensures exists n: nat :: n < STRING_SIZE && NUL !in variable.text[..n] && variable.text[n] == NUL &&
                             if maxSize < n then size == GENERROR && value[..] == old(value[..])
                             else size == n && value[..n] == variable.text[..n]
  {
    var n := 0;
    while variable.text[n] != NUL
      invariant n < STRING_SIZE && NUL !in variable.text[..n]
      decreases STRING_SIZE - n
    {
      assert variable.text[..] == variable.text[..n + 1] + variable.text[n + 1..];
      assert variable.text[..n + 1] == variable.text[..n] + [variable.text[n]];
      n := n + 1;
    }
    if maxSize < n {
      return GENERROR;
    }
    var i := 0;
    while i < n
      invariant i <= n && value[..i] == variable.text[..i]
    {
      value[i] := variable.text[i];
      i := i + 1;
    }
    size := n;
  }

  /** Section 4.2.5 of RFC 3416: a value is tested, then set, then asked for.
      Values with no room for the final NUL and values the application refuses
      leave the variable alone, with different errors. Any other value is stored,
      and what is returned is that value exactly when it has no NUL and fits. */
  method SetThenGet(variable: Variable, value: seq<byte>, accepted: bool, back: array<byte>, maxSize: nat)
    returns (err: int, size: int)
    requires variable.Valid()
    requires GENERROR <= maxSize <= back.Length && back != variable.text
    modifies variable.text, back
    ensures variable.Valid()
    ensures err == if 256 <= |value| then 10 else if accepted then 0 else 5
    ensures err != 0 ==> variable.text[..] == old(variable.text[..]) && back[..] == old(back[..])
    ensures err == 0 ==> 0 <= size <= back.Length &&
                         (back[..size] == value <==> NUL !in value && |value| <= maxSize)
  {
    size := 0;
    err := Test(|value|);
    if err == NOERROR {
      err := Set(variable, value, accepted);
      if err == NOERROR {
        size := Get(variable, back, maxSize);
        ghost var n: nat :| n < STRING_SIZE && NUL !in variable.text[..n] && variable.text[n] == NUL &&
          if maxSize < n then size == GENERROR else size == n && back[..n] == variable.text[..n];
        FirstNul(variable.text[..], value, n);
      }
    }
  }

  lemma FirstNul(text: seq<byte>, value: seq<byte>, n: nat)
    requires |value| < |text| && text[..|value|] == value && forall i :: |value| <= i < |text| ==> text[i] == NUL
    requires n < |text| && NUL !in text[..n] && text[n] == NUL
    ensures n <= |value| && text[..n] == value[..n]
    ensures n == |value| <==> NUL !in value
  {
    forall i | 0 <= i < n
      ensures text[i] != NUL
    {
      assert text[..n][i] in text[..n];
    }
    assert text[|value|] == NUL;
    assert forall i :: 0 <= i < |value| ==> text[i] == text[..|value|][i] == value[i];
  }
}
