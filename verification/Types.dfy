/** The C integer types the sources use, byte values, and small helpers. */
module Types {

  const TWO32: nat := 0x1_0000_0000

  type byte = x: int | 0 <= x < 0x100

  type u32 = x: int | 0 <= x < TWO32

  type s32 = x: int | -0x8000_0000 <= x < 0x8000_0000

  datatype Option<+T> = None | Some(value: T)

  const NUL: byte := 0x00
  const BACKSPACE: byte := 0x08
  const LF: byte := 0x0A
  const CR: byte := 0x0D
  const ESC: byte := 0x1B
  const SPACE: byte := 0x20
  const UP: byte := 0x41
  const LEFT_BRACKET: byte := 0x5B
  const DELETE: byte := 0x7F

  function Min(a: nat, b: nat): nat {
    if a <= b then a else b
  }

  /** Conversion to a 32-bit unsigned integer: arithmetic is modulo 2^32. */
  function Wrap(x: int): u32 {
    x % TWO32
  }

  /** Taking the first byte of what is left of s moves on by one place. */
  lemma FrontOf(s: seq<byte>, n: nat, c: byte, rest: seq<byte>)
    requires n <= |s| && s[n..] == [c] + rest
    ensures n < |s| && s[n] == c && s[n + 1..] == rest
  {
    assert s[n..][0] == c && s[n..][1..] == rest;
  }
}
