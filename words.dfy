/** Machine words, their little-endian byte layout and NUL-terminated strings. */
module Words {
  import opened Wrappers

  /** Capacity of the word buffer, `MEM_WORDS` in all three assemblers. */
  const MEM_WORDS: nat := 0x2000
  /** `log2(MEM_WORDS)`: the width of one packed field in the 64-bit encoding. */
  const ADDRESS_WIDTH: nat := 13

  const TWO32: int := 0x1_0000_0000
  const TWO64: int := 0x1_0000_0000_0000_0000

  type u8 = x: int | 0 <= x < 0x100
  type u32 = x: int | 0 <= x < 0x1_0000_0000
  type u64 = x: int | 0 <= x < 0x1_0000_0000_0000_0000

  /** `field_t` of assembler64.cpp: the three operands of an instruction. */
  datatype Field = A | B | J

  /** The enumerator's value, as the 64-bit object file stores it. */
  function FieldIndex(f: Field): (i: u32)
    ensures i < 3
  {
    match f
    case A => 0
    case B => 1
    case J => 2
  }

  function FieldOfIndex(i: u32): (f: Option<Field>)
    ensures f.Some? <==> i < 3
    ensures f.Some? ==> FieldIndex(f.value) == i
  {
    if i == 0 then Some(A) else if i == 1 then Some(B) else if i == 2 then Some(J) else None
  }

  /** Reduction to `uint32_t`, as every `uword_t` assignment does. */
  function Wrap32(x: int): (r: u32)
    ensures 0 <= x < TWO32 ==> r == x
    ensures (r - x) % TWO32 == 0
  {
    x % TWO32
  }

  /** The four bytes `f.write((const char*)&x, 4)` produces on a little-endian host. */
  function Le32(x: u32): (b: seq<u8>)
    ensures |b| == 4
  {
    [x % 0x100, (x / 0x100) % 0x100, (x / 0x1_0000) % 0x100, x / 0x100_0000]
  }

  function Le32Value(b: seq<u8>): u32
    requires |b| == 4
  {
    b[0] as int + 0x100 * (b[1] as int) + 0x1_0000 * (b[2] as int) + 0x100_0000 * (b[3] as int)
  }

  lemma Le32RoundTrip(x: u32)
    ensures Le32Value(Le32(x)) == x
  {
    var b0, q0 := x % 0x100, x / 0x100;
    var b1, q1 := q0 % 0x100, q0 / 0x100;
    var b2, b3 := q1 % 0x100, q1 / 0x100;
    assert x == b0 + 0x100 * q0;
    assert q0 == b1 + 0x100 * q1;
    assert q1 == b2 + 0x100 * b3;
    assert x / 0x1_0000 == q1;
    assert x / 0x100_0000 == b3;
  }

  /** The eight bytes of a 64-bit word: low half first. */
  function Le64(x: u64): (b: seq<u8>)
    ensures |b| == 8
  {
    Le32(x % TWO32) + Le32(x / TWO32)
  }

  function Le64Value(b: seq<u8>): u64
    requires |b| == 8
  {
    Le32Value(b[..4]) + TWO32 * Le32Value(b[4..])
  }

  lemma Le64RoundTrip(x: u64)
    ensures Le64Value(Le64(x)) == x
  {
    var lo, hi := x % TWO32, x / TWO32;
    Le32RoundTrip(lo);
    Le32RoundTrip(hi);
    assert Le64(x)[..4] == Le32(lo);
    assert Le64(x)[4..] == Le32(hi);
  }

  /** Strings whose characters are bytes, which is all a `char` read from a file can be. */
  predicate IsByteString(s: string) {
    forall i | 0 <= i < |s| :: s[i] as int < 0x100
  }

  predicate NulFree(s: string) {
    forall i | 0 <= i < |s| :: s[i] != '\0'
  }

  /** `f.write(s.c_str(), s.size() + 1)`: the bytes of `s` and one terminating NUL. */
  function CString(s: string): (b: seq<u8>)
    requires IsByteString(s)
    ensures |b| == |s| + 1 && b[|s|] == 0
    ensures forall i | 0 <= i < |s| :: b[i] == s[i] as int
  {
    if s == [] then [0] else [s[0] as int] + CString(s[1..])
  }

  /** Readers: each takes the bytes still to be read and returns the value and the rest. */
  function GetU32(b: seq<u8>): Option<(u32, seq<u8>)> {
    if |b| < 4 then None else Some((Le32Value(b[..4]), b[4..]))
  }

  function GetU64(b: seq<u8>): Option<(u64, seq<u8>)> {
    if |b| < 8 then None else Some((Le64Value(b[..8]), b[8..]))
  }

  function GetCString(b: seq<u8>): Option<(string, seq<u8>)>
    decreases |b|
  {
    if b == [] then None
    else if b[0] == 0 then Some(("", b[1..]))
    else
      match GetCString(b[1..])
      case None => None
      case Some((s, rest)) => Some(([b[0] as char] + s, rest))
  }

  lemma GetU32Le32(x: u32, rest: seq<u8>)
    ensures GetU32(Le32(x) + rest) == Some((x, rest))
  {
    assert (Le32(x) + rest)[..4] == Le32(x);
    assert (Le32(x) + rest)[4..] == rest;
    Le32RoundTrip(x);
  }

  lemma GetU64Le64(x: u64, rest: seq<u8>)
    ensures GetU64(Le64(x) + rest) == Some((x, rest))
  {
    assert (Le64(x) + rest)[..8] == Le64(x);
    assert (Le64(x) + rest)[8..] == rest;
    Le64RoundTrip(x);
  }

  lemma {:induction false} GetCStringRoundTrip(s: string, rest: seq<u8>)
    requires IsByteString(s) && NulFree(s)
    ensures GetCString(CString(s) + rest) == Some((s, rest))
  {
    if s == [] {
      assert (CString(s) + rest)[1..] == rest;
    } else {
      var b := CString(s) + rest;
      assert b[1..] == CString(s[1..]) + rest;
      GetCStringRoundTrip(s[1..], rest);
      assert b[0] == s[0] as int && b[0] != 0;
      assert [b[0] as char] + s[1..] == s;
    }
  }
}
