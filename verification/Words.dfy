/** Bytes and little-endian words. */
module Words {

  type byte = b: int | 0 <= b < 256

  datatype Option<+T> = None | Some(value: T)

  const U32: nat := 0x1_0000_0000

  function Le16(s: seq<byte>, i: nat): (v: nat)
    requires i + 2 <= |s|
    ensures v < 0x1_0000
  {
    s[i] + 0x100 * (s[i + 1] as int)
  }

  function Le32(s: seq<byte>, i: nat): (v: nat)
    requires i + 4 <= |s|
    ensures v < U32
  {
    Le16(s, i) + 0x1_0000 * Le16(s, i + 2)
  }

  function Bytes16(v: nat): (s: seq<byte>)
    requires v < 0x1_0000
    ensures |s| == 2 && Le16(s, 0) == v
  {
    [v % 0x100, v / 0x100]
  }

  function Bytes32(v: nat): (s: seq<byte>)
    requires v < U32
    ensures |s| == 4 && Le32(s, 0) == v
  {
    Bytes16(v % 0x1_0000) + Bytes16(v / 0x1_0000)
  }

  lemma Bytes16Of(s: seq<byte>, i: nat)
    requires i + 2 <= |s|
    ensures Bytes16(Le16(s, i)) == s[i..i + 2]
  {
  }

  lemma Bytes32Of(s: seq<byte>, i: nat)
    requires i + 4 <= |s|
    ensures Bytes32(Le32(s, i)) == s[i..i + 4]
  {
    assert Le32(s, i) % 0x1_0000 == Le16(s, i) && Le32(s, i) / 0x1_0000 == Le16(s, i + 2);
    hide Le16, Le32, Bytes16;
    Bytes16Of(s, i);
    Bytes16Of(s, i + 2);
    assert s[i..i + 4] == s[i..i + 2] + s[i + 2..i + 4];
  }

  /** 32-bit addition. */
  function Add32(a: nat, b: nat): (r: nat)
    requires a < U32 && b <= U32
    ensures r < U32
  {
    if a + b < U32 then a + b else a + b - U32
  }

  /** 32-bit subtraction. */
  function Sub32(a: nat, b: nat): (r: nat)
    requires a < U32 && b < U32
    ensures r < U32
  {
    if a >= b then a - b else a + U32 - b
  }

  /** They are the sum and the difference modulo 2^32. */
  lemma WordArithmetic(a: nat, b: nat)
    requires a < U32 && b < U32
    ensures Add32(a, b) == (a + b) % U32 && Sub32(a, b) == (a - b) % U32
  {
  }

  // ---------------------------------------------------------------------------------------
  // Byte by byte
  // ---------------------------------------------------------------------------------------

  /** The low byte comes first. */
  lemma Le16Bytes(s: seq<byte>, i: nat)
    requires i + 2 <= |s|
    ensures Le16(s, i) % 0x100 == s[i] && Le16(s, i) / 0x100 == s[i + 1]
  {
  }

  /** From the lowest byte to the highest. */
  lemma Le32Bytes(s: seq<byte>, i: nat)
    requires i + 4 <= |s|
    ensures var v := Le32(s, i);
            && v % 0x100 == s[i] && v / 0x100 % 0x100 == s[i + 1]
            && v / 0x1_0000 % 0x100 == s[i + 2] && v / 0x100_0000 == s[i + 3]
  {
    Le16Bytes(s, i);
    Le16Bytes(s, i + 2);
    var lo, hi := Le16(s, i), Le16(s, i + 2);
    hide Le16;
    var v := lo + 0x1_0000 * hi;
    assert v % 0x100 == lo % 0x100 && v / 0x100 % 0x100 == lo / 0x100;
    assert v / 0x1_0000 % 0x100 == hi % 0x100 && v / 0x100_0000 == hi / 0x100;
  }

  lemma Bytes16Are(v: nat)
    requires v < 0x1_0000
    ensures Bytes16(v) == [v % 0x100, v / 0x100]
  {
    Le16Bytes(Bytes16(v), 0);
  }

  lemma Bytes32Are(v: nat)
    requires v < U32
    ensures Bytes32(v) == [v % 0x100, v / 0x100 % 0x100, v / 0x1_0000 % 0x100, v / 0x100_0000]
  {
    Le32Bytes(Bytes32(v), 0);
  }
}
