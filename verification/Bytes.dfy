/** Bytes, and the powers of two that shifts stand for. */
module Bytes {

  type byte = b: int | 0 <= b < 256

  const U64_LIMIT: nat := 0x1_0000_0000_0000_0000
  /** `u64::MAX >> 4` and `u64::MAX >> 7`. */
  const U64_SHIFTED_4: nat := 0x0FFF_FFFF_FFFF_FFFF
  const U64_SHIFTED_7: nat := 0x01FF_FFFF_FFFF_FFFF
  const U32_LIMIT: nat := 0x1_0000_0000

  /** Whether `code` stands at `pos` of `data`. */
  ghost predicate StandsAt<T>(data: seq<T>, pos: nat, code: seq<T>) {
    pos + |code| <= |data| && forall i :: 0 <= i < |code| ==> data[pos + i] == code[i]
  }

  lemma StandsApart<T>(data: seq<T>, pos: nat, left: seq<T>, right: seq<T>)
    requires StandsAt(data, pos, left + right)
    ensures StandsAt(data, pos, left) && StandsAt(data, pos + |left|, right)
  {
    forall i | 0 <= i < |left|
      ensures data[pos + i] == left[i]
    {
      assert (left + right)[i] == left[i];
    }
    forall i | 0 <= i < |right|
      ensures data[pos + |left| + i] == right[i]
    {
      assert (left + right)[|left| + i] == right[i];
    }
  }

  /** Bytes as the number they spell, the lowest first. */
  function LittleEndian(code: seq<byte>): nat {
    if code == [] then 0 else code[0] + 256 * LittleEndian(code[1..])
  }

  function Pow2(n: nat): (p: nat)
    ensures p >= 1
  {
    if n == 0 then 1 else 2 * Pow2(n - 1)
  }

  /** `part << shift`, with every bit kept. */
  function Shl(part: nat, shift: nat): nat {
    part * Pow2(shift)
  }

  /** A number above its seven low bits, shifted as one. */
  lemma ShlSpread(part: nat, more: nat, shift: nat)
    ensures Shl(part + 128 * more, shift) == Shl(part, shift) + Shl(more, shift + 7)
  {
    Pow2Seven(shift);
  }

  lemma ShlByte(low: nat, high: nat, shift: nat)
    ensures Shl(low + 256 * high, shift) == Shl(low, shift) + Shl(high, shift + 8)
  {
    Pow2Seven(shift);
    assert Pow2(shift + 8) == 256 * Pow2(shift);
  }

  lemma Pow2Seven(n: nat)
    ensures Pow2(n + 7) == 128 * Pow2(n)
  {
    assert Pow2(n + 7) == 2 * Pow2(n + 6) && Pow2(n + 6) == 2 * Pow2(n + 5) && Pow2(n + 5) == 2 * Pow2(n + 4);
    assert Pow2(n + 4) == 2 * Pow2(n + 3) && Pow2(n + 3) == 2 * Pow2(n + 2) && Pow2(n + 2) == 2 * Pow2(n + 1);
  }

  lemma Pow2At64(n: nat)
    requires n == 64
    ensures Pow2(n) == U64_LIMIT
  {
    var z := n - 64;
    assert Pow2(z) == 1;
    Pow2Seven(z);
    Pow2Seven(z + 7);
    Pow2Seven(z + 14);
    Pow2Seven(z + 21);
    Pow2Seven(z + 28);
    Pow2Seven(z + 35);
    Pow2Seven(z + 42);
    Pow2Seven(z + 49);
    Pow2Seven(z + 56);
    assert Pow2(n) == 2 * Pow2(z + 63);
  }

  lemma {:induction false} Pow2Monotone(a: nat, b: nat)
    requires a <= b
    ensures Pow2(a) <= Pow2(b)
    decreases b - a
  {
    if a < b {
      Pow2Monotone(a, b - 1);
    }
  }
}
