/** The two variable-length integers of a pack, read back from what writes them. */
module VarInts {
  import opened Bytes
  import opened Cursors
  import opened Wrappers

  /** A run of bytes that says where it ends: all but its last one have the high bit. */
  predicate SelfTerminated(code: seq<byte>) {
    && code != []
    && code[|code| - 1] < 128
    && forall i :: 0 <= i < |code| - 1 ==> code[i] >= 128
  }

  // ----- LEB128

  /** The number a run of bytes spells, seven bits each, the lowest first. */
  function Leb128Value(code: seq<byte>): nat {
    if code == [] then 0 else code[0] % 128 + 128 * Leb128Value(code[1..])
  }

  function EncodeLeb128(v: nat): (code: seq<byte>)
    ensures code != []
  {
    if v < 128 then [v] else [128 + v % 128] + EncodeLeb128(v / 128)
  }

  /** What is written says where it ends, and spells the number it was written for. */
  lemma {:induction false} EncodeLeb128Spells(v: nat)
    ensures SelfTerminated(EncodeLeb128(v)) && Leb128Value(EncodeLeb128(v)) == v
  {
    if v >= 128 {
      EncodeLeb128Spells(v / 128);
      assert EncodeLeb128(v)[1..] == EncodeLeb128(v / 128);
    }
  }

  /** What is read is the exact value, and a number is refused when and only when it does not
      fit 64 bits or is spelled in more than ten bytes. */
  lemma {:induction false} Leb128IsExactFrom(data: seq<byte>, pos: nat, code: seq<byte>, shift: nat)
    requires SelfTerminated(code)
    requires StandsAt(data, pos, code)
    requires shift % 7 == 0 && shift <= 70
    ensures Leb128From(data, pos, shift)
         == if shift + 7 * |code| <= 70 && Leb128Value(code) < (if shift < 64 then Pow2(64 - shift) else 0)
            then Success(Parsed(Leb128Value(code), pos + |code|))
            else Failure(InvalidFormat)
    decreases |code|
  {
    assert data[pos + 0] == code[0];
    if |code| == 1 {
      assert Leb128Value(code) == code[0] % 128;
    } else {
      var rest := code[1..];
      if shift < 64 {
        Leb128IsExactFrom(data, pos + 1, rest, shift + 7);
        if shift + 7 <= 64 {
          Pow2Seven(64 - (shift + 7));
        }
      }
    }
  }

  lemma Leb128IsExact(data: seq<byte>, pos: nat, code: seq<byte>)
    requires SelfTerminated(code)
    requires StandsAt(data, pos, code)
    ensures Leb128At(data, pos)
         == if |code| <= 10 && Leb128Value(code) < U64_LIMIT
            then Success(Parsed(Leb128Value(code), pos + |code|))
            else Failure(InvalidFormat)
  {
    Pow2At64(64 - 0);
    Leb128IsExactFrom(data, pos, code, 0);
  }

  /** What is read is a run that says where it ends. */
  lemma {:induction false} Leb128Ends(data: seq<byte>, pos: nat, shift: nat)
    requires Leb128From(data, pos, shift).Success?
    ensures SelfTerminated(data[pos..Leb128From(data, pos, shift).value.next])
    decreases |data| - pos
  {
    var next := Leb128From(data, pos, shift).value.next;
    var code := data[pos..next];
    if data[pos] >= 128 {
      Leb128Ends(data, pos + 1, shift + 7);
      assert code[1..] == data[pos + 1..next];
      assert forall i :: 1 <= i < |code| ==> code[i] == code[1..][i - 1];
    }
  }

  lemma {:induction false} EncodeLeb128Length(v: nat, n: nat)
    requires v < Pow2(7 * n) && n > 0
    ensures |EncodeLeb128(v)| <= n
    decreases n
  {
    if v >= 128 {
      Pow2Seven(7 * (n - 1));
      EncodeLeb128Length(v / 128, n - 1);
    }
  }

  /** Every 64-bit number is read back from what writes it, wherever it stands. */
  lemma Leb128RoundTrip(v: nat, data: seq<byte>, pos: nat)
    requires v < U64_LIMIT
    requires StandsAt(data, pos, EncodeLeb128(v))
    ensures Leb128At(data, pos) == Success(Parsed(v, pos + |EncodeLeb128(v)|))
  {
    Pow2At64(64 - 0);
    var n := 63 + 7;
    Pow2Monotone(64, n);
    EncodeLeb128Length(v, n / 7);
    EncodeLeb128Spells(v);
    Leb128IsExact(data, pos, EncodeLeb128(v));
  }

  // ----- The distance of an offset delta

  /** The bytes with which a distance goes on, each with the high bit. */
  function OffsetPrefix(w: nat): seq<byte> {
    if w < 128 then [128 + w] else OffsetPrefix(w / 128 - 1) + [128 + w % 128]
  }

  function EncodeOffset(v: nat): seq<byte> {
    if v < 128 then [v] else OffsetPrefix(v / 128 - 1) + [v % 128]
  }

  /** One more byte of a distance, after those that made `w / 128 - 1`. */
  lemma OffsetStep(data: seq<byte>, pos: nat, w: nat)
    requires 128 <= w < U64_LIMIT && pos < |data| && data[pos] % 128 == w % 128
    ensures OffsetMore(data, pos, w / 128 - 1)
         == if data[pos] < 128 then Success(Parsed(w, pos + 1)) else OffsetMore(data, pos + 1, w)
  {
    assert w == w / 128 * 128 + w % 128 && w / 128 <= U64_SHIFTED_7;
  }

  lemma {:induction false} OffsetPrefixRead(w: nat, data: seq<byte>, pos: nat)
    requires w < U64_LIMIT
    requires StandsAt(data, pos, OffsetPrefix(w))
    ensures OffsetAt(data, pos) == OffsetMore(data, pos + |OffsetPrefix(w)|, w)
  {
    if w < 128 {
      assert data[pos + 0] == OffsetPrefix(w)[0];
    } else {
      var shorter, last := OffsetPrefix(w / 128 - 1), 128 + w % 128;
      StandsApart(data, pos, shorter, [last]);
      OffsetPrefixRead(w / 128 - 1, data, pos);
      assert data[pos + |shorter| + 0] == [last][0];
      assert last % 128 == w % 128;
      OffsetStep(data, pos + |shorter|, w);
    }
  }

  /** Every 64-bit distance is read back from what writes it, wherever it stands. */
  lemma OffsetRoundTrip(v: nat, data: seq<byte>, pos: nat)
    requires v < U64_LIMIT
    requires StandsAt(data, pos, EncodeOffset(v))
    ensures OffsetAt(data, pos) == Success(Parsed(v, pos + |EncodeOffset(v)|))
  {
    if v < 128 {
      assert data[pos + 0] == [v][0];
    } else {
      var prefix := OffsetPrefix(v / 128 - 1);
      StandsApart(data, pos, prefix, [v % 128]);
      OffsetPrefixRead(v / 128 - 1, data, pos);
      assert data[pos + |prefix| + 0] == [v % 128][0];
      OffsetStep(data, pos + |prefix|, v);
    }
  }

  lemma LowSeven(high: nat, low: nat)
    requires low < 128
    ensures (high * 128 + low) / 128 == high && (high * 128 + low) % 128 == low
  {
  }

  lemma {:induction false} OffsetMoreUnique(data: seq<byte>, start: nat, pos: nat, w: nat)
    requires start <= pos <= |data| && data[start..pos] == OffsetPrefix(w)
    requires OffsetMore(data, pos, w).Success?
    ensures var read := OffsetMore(data, pos, w).value;
            read.next <= |data| && data[start..read.next] == EncodeOffset(read.value)
    decreases |data| - pos
  {
    var more := (w + 1) * 128 + data[pos] % 128;
    LowSeven(w + 1, data[pos] % 128);
    assert data[start..pos + 1] == data[start..pos] + [data[pos]];
    if data[pos] >= 128 {
      OffsetMoreUnique(data, start, pos + 1, more);
    }
  }

  /** No distance has two spellings: what was read is what would be written. */
  lemma OffsetUnique(data: seq<byte>, pos: nat)
    requires OffsetAt(data, pos).Success?
    ensures var read := OffsetAt(data, pos).value;
            read.value < U64_LIMIT && data[pos..read.next] == EncodeOffset(read.value)
  {
    assert data[pos..pos + 1] == [data[pos]];
    if data[pos] >= 128 {
      OffsetMoreUnique(data, pos, pos + 1, data[pos] % 128);
    }
  }

  /** The number a self-terminated run spells as a distance, however large. */
  function OffsetValue(code: seq<byte>): nat
    requires code != []
  {
    var last := code[|code| - 1] % 128;
    if |code| == 1 then last else (OffsetValue(code[..|code| - 1]) + 1) * 128 + last
  }

  lemma {:induction false} OffsetMoreExact(data: seq<byte>, pos: nat, code: seq<byte>, n: nat)
    requires SelfTerminated(code) && 0 < n < |code|
    requires StandsAt(data, pos, code)
    ensures OffsetMore(data, pos + n, OffsetValue(code[..n]))
         == if OffsetValue(code) < U64_LIMIT
            then Success(Parsed(OffsetValue(code), pos + |code|)) else Failure(InvalidFormat)
    decreases |code| - n
  {
    assert data[pos + n] == code[n];
    assert code[..n + 1][..n] == code[..n];
    OffsetValueGrows(code, n + 1);
    if n + 1 < |code| {
      OffsetMoreExact(data, pos, code, n + 1);
    } else {
      assert code[..n + 1] == code;
    }
  }

  lemma {:induction false} OffsetValueGrows(code: seq<byte>, n: nat)
    requires 0 < n <= |code|
    ensures OffsetValue(code[..n]) <= OffsetValue(code)
    decreases |code|
  {
    if n < |code| {
      var shorter := code[..|code| - 1];
      assert shorter[..n] == code[..n];
      OffsetValueGrows(shorter, n);
    } else {
      assert code[..n] == code;
    }
  }

  /** A run of bytes is refused as a distance when and only when it spells more than 64 bits. */
  lemma OffsetIsExact(data: seq<byte>, pos: nat, code: seq<byte>)
    requires SelfTerminated(code)
    requires StandsAt(data, pos, code)
    ensures OffsetAt(data, pos)
         == if OffsetValue(code) < U64_LIMIT
            then Success(Parsed(OffsetValue(code), pos + |code|)) else Failure(InvalidFormat)
  {
    assert data[pos + 0] == code[0];
    assert code[..1] == [code[0]];
    if |code| > 1 {
      OffsetMoreExact(data, pos, code, 1);
    } else {
      assert code == [code[0]];
    }
  }
}
