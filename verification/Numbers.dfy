/** Unsigned numbers in text, as `from_str_radix` reads them. */
module Numbers {
  import opened Bytes
  import opened Wrappers

  function DigitOf(b: byte, radix: nat): (r: Option<nat>)
    ensures r.Some? ==> r.value < radix
  {
    var digit := if 0x30 <= b <= 0x39 then b - 0x30
                 else if 0x41 <= b <= 0x5a then b - 0x41 + 10
                 else if 0x61 <= b <= 0x7a then b - 0x61 + 10
                 else radix;
    if digit < radix then Some(digit) else None
  }

  /** A hexadecimal digit, in the case that is written. */
  function HexDigit(n: nat): byte
    requires n < 16
  {
    if n < 10 then 0x30 + n else 0x61 + n - 10
  }

  lemma DigitRoundTrip(n: nat)
    requires n < 16
    ensures DigitOf(HexDigit(n), 16) == Some(n) && HexDigit(n) != 0x2b
  {
  }

  /** The number a run of digits spells, the highest first. */
  function DigitsValue(code: seq<byte>, radix: nat): Option<nat> {
    if code == [] then Some(0)
    else
      var high :- DigitsValue(code[..|code| - 1], radix);
      var low :- DigitOf(code[|code| - 1], radix);
      Some(radix * high + low)
  }

  /** At least one digit, after a `+` that may be there, and a number under `limit`. */
  function ParseUnsigned(code: seq<byte>, radix: nat, limit: nat): (r: Option<nat>)
    ensures r.Some? ==> r.value < limit
  {
    var digits := if |code| > 1 && code[0] == 0x2b then code[1..] else code;
    if digits == [] then None
    else
      var value :- DigitsValue(digits, radix);
      if value < limit then Some(value) else None
  }

  /** `n` in octal, with no zero before it. */
  function Octal(n: nat): seq<byte> {
    if n < 8 then [0x30 + n] else Octal(n / 8) + [0x30 + n % 8]
  }

  lemma {:induction false} OctalRoundTrip(n: nat)
    ensures DigitsValue(Octal(n), 8) == Some(n)
    ensures Octal(n) != [] && forall i :: 0 <= i < |Octal(n)| ==> 0x30 <= Octal(n)[i] < 0x38
  {
    var code := Octal(n);
    if n < 8 {
      var none: seq<byte> := [];
      assert code[..0] == none;
    } else {
      OctalRoundTrip(n / 8);
      assert code[..|code| - 1] == Octal(n / 8);
    }
  }

  /** `n` in octal, after some zeros and a `+` or not. */
  ghost function PaddedOctal(plus: bool, zeros: nat, n: nat): seq<byte> {
    (if plus then [0x2b] else []) + (Zeros(zeros) + Octal(n))
  }

  ghost predicate IsOctal(code: seq<byte>, n: nat) {
    exists plus, zeros :: code == PaddedOctal(plus, zeros, n)
  }

  function Zeros(n: nat): (zeros: seq<byte>)
    ensures |zeros| == n && forall i :: 0 <= i < n ==> zeros[i] == 0x30
  {
    seq(n, i => 0x30)
  }

  lemma {:induction false} PaddedIsRead(n: nat, zeros: nat)
    ensures DigitsValue(Zeros(zeros) + Octal(n), 8) == Some(n)
    ensures forall i :: 0 <= i < |Zeros(zeros) + Octal(n)| ==> 0x30 <= (Zeros(zeros) + Octal(n))[i] < 0x38
    decreases n
  {
    OctalRoundTrip(n);
    var code := Zeros(zeros) + Octal(n);
    var high := code[..|code| - 1];
    if n < 8 {
      assert high == Zeros(zeros);
      ZerosAreRead(zeros);
    } else {
      PaddedIsRead(n / 8, zeros);
      assert high == Zeros(zeros) + Octal(n / 8);
    }
  }

  lemma {:induction false} ZerosAreRead(n: nat)
    ensures DigitsValue(Zeros(n), 8) == Some(0)
    decreases n
  {
    if n > 0 {
      ZerosAreRead(n - 1);
      assert Zeros(n)[..n - 1] == Zeros(n - 1);
    }
  }

  lemma {:induction false} PaddedIsWritten(code: seq<byte>, n: nat) returns (zeros: nat)
    requires code != [] && DigitsValue(code, 8) == Some(n)
    ensures code == Zeros(zeros) + Octal(n)
    decreases |code|
  {
    var high, last := code[..|code| - 1], code[|code| - 1];
    var above := DigitsValue(high, 8).value;
    assert code == high + [last];
    if high == [] {
      zeros := 0;
    } else {
      zeros := PaddedIsWritten(high, above);
      zeros := OneMoreDigit(zeros, above, last);
    }
  }

  lemma OneMoreDigit(zeros: nat, above: nat, last: byte) returns (more: nat)
    requires 0x30 <= last < 0x38
    ensures Zeros(zeros) + Octal(above) + [last] == Zeros(more) + Octal(8 * above + (last - 0x30))
  {
    var n := 8 * above + (last - 0x30);
    assert n / 8 == above && n % 8 == last - 0x30;
    if above == 0 {
      more := zeros + 1;
      assert Zeros(more) == Zeros(zeros) + [0x30];
    } else {
      more := zeros;
      assert Octal(n) == Octal(above) + [last];
    }
  }

  /** Digits are read as a number, in octal, if and only if they are that number in octal. */
  lemma OctalIsExact(code: seq<byte>, limit: nat, n: nat)
    ensures ParseUnsigned(code, 8, limit) == Some(n) <==> n < limit && IsOctal(code, n)
  {
    if ParseUnsigned(code, 8, limit) == Some(n) {
      var plus := |code| > 1 && code[0] == 0x2b;
      var zeros := PaddedIsWritten(if plus then code[1..] else code, n);
      assert code == PaddedOctal(plus, zeros, n);
    }
    if plus, zeros :| n < limit && code == PaddedOctal(plus, zeros, n) {
      OctalIsRead(plus, zeros, limit, n);
    }
  }

  lemma OctalIsRead(plus: bool, zeros: nat, limit: nat, n: nat)
    requires n < limit
    ensures ParseUnsigned(PaddedOctal(plus, zeros, n), 8, limit) == Some(n)
  {
    PaddedIsRead(n, zeros);
    OctalRoundTrip(n);
    var code, digits := PaddedOctal(plus, zeros, n), Zeros(zeros) + Octal(n);
    if plus {
      assert code[1..] == digits;
    } else {
      assert code == digits && digits[0] != 0x2b;
    }
  }

  lemma NoSpaceInOctal(code: seq<byte>, n: nat)
    requires IsOctal(code, n)
    ensures 0x20 !in code
  {
    var plus, zeros :| code == PaddedOctal(plus, zeros, n);
    OctalRoundTrip(n);
  }

  // ----- Bytes in hexadecimal

  /** The bytes that pairs of digits spell, in either case. */
  function HexBytes(code: seq<byte>): (r: Option<seq<byte>>)
    ensures r.Some? ==> |code| == 2 * |r.value|
  {
    if |code| < 2 then if code == [] then Some([]) else None
    else
      var high :- DigitOf(code[0], 16);
      var low :- DigitOf(code[1], 16);
      var rest :- HexBytes(code[2..]);
      Some([16 * high + low] + rest)
  }

  /** The hexadecimal digits, in the case that is written and in the other one. */
  const HEX_DIGITS := [0x30, 0x31, 0x32, 0x33, 0x34, 0x35, 0x36, 0x37, 0x38, 0x39, 0x61, 0x62, 0x63, 0x64, 0x65, 0x66]
  const UPPER_DIGITS := [0x30, 0x31, 0x32, 0x33, 0x34, 0x35, 0x36, 0x37, 0x38, 0x39, 0x41, 0x42, 0x43, 0x44, 0x45, 0x46]

  /** Whether `b` is a digit of `n`. */
  ghost predicate IsDigit(b: byte, n: nat) {
    n < 16 && (b == HEX_DIGITS[n] || b == UPPER_DIGITS[n])
  }

  lemma DigitIsExact(b: byte, n: nat)
    ensures DigitOf(b, 16) == Some(n) <==> IsDigit(b, n)
  {
  }

  /** Whether `code` has two hexadecimal digits for each byte, in either case. */
  ghost predicate IsHex(code: seq<byte>, bytes: seq<byte>) {
    && |code| == 2 * |bytes|
    && forall i :: 0 <= i < |bytes| ==> IsDigit(code[2 * i], bytes[i] / 16) && IsDigit(code[2 * i + 1], bytes[i] % 16)
  }

  function Hex(bytes: seq<byte>): (code: seq<byte>)
    ensures |code| == 2 * |bytes|
  {
    if bytes == [] then [] else [HexDigit(bytes[0] / 16), HexDigit(bytes[0] % 16)] + Hex(bytes[1..])
  }

  lemma {:induction false} HexIsHex(bytes: seq<byte>)
    ensures IsHex(Hex(bytes), bytes)
  {
    if bytes != [] {
      HexIsHex(bytes[1..]);
      DigitRoundTrip(bytes[0] / 16);
      DigitRoundTrip(bytes[0] % 16);
      DigitIsExact(Hex(bytes)[0], bytes[0] / 16);
      DigitIsExact(Hex(bytes)[1], bytes[0] % 16);
      assert Hex(bytes)[2..] == Hex(bytes[1..]);
      HexApart(Hex(bytes), bytes);
    }
  }

  lemma HexApart(code: seq<byte>, bytes: seq<byte>)
    requires |code| == 2 * |bytes| && bytes != []
    ensures IsHex(code, bytes)
       <==> IsDigit(code[0], bytes[0] / 16) && IsDigit(code[1], bytes[0] % 16) && IsHex(code[2..], bytes[1..])
  {
    var rest, more := code[2..], bytes[1..];
    assert forall i :: 0 <= i < |more| ==>
             rest[2 * i] == code[2 * (i + 1)] && rest[2 * i + 1] == code[2 * (i + 1) + 1] && more[i] == bytes[i + 1];
    if IsHex(code, bytes) {
      assert IsDigit(code[2 * 0], bytes[0] / 16) && IsDigit(code[2 * 0 + 1], bytes[0] % 16);
      forall i | 0 <= i < |more|
        ensures IsDigit(rest[2 * i], more[i] / 16) && IsDigit(rest[2 * i + 1], more[i] % 16)
      {
        assert IsDigit(code[2 * (i + 1)], bytes[i + 1] / 16);
      }
    }
    if IsDigit(code[0], bytes[0] / 16) && IsDigit(code[1], bytes[0] % 16) && IsHex(rest, more) {
      forall i | 0 <= i < |bytes|
        ensures IsDigit(code[2 * i], bytes[i] / 16) && IsDigit(code[2 * i + 1], bytes[i] % 16)
      {
        if i > 0 {
          assert IsDigit(rest[2 * (i - 1)], more[i - 1] / 16) && IsDigit(rest[2 * (i - 1) + 1], more[i - 1] % 16);
        }
      }
    }
  }

  /** Digits are read as the bytes they spell, and as no others. */
  lemma {:induction false} HexIsExact(code: seq<byte>, bytes: seq<byte>)
    ensures HexBytes(code) == Some(bytes) <==> IsHex(code, bytes)
  {
    if bytes != [] && |code| == 2 * |bytes| {
      HexIsExact(code[2..], bytes[1..]);
      HexApart(code, bytes);
      DigitIsExact(code[0], bytes[0] / 16);
      DigitIsExact(code[1], bytes[0] % 16);
      assert [bytes[0]] + bytes[1..] == bytes;
      HexIsTwo(code, bytes);
    }
  }

  lemma HexIsTwo(code: seq<byte>, bytes: seq<byte>)
    requires bytes != [] && |code| == 2 * |bytes|
    ensures HexBytes(code) == Some(bytes)
       <==> && DigitOf(code[0], 16) == Some(bytes[0] / 16) && DigitOf(code[1], 16) == Some(bytes[0] % 16)
            && HexBytes(code[2..]) == Some(bytes[1..])
  {
    assert [bytes[0]] + bytes[1..] == bytes;
    if HexBytes(code) == Some(bytes) {
      assert bytes[0] == 16 * DigitOf(code[0], 16).value + DigitOf(code[1], 16).value;
      assert bytes[1..] == HexBytes(code[2..]).value;
    }
  }
}
