/** Splitting and joining text, and whole numbers in it. */
module Texts {
  import opened Wrappers

  /** Where `c` is in `s`, first. */
  function Find(s: string, c: char): (r: Option<nat>)
    ensures r.Some? ==> r.value < |s| && s[r.value] == c && c !in s[..r.value]
    ensures r.None? ==> c !in s
  {
    if s == "" then None
    else if s[0] == c then Some(0)
    else
      var rest :- Find(s[1..], c);
      assert s[..rest + 1] == [s[0]] + s[1..][..rest];
      Some(rest + 1)
  }

  lemma {:induction false} FindAfter(head: string, c: char, tail: string)
    requires c !in head
    ensures Find(head + [c] + tail, c) == Some(|head|)
    decreases |head|
  {
    var s := head + [c] + tail;
    if head != "" {
      assert s[1..] == head[1..] + [c] + tail;
      FindAfter(head[1..], c, tail);
    }
  }

  /** The parts of `s` between its separators, of which there is always one. */
  function Split(s: string, sep: char): (parts: seq<string>)
    ensures parts != []
    decreases |s|
  {
    if s == "" then [""]
    else
      var rest := Split(s[1..], sep);
      if s[0] == sep then [""] + rest else [[s[0]] + rest[0]] + rest[1..]
  }

  lemma {:induction false} SplitHasNoSeparator(s: string, sep: char)
    ensures forall i :: 0 <= i < |Split(s, sep)| ==> sep !in Split(s, sep)[i]
  {
    if s != "" {
      SplitHasNoSeparator(s[1..], sep);
    }
  }

  /** `parts` with `sep` between them. */
  function Join(parts: seq<string>, sep: string): string {
    if parts == [] then ""
    else if |parts| == 1 then parts[0]
    else parts[0] + sep + Join(parts[1..], sep)
  }

  lemma {:induction false} SplitAfter(head: string, sep: char, tail: string)
    requires sep !in head
    ensures Split(head + [sep] + tail, sep) == [head] + Split(tail, sep)
    decreases |head|
  {
    var s := head + [sep] + tail;
    if head == "" {
      assert s[1..] == tail;
    } else {
      assert s[1..] == head[1..] + [sep] + tail;
      SplitAfter(head[1..], sep, tail);
      assert [head[0]] + head[1..] == head;
      assert ([head[1..]] + Split(tail, sep))[1..] == Split(tail, sep);
    }
  }

  lemma {:induction false} SplitWhole(part: string, sep: char)
    requires sep !in part
    ensures Split(part, sep) == [part]
  {
    if part != "" {
      SplitWhole(part[1..], sep);
      assert [part[0]] + part[1..] == part;
    }
  }

  lemma {:induction false} SplitPrefix(prefix: string, s: string, sep: char)
    requires sep !in prefix
    ensures Split(prefix + s, sep) == [prefix + Split(s, sep)[0]] + Split(s, sep)[1..]
  {
    var parts := Split(s, sep);
    if prefix == "" {
      assert prefix + s == s && prefix + parts[0] == parts[0];
    } else {
      assert (prefix + s)[1..] == prefix[1..] + s;
      SplitPrefix(prefix[1..], s, sep);
      assert [prefix[0]] + (prefix[1..] + Split(s, sep)[0]) == prefix + Split(s, sep)[0];
    }
  }

  /** Each part but the first with `pad` before it. */
  function Padded(parts: seq<string>, pad: string): (r: seq<string>)
    ensures |r| == |parts|
  {
    seq(|parts|, i requires 0 <= i < |parts| => if i == 0 then parts[0] else pad + parts[i])
  }

  /** Splitting undoes joining parts that hold no separator; what else was between them stays with
      the parts after it. */
  lemma {:induction false} SplitJoin(parts: seq<string>, sep: char, pad: string)
    requires parts != [] && sep !in pad && forall i :: 0 <= i < |parts| ==> sep !in parts[i]
    ensures Split(Join(parts, [sep] + pad), sep) == Padded(parts, pad)
    decreases |parts|
  {
    if |parts| == 1 {
      SplitWhole(parts[0], sep);
    } else {
      var rest := parts[1..];
      var tail := Join(rest, [sep] + pad);
      SplitJoin(rest, sep, pad);
      JoinedApart(parts, sep, pad);
      SplitAfter(parts[0], sep, pad + tail);
      SplitPrefix(pad, tail, sep);
    }
  }

  lemma JoinedApart(parts: seq<string>, sep: char, pad: string)
    requires |parts| > 1
    ensures Join(parts, [sep] + pad) == parts[0] + [sep] + (pad + Join(parts[1..], [sep] + pad))
  {
  }

  // ----- Whole numbers

  function Digit(n: nat): char
    requires n < 10
  {
    (48 + n) as char
  }

  /** The digits of a number. */
  function Digits(n: nat): string {
    if n < 10 then [Digit(n)] else Digits(n / 10) + [Digit(n % 10)]
  }

  /** A number in decimal. */
  function Decimal(n: int): string {
    if n < 0 then "-" + Digits(0 - n) else Digits(n)
  }

  function DecimalValue(s: string): Option<nat> {
    if s == "" then Some(0)
    else
      var high :- DecimalValue(s[..|s| - 1]);
      var last := s[|s| - 1];
      if '0' <= last <= '9' then Some(10 * high + (last as int - 48)) else None
  }

  const I64_MIN: int := -0x8000_0000_0000_0000
  const I64_MAX: int := 0x7fff_ffff_ffff_ffff

  type i64 = n: int | I64_MIN <= n <= I64_MAX

  /** `n`, when it fits 64 bits. */
  function Checked(n: int): Option<i64> {
    if I64_MIN <= n <= I64_MAX then Some(n) else None
  }

  /** At least one digit after a sign that may be there, and no more than 64 bits hold. */
  function ParseI64(s: string): Option<i64> {
    var signed := s != "" && (s[0] == '-' || s[0] == '+');
    var digits := if signed then s[1..] else s;
    if digits == "" then None
    else
      var size :- DecimalValue(digits);
      Checked(if signed && s[0] == '-' then 0 - size else size)
  }

  lemma {:induction false} DigitsRoundTrip(n: nat)
    ensures Digits(n) != "" && DecimalValue(Digits(n)) == Some(n)
    ensures forall i :: 0 <= i < |Digits(n)| ==> '0' <= Digits(n)[i] <= '9'
  {
    var none: string := "";
    if n < 10 {
      assert Digits(n)[..0] == none;
    } else {
      DigitsRoundTrip(n / 10);
      var s := Digits(n);
      assert s[..|s| - 1] == Digits(n / 10);
    }
  }

  lemma ParseSigned(sign: string, digits: string, size: nat)
    requires (sign == "" || sign == "-") && digits != "" && DecimalValue(digits) == Some(size)
    requires forall i :: 0 <= i < |digits| ==> '0' <= digits[i] <= '9'
    ensures ParseI64(sign + digits) == Checked(if sign == "" then size else 0 - size)
    ensures forall i :: 0 <= i < |sign + digits| ==> (sign + digits)[i] == '-' || '0' <= (sign + digits)[i] <= '9'
  {
    var s := sign + digits;
    if sign == "" {
      assert s == digits;
      assert s[0] != '-' && s[0] != '+';
    } else {
      assert s[0] == '-';
      assert s[1..] == digits;
    }
  }

  /** Every 64-bit number is read back from its decimal. */
  lemma DecimalRoundTrip(n: i64)
    ensures ParseI64(Decimal(n)) == Some(n)
    ensures Decimal(n) != ""
    ensures forall i :: 0 <= i < |Decimal(n)| ==> Decimal(n)[i] == '-' || '0' <= Decimal(n)[i] <= '9'
  {
    var size: nat := if n < 0 then 0 - n else n;
    DigitsRoundTrip(size);
    var sign, digits := if n < 0 then "-" else "", Digits(size);
    ParseSigned(sign, digits, size);
    DecimalIs(n, sign, digits);
  }

  lemma DecimalIs(n: int, sign: string, digits: string)
    requires sign == (if n < 0 then "-" else "") && digits == Digits(if n < 0 then 0 - n else n)
    ensures Decimal(n) == sign + digits
  {
    assert "" + digits == digits;
  }

  /** What Unicode calls white space. */
  predicate IsWhitespace(c: char) {
    || 9 <= c as int <= 13 || c == ' ' || c as int == 0x85 || c as int == 0xA0 || c as int == 0x1680
    || 0x2000 <= c as int <= 0x200A || c as int == 0x2028 || c as int == 0x2029 || c as int == 0x202F
    || c as int == 0x205F || c as int == 0x3000
  }

  function TrimStart(s: string): string {
    if s != "" && IsWhitespace(s[0]) then TrimStart(s[1..]) else s
  }

  function TrimEnd(s: string): string {
    if s != "" && IsWhitespace(s[|s| - 1]) then TrimEnd(s[..|s| - 1]) else s
  }

  function Trim(s: string): string {
    TrimEnd(TrimStart(s))
  }

  /** A decimal is read back past the space a list puts before it. */
  lemma TrimDecimal(n: i64)
    ensures Trim(Decimal(n)) == Decimal(n) && Trim(" " + Decimal(n)) == Decimal(n)
  {
    DecimalRoundTrip(n);
    var s := Decimal(n);
    assert !IsWhitespace(s[0]) && !IsWhitespace(s[|s| - 1]);
    assert (" " + s)[1..] == s;
  }
}
