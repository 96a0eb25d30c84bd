/** The path of an element of an array, written and read back. */
module ElementPaths {
  import opened Subscripts
  import opened Texts
  import opened Wrappers

  // ----- Writing

  /** The size of a dimension as a writer takes it: at least one, and nothing when it does not fit. */
  function SizeOf(dim: Dim): (r: Option<int>)
    ensures r.Some? ==> r.value >= 1
  {
    var span :- Checked(dim.1 - dim.0);
    var size :- Checked(span + 1);
    Some(if size < 1 then 1 else size)
  }

  /** The row an index is in, in rows of `size`, and its place in that row. */
  function RowOf(rem: nat, size: int): (row: nat)
    requires size >= 1
  {
    rem / size
  }

  function PlaceIn(rem: nat, size: int): (place: nat)
    requires size >= 1
    ensures place < size
  {
    rem % size
  }

  /** The subscripts of the element at the index `rem`, the last dimension first. */
  function SubsOf(dims: seq<Dim>, rem: nat): (r: Option<seq<int>>)
    ensures r.Some? ==> |r.value| == |dims|
    decreases |dims|
  {
    if dims == [] then Some([])
    else
      var last := dims[|dims| - 1];
      var size :- SizeOf(last);
      var sub :- Checked(last.0 + PlaceIn(rem, size));
      var rest :- SubsOf(dims[..|dims| - 1], RowOf(rem, size));
      Some(rest + [sub])
  }

  function Decimals(subs: seq<int>): (r: seq<string>)
    ensures |r| == |subs|
  {
    seq(|subs|, i requires 0 <= i < |subs| => Decimal(subs[i]))
  }

  function Bracketed(subs: seq<int>): string {
    "[" + Join(Decimals(subs), ", ") + "]"
  }

  /** The path of the element at the index `flat`. Bounds that span too much leave the index itself
      to say which element it is. */
  function ElementPath(path: string, flat: nat, dims: seq<Dim>): string {
    match if dims == [] then None else SubsOf(dims, flat)
    case None => path + "[" + Decimal(flat) + "]"
    case Some(subs) => path + Bracketed(subs)
  }

  /** Subscripts, when there are any, and more after them. */
  ghost function Suffixed<T>(head: Option<seq<T>>, tail: seq<T>): Option<seq<T>> {
    match head case None => None case Some(subs) => Some(subs + tail)
  }

  lemma SuffixedNothing<T>(head: Option<seq<T>>, tail: seq<T>)
    requires tail == []
    ensures Suffixed(head, tail) == head
  {
    if head.Some? {
      assert head.value + tail == head.value;
    }
  }

  lemma SuffixedTwice<T>(head: Option<seq<T>>, middle: seq<T>, tail: seq<T>)
    ensures Suffixed(Suffixed(head, middle), tail) == Suffixed(head, middle + tail)
  {
    if head.Some? {
      assert (head.value + middle) + tail == head.value + (middle + tail);
    }
  }

  method WriteElementPath(path: string, flat: nat, dims: seq<Dim>) returns (r: string)
    ensures r == ElementPath(path, flat, dims)
  {
    if dims == [] {
      return path + "[" + Decimal(flat) + "]";
    }
    var subs := new int[|dims|];
    var rem: nat := flat;
    assert dims[..|dims|] == dims;
    SuffixedNothing(SubsOf(dims, flat), subs[|dims|..]);
    for d := |dims| downto 0
      invariant Suffixed(SubsOf(dims[..d], rem), subs[d..]) == SubsOf(dims, flat)
    {
      assert dims[..d + 1][..d] == dims[..d];
      var size := SizeOf(dims[d]);
      if size.None? {
        return path + "[" + Decimal(flat) + "]";
      }
      var sub := Checked(dims[d].0 + PlaceIn(rem, size.value));
      if sub.None? {
        return path + "[" + Decimal(flat) + "]";
      }
      ghost var tail := subs[d + 1..];
      subs[d] := sub.value;
      rem := RowOf(rem, size.value);
      assert subs[d..] == [sub.value] + tail;
      SuffixedTwice(SubsOf(dims[..d], rem), [sub.value], tail);
    }
    assert [] + subs[0..] == subs[..];
    return path + Bracketed(subs[..]);
  }

  // ----- Reading

  function ParseSubs(parts: seq<string>): (r: Option<seq<int>>)
    ensures r.Some? ==> |r.value| == |parts|
  {
    if parts == [] then Some([])
    else
      var first :- ParseI64(Trim(parts[0]));
      var rest :- ParseSubs(parts[1..]);
      Some([first] + rest)
  }

  predicate IsCut(c: char) {
    c == '.' || c == '[' || c == '^'
  }

  /** How long the name is that `s` starts with. */
  function NameLength(s: string): (n: nat)
    ensures n <= |s|
  {
    if s == "" || IsCut(s[0]) then 0 else 1 + NameLength(s[1..])
  }

  /** The accessors a path has after its stem: `^`, subscripts in chained and comma forms, and names. */
  function Tokenize(rest: string): Option<seq<Access>>
    decreases |rest|
  {
    if rest == "" then Some([])
    else
      var r := rest[1..];
      if rest[0] == '^' then
        var more :- Tokenize(r);
        Some([Deref] + more)
      else if rest[0] == '[' then
        var end :- Find(r, ']');
        var subs :- ParseSubs(Split(r[..end], ','));
        var more :- Tokenize(r[end + 1..]);
        Some(Indices(subs) + more)
      else if rest[0] == '.' && NameLength(r) > 0 then
        var more :- Tokenize(r[NameLength(r)..]);
        Some([Field(r[..NameLength(r)])] + more)
      else None
  }

  // ----- What accessors are

  ghost predicate IsName(name: string) {
    name != "" && '.' !in name && '[' !in name && '^' !in name
  }

  /** Whether a text is a `^`, a name after a dot, or numbers in brackets with commas between them, and the
      accessors it stands for. */
  ghost predicate IsPart(text: string, toks: seq<Access>) {
    || (text == "^" && toks == [Deref])
    || (text != "" && text[0] == '.' && IsName(text[1..]) && toks == [Field(text[1..])])
    || IsList(text, toks)
  }

  ghost predicate IsList(text: string, toks: seq<Access>) {
    && |text| > 1 && text[0] == '[' && text[|text| - 1] == ']' && ']' !in text[1..|text| - 1]
    && exists subs :: ParseSubs(Split(text[1..|text| - 1], ',')) == Some(subs) && toks == Indices(subs)
  }

  /** Whether `rest` is such texts, one after the other. */
  ghost predicate AreParts(rest: string, parts: seq<string>, toks: seq<Access>)
    decreases |parts|
  {
    if parts == [] then rest == "" && toks == []
    else
      && parts[0] <= rest
      && exists n: nat :: StartsWith(parts, toks, n) && AreParts(rest[|parts[0]|..], parts[1..], toks[n..])
  }

  ghost predicate StartsWith(parts: seq<string>, toks: seq<Access>, n: nat)
    requires parts != []
  {
    n <= |toks| && IsPart(parts[0], toks[..n])
  }

  lemma {:induction false} NameEnds(name: string, tail: string)
    requires '.' !in name && '[' !in name && '^' !in name && (tail == "" || IsCut(tail[0]))
    ensures NameLength(name + tail) == |name|
    decreases |name|
  {
    if name == "" {
      assert name + tail == tail;
    } else {
      assert (name + tail)[1..] == name[1..] + tail;
      NameEnds(name[1..], tail);
    }
  }

  lemma {:induction false} NameIs(s: string)
    ensures var name := s[..NameLength(s)]; '.' !in name && '[' !in name && '^' !in name
    ensures var tail := s[NameLength(s)..]; tail == "" || IsCut(tail[0])
  {
    if s != "" && !IsCut(s[0]) {
      NameIs(s[1..]);
      assert s[..NameLength(s)] == [s[0]] + s[1..][..NameLength(s[1..])];
      assert s[NameLength(s)..] == s[1..][NameLength(s[1..])..];
    }
  }

  lemma FirstPart(part: string, first: seq<Access>, rest: string, parts: seq<string>, more: seq<Access>)
    returns (all: seq<string>)
    requires IsPart(part, first) && AreParts(rest, parts, more)
    ensures AreParts(part + rest, all, first + more)
  {
    all := [part] + parts;
    var toks := first + more;
    assert (part + rest)[|part|..] == rest && all[1..] == parts && toks[..|first|] == first && toks[|first|..] == more;
    assert StartsWith(all, toks, |first|);
  }

  lemma ReadName(name: string, tail: string)
    requires IsName(name) && (tail == "" || IsCut(tail[0]))
    ensures Tokenize("." + name + tail) == Prefixed([Field(name)], Tokenize(tail))
  {
    var rest := "." + name + tail;
    assert rest[1..] == name + tail;
    NameEnds(name, tail);
    assert rest[1..][..|name|] == name && rest[1..][|name|..] == tail;
  }

  lemma ReadSubs(inner: string, subs: seq<int>, tail: string)
    requires ']' !in inner && ParseSubs(Split(inner, ',')) == Some(subs)
    ensures Tokenize("[" + inner + "]" + tail) == Prefixed(Indices(subs), Tokenize(tail))
  {
    var rest := "[" + inner + "]" + tail;
    assert rest[1..] == inner + [']'] + tail;
    FindAfter(inner, ']', tail);
    assert rest[1..][..|inner|] == inner && rest[1..][|inner| + 1..] == tail;
  }

  lemma ListApart(part: string, first: seq<Access>) returns (inner: string, subs: seq<int>)
    requires IsList(part, first)
    ensures part == "[" + inner + "]" && first == Indices(subs)
    ensures ']' !in inner && ParseSubs(Split(inner, ',')) == Some(subs)
  {
    inner := part[1..|part| - 1];
    subs :| ParseSubs(Split(inner, ',')) == Some(subs) && first == Indices(subs);
  }

  lemma ReadPart(part: string, first: seq<Access>, tail: string)
    requires IsPart(part, first) && (tail == "" || IsCut(tail[0]))
    ensures Tokenize(part + tail) == Prefixed(first, Tokenize(tail))
  {
    if IsList(part, first) {
      var inner, subs := ListApart(part, first);
      ReadSubs(inner, subs, tail);
    } else if part == "^" {
      assert (part + tail)[1..] == tail;
    } else {
      ReadName(part[1..], tail);
      assert part == "." + part[1..];
    }
  }

  lemma ListIs(inner: string, subs: seq<int>)
    requires ']' !in inner && ParseSubs(Split(inner, ',')) == Some(subs)
    ensures IsList("[" + inner + "]", Indices(subs))
  {
    var text := "[" + inner + "]";
    assert text[1..|text| - 1] == inner;
  }

  lemma ListAt(rest: string) returns (inner: string, subs: seq<int>, tail: string)
    requires rest != "" && rest[0] == '[' && Tokenize(rest).Some?
    ensures rest == "[" + inner + "]" + tail
    ensures ']' !in inner && ParseSubs(Split(inner, ',')) == Some(subs)
  {
    var r := rest[1..];
    var end := Find(r, ']').value;
    inner, tail := r[..end], r[end + 1..];
    subs := ParseSubs(Split(inner, ',')).value;
  }

  lemma NameAt(rest: string) returns (name: string, tail: string)
    requires rest != "" && rest[0] == '.' && Tokenize(rest).Some?
    ensures rest == "." + name + tail && IsName(name) && (tail == "" || IsCut(tail[0]))
  {
    var r := rest[1..];
    NameIs(r);
    name, tail := r[..NameLength(r)], r[NameLength(r)..];
  }

  lemma NameIsPart(name: string)
    requires IsName(name)
    ensures IsPart("." + name, [Field(name)])
  {
    assert ("." + name)[1..] == name;
  }

  /** The part that some accessors start with. */
  lemma CutOne(rest: string) returns (part: string, first: seq<Access>, tail: string)
    requires rest != "" && Tokenize(rest).Some?
    ensures rest == part + tail && |tail| < |rest| && IsPart(part, first)
    ensures Tokenize(rest) == Prefixed(first, Tokenize(tail))
  {
    if rest[0] == '[' {
      var inner, subs, more := ListAt(rest);
      ListIs(inner, subs);
      ReadSubs(inner, subs, more);
      part, first, tail := "[" + inner + "]", Indices(subs), more;
    } else if rest[0] == '.' {
      var name, more := NameAt(rest);
      NameIsPart(name);
      ReadName(name, more);
      part, first, tail := "." + name, [Field(name)], more;
    } else {
      part, first, tail := "^", [Deref], rest[1..];
    }
  }

  lemma {:induction false} TokensAreParts(rest: string) returns (parts: seq<string>)
    requires Tokenize(rest).Some?
    ensures AreParts(rest, parts, Tokenize(rest).value)
    decreases |rest|
  {
    if rest == "" {
      parts := [];
    } else {
      var part, first, tail := CutOne(rest);
      var more := TokensAreParts(tail);
      parts := FirstPart(part, first, tail, more, Tokenize(tail).value);
    }
  }

  lemma PartsApart(rest: string, parts: seq<string>, toks: seq<Access>)
    returns (first: seq<Access>, more: seq<Access>, tail: string)
    requires parts != [] && AreParts(rest, parts, toks)
    ensures rest == parts[0] + tail && toks == first + more
    ensures IsPart(parts[0], first) && AreParts(tail, parts[1..], more)
  {
    var n: nat :| StartsWith(parts, toks, n) && AreParts(rest[|parts[0]|..], parts[1..], toks[n..]);
    first, more, tail := toks[..n], toks[n..], rest[|parts[0]|..];
  }

  lemma {:induction false} PartsAreTokens(rest: string, parts: seq<string>, toks: seq<Access>)
    requires AreParts(rest, parts, toks)
    ensures Tokenize(rest) == Some(toks)
    ensures rest == "" || IsCut(rest[0])
    decreases |parts|
  {
    if parts != [] {
      var first, more, tail := PartsApart(rest, parts, toks);
      PartsAreTokens(tail, parts[1..], more);
      ReadPart(parts[0], first, tail);
    }
  }

  /** A text is read as accessors if and only if it is such texts, one after the other, and they stand for
      them. */
  lemma TokenizeIsExact(rest: string, toks: seq<Access>)
    ensures Tokenize(rest) == Some(toks) <==> exists parts :: AreParts(rest, parts, toks)
  {
    if Tokenize(rest) == Some(toks) {
      var parts := TokensAreParts(rest);
      assert AreParts(rest, parts, toks);
    }
    forall parts | AreParts(rest, parts, toks)
      ensures Tokenize(rest) == Some(toks)
    {
      PartsAreTokens(rest, parts, toks);
    }
  }

  ghost function Prefixed<T>(head: seq<T>, tail: Option<seq<T>>): Option<seq<T>> {
    match tail case None => None case Some(more) => Some(head + more)
  }

  lemma PrefixedNothing<T>(tail: Option<seq<T>>)
    ensures Prefixed([], tail) == tail
  {
    if tail.Some? {
      assert [] + tail.value == tail.value;
    }
  }

  lemma PrefixedTwice<T>(head: seq<T>, middle: seq<T>, tail: Option<seq<T>>)
    ensures Prefixed(head, Prefixed(middle, tail)) == Prefixed(head + middle, tail)
  {
    if tail.Some? {
      assert (head + middle) + tail.value == head + (middle + tail.value);
    }
  }

  method TokenizeAccessors(path: string) returns (r: Option<seq<Access>>)
    ensures r == Tokenize(path)
  {
    var out: seq<Access> := [];
    var rest := path;
    PrefixedNothing(Tokenize(path));
    while rest != ""
      invariant Prefixed(out, Tokenize(rest)) == Tokenize(path)
      decreases |rest|
    {
      var r := rest[1..];
      if rest[0] == '^' {
        PrefixedTwice(out, [Deref], Tokenize(r));
        out := out + [Deref];
        rest := r;
      } else if rest[0] == '[' {
        var end := Find(r, ']');
        if end.None? {
          return None;
        }
        var subs := ParseSubs(Split(r[..end.value], ','));
        if subs.None? {
          return None;
        }
        PrefixedTwice(out, Indices(subs.value), Tokenize(r[end.value + 1..]));
        out := out + Indices(subs.value);
        rest := r[end.value + 1..];
      } else {
        if rest[0] != '.' {
          return None;
        }
        var end := NameLength(r);
        if end == 0 {
          return None;
        }
        PrefixedTwice(out, [Field(r[..end])], Tokenize(r[end..]));
        out := out + [Field(r[..end])];
        rest := r[end..];
      }
    }
    assert out + [] == out;
    return Some(out);
  }

  // ----- Each undoes the other

  lemma Shrinks(init: seq<Dim>, last: Dim)
    requires Inhabited(init) && Inhabited([last]) && Product(init + [last]) <= I64_MAX
    ensures Product(init + [last]) == Product(init) * Extent(last)
    ensures 1 <= Product(init) <= I64_MAX && 1 <= Extent(last) <= I64_MAX
  {
    assert last == [last][0];
    ProductOfBoth(init, [last]);
    ProductIsPositive(init);
    AtLeast(Product(init), 1, Extent(last));
    AtLeast(Extent(last), 1, Product(init));
  }

  lemma Regrows(init: seq<Dim>, last: Dim, rest: seq<int>, flat: nat)
    requires Extent(last) >= 1 && InBounds(init, rest) && FlatIndex(init, rest) == RowOf(flat, Extent(last))
    ensures var subs := rest + [last.0 + PlaceIn(flat, Extent(last))];
            InBounds(init + [last], subs) && FlatIndex(init + [last], subs) == flat
  {
    var sub := last.0 + PlaceIn(flat, Extent(last));
    FlatIndexOfBoth(init, [last], rest, [sub]);
    Quotient(flat, Extent(last), 0);
  }

  lemma SubsOfStep(init: seq<Dim>, last: Dim, flat: nat)
    requires Inhabited([last]) && 1 <= Extent(last) <= I64_MAX && SubsOf(init, RowOf(flat, Extent(last))).Some?
    ensures SubsOf(init + [last], flat)
         == Some(SubsOf(init, RowOf(flat, Extent(last))).value + [last.0 + PlaceIn(flat, Extent(last))])
  {
    var dims := init + [last];
    assert last == [last][0] == dims[|dims| - 1] && dims[..|dims| - 1] == init;
    assert SizeOf(last) == Some(Extent(last)) && Checked(last.0 + PlaceIn(flat, Extent(last))).Some?;
  }

  lemma {:induction false} SubsOfIsExact(dims: seq<Dim>, flat: nat)
    requires Inhabited(dims) && flat < Product(dims) <= I64_MAX
    ensures SubsOf(dims, flat).Some?
    ensures var subs := SubsOf(dims, flat).value; InBounds(dims, subs) && FlatIndex(dims, subs) == flat
    decreases |dims|
  {
    if dims != [] {
      var init, last := dims[..|dims| - 1], dims[|dims| - 1];
      assert dims == init + [last];
      Shrinks(init, last);
      Quotient(flat, Extent(last), Product(init));
      SubsOfIsExact(init, RowOf(flat, Extent(last)));
      SubsOfStep(init, last, flat);
      Regrows(init, last, SubsOf(init, RowOf(flat, Extent(last))).value, flat);
    }
  }

  lemma Quotient(flat: nat, size: nat, rows: nat)
    requires size >= 1
    ensures RowOf(flat, size) * size + PlaceIn(flat, size) == flat
    ensures flat < rows * size ==> RowOf(flat, size) < rows
  {
    var row := flat / size;
    assert flat == row * size + flat % size;
    if row >= rows {
      AtLeast(row, rows, size);
    }
  }

  ghost predicate AreI64(subs: seq<int>) {
    forall i :: 0 <= i < |subs| ==> I64_MIN <= subs[i] <= I64_MAX
  }

  /** Nothing in a list of decimals but digits, signs, commas and spaces. */
  lemma {:induction false} JoinedDecimals(subs: seq<int>)
    requires AreI64(subs)
    ensures forall i :: 0 <= i < |Join(Decimals(subs), ", ")| ==> Join(Decimals(subs), ", ")[i] != ']'
    decreases |subs|
  {
    if subs != [] {
      DecimalRoundTrip(subs[0]);
      var rest := subs[1..];
      JoinedDecimals(rest);
      assert Decimals(subs)[1..] == Decimals(rest);
    }
  }

  lemma {:induction false} ParsePadded(subs: seq<int>, pad: string)
    requires AreI64(subs) && (pad == "" || pad == " ")
    ensures ParseSubs(PaddedDecimals(subs, pad)) == Some(subs)
    decreases |subs|
  {
    if subs != [] {
      PaddedIsParsed(subs[0], pad);
      ParsePadded(subs[1..], pad);
      assert PaddedDecimals(subs, pad)[1..] == PaddedDecimals(subs[1..], pad);
      ParseFirst(PaddedDecimals(subs, pad), subs);
    }
  }

  function PaddedDecimals(subs: seq<int>, pad: string): seq<string> {
    seq(|subs|, i requires 0 <= i < |subs| => pad + Decimal(subs[i]))
  }

  lemma PaddedIsParsed(sub: int, pad: string)
    requires I64_MIN <= sub <= I64_MAX && (pad == "" || pad == " ")
    ensures ParseI64(Trim(pad + Decimal(sub))) == Some(sub)
  {
    TrimDecimal(sub);
    DecimalRoundTrip(sub);
    assert "" + Decimal(sub) == Decimal(sub);
  }

  lemma SplitDecimals(subs: seq<int>)
    requires subs != [] && AreI64(subs)
    ensures Split(Join(Decimals(subs), ", "), ',') == Padded(Decimals(subs), " ")
  {
    var parts := Decimals(subs);
    forall i | 0 <= i < |parts|
      ensures ',' !in parts[i]
    {
      DecimalRoundTrip(subs[i]);
    }
    assert [','] + " " == ", ";
    SplitJoin(parts, ',', " ");
  }

  lemma ParseFirst(parts: seq<string>, subs: seq<int>)
    requires parts != [] && subs != [] && ParseI64(Trim(parts[0])) == Some(subs[0])
    requires ParseSubs(parts[1..]) == Some(subs[1..])
    ensures ParseSubs(parts) == Some(subs)
  {
    assert [subs[0]] + subs[1..] == subs;
  }

  /** The subscripts that were written are those that are read. */
  lemma ParseJoined(subs: seq<int>)
    requires subs != [] && AreI64(subs)
    ensures ParseSubs(Split(Join(Decimals(subs), ", "), ',')) == Some(subs)
  {
    SplitDecimals(subs);
    ParsePadded(subs[1..], " ");
    PaddedIsParsed(subs[0], "");
    PaddedDecimalsAre(subs);
    ParseFirst(Padded(Decimals(subs), " "), subs);
  }

  lemma PaddedDecimalsAre(subs: seq<int>)
    requires subs != []
    ensures var padded := Padded(Decimals(subs), " ");
            padded[0] == "" + Decimal(subs[0]) && padded[1..] == PaddedDecimals(subs[1..], " ")
  {
    var first, rest := Decimal(subs[0]), Padded(Decimals(subs), " ")[1..];
    assert "" + first == first;
    forall i | 0 <= i < |rest|
      ensures rest[i] == PaddedDecimals(subs[1..], " ")[i]
    {
      assert subs[1..][i] == subs[i + 1];
    }
  }

  /** A list of subscripts is read back from what writes it, whatever follows. */
  lemma TokenizeBracketed(subs: seq<int>, more: string)
    requires subs != [] && AreI64(subs)
    ensures Tokenize(Bracketed(subs) + more)
         == match Tokenize(more) case None => None case Some(toks) => Some(Indices(subs) + toks)
  {
    var inner := Join(Decimals(subs), ", ");
    var rest := Bracketed(subs) + more;
    JoinedDecimals(subs);
    ParseJoined(subs);
    assert rest[1..] == inner + [']'] + more;
    FindAfter(inner, ']', more);
    assert rest[1..][..|inner|] == inner && rest[1..][|inner| + 1..] == more;
  }

  /** The path of an element is read back as the subscripts of that element, and they name its
      index: with negative bounds, any number of dimensions and numbers as wide as 64 bits. */
  lemma ElementPathRoundTrip(path: string, flat: nat, dims: seq<Dim>)
    requires dims != [] && Inhabited(dims) && flat < Product(dims) <= I64_MAX
    ensures SubsOf(dims, flat).Some?
    ensures var subs := SubsOf(dims, flat).value;
            && ElementPath(path, flat, dims) == path + Bracketed(subs)
            && Tokenize(Bracketed(subs)) == Some(Indices(subs))
            && FlattenFrom(dims, Indices(subs), 0, 0) == Some(flat)
  {
    SubsOfIsExact(dims, flat);
    var subs := SubsOf(dims, flat).value;
    assert AreI64(subs);
    TokenizeBracketed(subs, "");
    assert Bracketed(subs) + "" == Bracketed(subs);
    assert Indices(subs) + [] == Indices(subs);
    SubsAtStand(dims, Indices(subs), 0, subs);
    FlattenIsExact(dims, Indices(subs), 0);
  }

  /** Where the bounds span too much for the subscripts to be written, the path is read back as the index itself. */
  lemma FlatPathRoundTrip(path: string, flat: nat, dims: seq<Dim>)
    requires (dims == [] || SubsOf(dims, flat).None?) && flat <= I64_MAX
    ensures ElementPath(path, flat, dims) == path + Bracketed([flat])
    ensures Tokenize(Bracketed([flat])) == Some([Index(flat)])
  {
    var subs := [flat];
    TokenizeBracketed(subs, "");
    assert Bracketed(subs) + "" == Bracketed(subs) && Indices(subs) + [] == [Index(flat)];
    assert path + ("[" + Decimal(flat) + "]") == path + "[" + Decimal(flat) + "]";
    assert Decimals(subs)[0] == Decimal(flat);
  }
}
