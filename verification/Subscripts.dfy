/** Subscripts of an array and the flat index they name, row by row: from a path to an index, with
    every product checked, and from an index back to a path. */
module Subscripts {
  import opened Texts
  import opened Wrappers

  /** The lower and the upper bound of a dimension, 64 bits each. */
  type Dim = (int, int)

  /** One step of a path after its stem. */
  datatype Access = Index(sub: int) | Field(name: string) | Deref

  // ----- Products

  lemma AtLeast(a: int, b: int, factor: nat)
    requires a >= b
    ensures a * factor >= b * factor
  {
  }

  lemma Associates(a: int, b: int, c: int)
    ensures a * (b * c) == (a * b) * c
  {
  }

  lemma Distributes(flat: int, extent: int, within: int, row: int)
    ensures (flat * extent + within) * row == flat * (extent * row) + within * row
  {
    Associates(flat, extent, row);
  }

  /** A place in a row of a table. */
  lemma InTable(sub: int, extent: int, rest: int, row: int)
    requires 0 <= sub < extent && 0 <= rest < row
    ensures 0 <= sub * row + rest < extent * row
  {
    AtLeast(sub, 0, row);
    AtLeast(extent, sub + 1, row);
  }

  /** Distinct places in a table are at distinct indices. */
  lemma PlaceIsUnique(a: int, x: int, b: int, y: int, row: int)
    requires 0 <= x < row && 0 <= y < row && a * row + x == b * row + y
    ensures a == b && x == y
  {
    if a < b {
      AtLeast(b, a + 1, row);
    } else if b < a {
      AtLeast(a, b + 1, row);
    }
  }

  // ----- The index a list of subscripts names

  function Extent(dim: Dim): int {
    dim.1 - dim.0 + 1
  }

  /** How many elements there are. */
  function Product(dims: seq<Dim>): int {
    if dims == [] then 1 else Extent(dims[0]) * Product(dims[1..])
  }

  ghost predicate InBounds(dims: seq<Dim>, subs: seq<int>) {
    |subs| == |dims| && forall i :: 0 <= i < |dims| ==> dims[i].0 <= subs[i] <= dims[i].1
  }

  /** Row by row, the last dimension varying fastest. */
  function FlatIndex(dims: seq<Dim>, subs: seq<int>): int
    requires |subs| == |dims|
  {
    if dims == [] then 0 else (subs[0] - dims[0].0) * Product(dims[1..]) + FlatIndex(dims[1..], subs[1..])
  }

  /** Every dimension has an element, and bounds of 64 bits. */
  ghost predicate Inhabited(dims: seq<Dim>) {
    forall i :: 0 <= i < |dims| ==> I64_MIN <= dims[i].0 <= dims[i].1 <= I64_MAX
  }

  lemma {:induction false} ProductIsPositive(dims: seq<Dim>)
    requires Inhabited(dims)
    ensures Product(dims) >= 1
  {
    if dims != [] {
      ProductIsPositive(dims[1..]);
      AtLeast(Extent(dims[0]), 1, Product(dims[1..]));
    }
  }

  /** Subscripts in their bounds name an element. */
  lemma {:induction false} FlatIndexInRange(dims: seq<Dim>, subs: seq<int>)
    requires InBounds(dims, subs)
    ensures 0 <= FlatIndex(dims, subs) < Product(dims)
  {
    if dims != [] {
      FlatIndexInRange(dims[1..], subs[1..]);
      InTable(subs[0] - dims[0].0, Extent(dims[0]), FlatIndex(dims[1..], subs[1..]), Product(dims[1..]));
    }
  }

  /** Distinct subscripts name distinct elements. */
  lemma {:induction false} FlatIndexIsInjective(dims: seq<Dim>, s: seq<int>, t: seq<int>)
    requires InBounds(dims, s) && InBounds(dims, t) && FlatIndex(dims, s) == FlatIndex(dims, t)
    ensures s == t
  {
    if dims != [] {
      var rest, more, row := FlatIndex(dims[1..], s[1..]), FlatIndex(dims[1..], t[1..]), Product(dims[1..]);
      FlatIndexInRange(dims[1..], s[1..]);
      FlatIndexInRange(dims[1..], t[1..]);
      PlaceIsUnique(s[0] - dims[0].0, rest, t[0] - dims[0].0, more, row);
      FlatIndexIsInjective(dims[1..], s[1..], t[1..]);
      assert s == [s[0]] + s[1..] && t == [t[0]] + t[1..];
    }
  }

  lemma {:induction false} ProductOfBoth(a: seq<Dim>, b: seq<Dim>)
    ensures Product(a + b) == Product(a) * Product(b)
  {
    if a == [] {
      assert a + b == b;
    } else {
      assert (a + b)[1..] == a[1..] + b;
      ProductOfBoth(a[1..], b);
      Associates(Extent(a[0]), Product(a[1..]), Product(b));
    }
  }

  /** The row that the first subscripts name, and the place the others name in it. */
  lemma {:induction false} FlatIndexOfBoth(a: seq<Dim>, b: seq<Dim>, s: seq<int>, t: seq<int>)
    requires |s| == |a| && |t| == |b|
    ensures FlatIndex(a + b, s + t) == FlatIndex(a, s) * Product(b) + FlatIndex(b, t)
  {
    if a == [] {
      assert a + b == b && s + t == t;
    } else {
      assert (a + b)[1..] == a[1..] + b && (s + t)[1..] == s[1..] + t;
      FlatIndexOfBoth(a[1..], b, s[1..], t);
      ProductOfBoth(a[1..], b);
      Distributes(s[0] - a[0].0, Product(a[1..]), FlatIndex(a[1..], s[1..]), Product(b));
    }
  }

  // ----- The same, checked

  /** Takes one subscript per dimension from `toks`, from `pos` on, and answers the index they name
      after `flat` rows; nothing when a subscript is missing or out of its bounds, and nothing when
      a step does not fit 64 bits. */
  function FlattenFrom(dims: seq<Dim>, toks: seq<Access>, pos: nat, flat: int): Option<int>
    decreases |dims|
  {
    if dims == [] then Some(flat)
    else if pos >= |toks| || !toks[pos].Index? then None
    else
      var next :- FlattenOne(dims[0], toks[pos].sub, flat);
      FlattenFrom(dims[1..], toks, pos + 1, next)
  }

  /** The index one subscript makes of that of its row. */
  function FlattenOne(dim: Dim, sub: int, flat: int): Option<int> {
    if sub < dim.0 || sub > dim.1 then None
    else
      var span :- Checked(dim.1 - dim.0);
      var extent :- Checked(span + 1);
      var rows :- Checked(flat * extent);
      var within :- Checked(sub - dim.0);
      Checked(rows + within)
  }

  method FlattenIndices(dims: seq<Dim>, toks: seq<Access>, pos: nat) returns (r: Option<int>, next: nat)
    ensures r == FlattenFrom(dims, toks, pos, 0)
    ensures r.Some? ==> next == pos + |dims|
  {
    var flat := 0;
    next := pos;
    for i := 0 to |dims|
      invariant next == pos + i
      invariant FlattenFrom(dims, toks, pos, 0) == FlattenFrom(dims[i..], toks, next, flat)
    {
      assert dims[i..][0] == dims[i] && dims[i..][1..] == dims[i + 1..];
      if next >= |toks| || !toks[next].Index? {
        return None, next;
      }
      var sum := FlattenOne(dims[i], toks[next].sub, flat);
      if sum.None? {
        return None, next;
      }
      flat := sum.value;
      next := next + 1;
    }
    return Some(flat), next;
  }

  function Indices(subs: seq<int>): (toks: seq<Access>)
    ensures |toks| == |subs| && forall i :: 0 <= i < |subs| ==> toks[i] == Index(subs[i])
  {
    seq(|subs|, i requires 0 <= i < |subs| => Index(subs[i]))
  }

  /** The subscripts that stand at `pos`, when there is one per dimension and each is in its bounds. */
  ghost function SubsAt(dims: seq<Dim>, toks: seq<Access>, pos: nat): Option<seq<int>> {
    if dims == [] then Some([])
    else if pos >= |toks| || !toks[pos].Index? || !(dims[0].0 <= toks[pos].sub <= dims[0].1) then None
    else
      var rest :- SubsAt(dims[1..], toks, pos + 1);
      Some([toks[pos].sub] + rest)
  }

  /** Whether `subs` are what stands at `pos`, one per dimension and each in its bounds. */
  ghost predicate StandAt(dims: seq<Dim>, toks: seq<Access>, pos: nat, subs: seq<int>) {
    && InBounds(dims, subs)
    && (dims != [] ==> pos + |dims| <= |toks|)
    && forall i :: 0 <= i < |subs| ==> toks[pos + i] == Index(subs[i])
  }

  lemma {:induction false} SubsAtStand(dims: seq<Dim>, toks: seq<Access>, pos: nat, subs: seq<int>)
    ensures SubsAt(dims, toks, pos) == Some(subs) <==> StandAt(dims, toks, pos, subs)
  {
    if dims != [] && |subs| > 0 {
      var rest := subs[1..];
      SubsAtStand(dims[1..], toks, pos + 1, rest);
      assert subs == [subs[0]] + rest;
      if StandAt(dims, toks, pos, subs) {
        assert toks[pos + 0] == Index(subs[0]);
        forall i | 0 <= i < |rest|
          ensures toks[pos + 1 + i] == Index(rest[i])
        {
          assert toks[pos + (i + 1)] == Index(subs[i + 1]);
        }
      }
      if StandAt(dims[1..], toks, pos + 1, rest) && pos < |toks| && toks[pos] == Index(subs[0]) {
        forall i | 0 <= i < |subs|
          ensures toks[pos + i] == Index(subs[i])
        {
          if i > 0 {
            assert toks[pos + 1 + (i - 1)] == Index(rest[i - 1]);
          }
        }
      }
    }
  }

  /** The checked steps of one dimension fit when the whole does. */
  lemma RowsFit(flat: nat, extent: int, within: int, row: int)
    requires 0 <= within < extent && row >= 1 && (flat + 1) * (extent * row) <= I64_MAX
    ensures 0 <= flat * extent + within && (flat * extent + within + 1) * row <= I64_MAX
    ensures extent <= I64_MAX && 0 <= flat * extent && flat * extent + within <= I64_MAX
  {
    Associates(flat + 1, extent, row);
    var rows := (flat + 1) * extent;
    assert rows == flat * extent + extent;
    AtLeast(flat, 0, extent);
    AtLeast(rows, flat * extent + within + 1, row);
    AtLeast(row, 1, rows);
  }

  lemma FlatIndexStep(dims: seq<Dim>, flat: nat, sub: int, rest: seq<int>)
    requires dims != [] && |dims| == |[sub] + rest|
    ensures flat * Product(dims) + FlatIndex(dims, [sub] + rest)
         == (flat * Extent(dims[0]) + (sub - dims[0].0)) * Product(dims[1..]) + FlatIndex(dims[1..], rest)
  {
    assert ([sub] + rest)[1..] == rest;
    Distributes(flat, Extent(dims[0]), sub - dims[0].0, Product(dims[1..]));
  }

  /** While the number of elements fits 64 bits, the checks refuse nothing. */
  lemma {:induction false} FlattenIsExactFrom(dims: seq<Dim>, toks: seq<Access>, pos: nat, flat: nat)
    requires Inhabited(dims) && (flat + 1) * Product(dims) <= I64_MAX
    ensures match SubsAt(dims, toks, pos)
            case None => FlattenFrom(dims, toks, pos, flat) == None
            case Some(subs) =>
              && |subs| == |dims|
              && FlattenFrom(dims, toks, pos, flat) == Some(flat * Product(dims) + FlatIndex(dims, subs))
    decreases |dims|
  {
    if dims != [] && pos < |toks| && toks[pos].Index? && dims[0].0 <= toks[pos].sub <= dims[0].1 {
      var extent, within, row := Extent(dims[0]), toks[pos].sub - dims[0].0, Product(dims[1..]);
      ProductIsPositive(dims[1..]);
      RowsFit(flat, extent, within, row);
      assert FlattenOne(dims[0], toks[pos].sub, flat) == Some(flat * extent + within);
      FlattenIsExactFrom(dims[1..], toks, pos + 1, flat * extent + within);
      var rest := SubsAt(dims[1..], toks, pos + 1);
      if rest.Some? {
        FlatIndexStep(dims, flat, toks[pos].sub, rest.value);
      }
    }
  }

  /** The index a path names in an array whose elements can be counted in 64 bits: that of the
      subscripts that stand there, and none exactly when they do not. */
  lemma FlattenIsExact(dims: seq<Dim>, toks: seq<Access>, pos: nat)
    requires Inhabited(dims) && Product(dims) <= I64_MAX
    ensures match SubsAt(dims, toks, pos)
            case None => FlattenFrom(dims, toks, pos, 0) == None
            case Some(subs) =>
              InBounds(dims, subs) && FlattenFrom(dims, toks, pos, 0) == Some(FlatIndex(dims, subs))
              && 0 <= FlatIndex(dims, subs) < Product(dims)
  {
    FlattenIsExactFrom(dims, toks, pos, 0);
    var subs := SubsAt(dims, toks, pos);
    if subs.Some? {
      SubsAtStand(dims, toks, pos, subs.value);
      FlatIndexInRange(dims, subs.value);
    }
  }
}
