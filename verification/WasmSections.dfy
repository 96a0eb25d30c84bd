/** The custom sections that an optimizer drops and that are put back, in the binary format of the
    WebAssembly Core Specification, sections 5.2.2, 5.5.2 and 5.5.3. */
module WasmSections {
  import opened Bytes
  import opened VarInts
  import opened Wrappers

  datatype Section = Custom(name: seq<byte>, data: seq<byte>) | Other(id: byte, body: seq<byte>)

  /** The magic number and the version. */
  const HEADER: seq<byte> := [0x00, 0x61, 0x73, 0x6D, 0x01, 0x00, 0x00, 0x00]

  /** A section put back: `retain-map`, `located-map`, `rk.schedule`, `debug-symbols`, `test-manifest`. */
  const LOAD_BEARING: seq<seq<byte>> := [
    [0x72, 0x65, 0x74, 0x61, 0x69, 0x6E, 0x2D, 0x6D, 0x61, 0x70],
    [0x6C, 0x6F, 0x63, 0x61, 0x74, 0x65, 0x64, 0x2D, 0x6D, 0x61, 0x70],
    [0x72, 0x6B, 0x2E, 0x73, 0x63, 0x68, 0x65, 0x64, 0x75, 0x6C, 0x65],
    [0x64, 0x65, 0x62, 0x75, 0x67, 0x2D, 0x73, 0x79, 0x6D, 0x62, 0x6F, 0x6C, 0x73],
    [0x74, 0x65, 0x73, 0x74, 0x2D, 0x6D, 0x61, 0x6E, 0x69, 0x66, 0x65, 0x73, 0x74]
  ]

  // ----- The parser

  /** An unsigned integer of `bits` bits, in LEB128. */
  function UnsignedFrom(code: seq<byte>, pos: nat, bits: int): (r: Option<Parsed<nat>>)
    ensures r.Some? ==> pos < r.value.next <= |code| && bits > 0 && r.value.value < Pow2(bits)
    decreases |code| - pos
  {
    if pos >= |code| || bits <= 0 || code[pos] % 128 >= Pow2(bits) then None
    else if code[pos] < 128 then Some(Parsed(code[pos], pos + 1))
    else
      var rest :- UnsignedFrom(code, pos + 1, bits - 7);
      Pow2Seven(bits - 7);
      Some(Parsed(code[pos] % 128 + 128 * rest.value, rest.next))
  }

  function U32At(code: seq<byte>, pos: nat): Option<Parsed<nat>> {
    UnsignedFrom(code, pos, 32)
  }

  /** A vector of bytes: how many there are, and the bytes. */
  function VectorAt(code: seq<byte>, pos: nat): (r: Option<Parsed<seq<byte>>>)
    ensures r.Some? ==> pos + |r.value.value| < r.value.next <= |code|
  {
    var size :- U32At(code, pos);
    if size.next + size.value > |code| then None
    else Some(Parsed(code[size.next..size.next + size.value], size.next + size.value))
  }

  /** The section at a position. `takes` says which sections the parser does not refuse, for a name that is no
      text or for what is in a body that it looks into. */
  function SectionAt(code: seq<byte>, pos: nat, takes: Section -> bool): (r: Option<Parsed<Section>>)
    ensures r.Some? ==> pos < r.value.next <= |code|
  {
    if pos >= |code| then None
    else
      var body :- VectorAt(code, pos + 1);
      var section :- SectionOf(code[pos], body.value);
      if takes(section) then Some(Parsed(section, body.next)) else None
  }

  function SectionOf(id: byte, body: seq<byte>): Option<Section> {
    if id != 0 then Some(Other(id, body))
    else
      var name :- VectorAt(body, 0);
      Some(Custom(name.value, body[name.next..]))
  }

  /** The sections from a position on, up to the end or to what is not one. */
  function SectionsFrom(code: seq<byte>, pos: nat, takes: Section -> bool): seq<Section>
    decreases |code| - pos
  {
    match SectionAt(code, pos, takes)
    case None => []
    case Some(section) => [section.value] + SectionsFrom(code, section.next, takes)
  }

  predicate EndsFrom(code: seq<byte>, pos: nat, takes: Section -> bool)
    decreases |code| - pos
  {
    pos == |code|
    || (SectionAt(code, pos, takes).Some? && EndsFrom(code, SectionAt(code, pos, takes).value.next, takes))
  }

  function Sections(code: seq<byte>, takes: Section -> bool): seq<Section> {
    if HEADER <= code then SectionsFrom(code, |HEADER|, takes) else []
  }

  predicate IsModule(code: seq<byte>, takes: Section -> bool) {
    HEADER <= code && EndsFrom(code, |HEADER|, takes)
  }

  /** The data of the first section of a name. */
  function Named(sections: seq<Section>, name: seq<byte>): Option<seq<byte>> {
    if sections == [] then None
    else if sections[0].Custom? && sections[0].name == name then Some(sections[0].data)
    else Named(sections[1..], name)
  }

  /** The sections of some names that one module has and another lacks, in the order of the names. */
  function Missing(original: seq<Section>, optimized: seq<Section>, names: seq<seq<byte>>): seq<Section> {
    if names == [] then []
    else
      var data := Named(original, names[0]);
      (if data.Some? && Named(optimized, names[0]).None? then [Custom(names[0], data.value)] else [])
      + Missing(original, optimized, names[1..])
  }

  // ----- What is written

  function Payload(name: seq<byte>, data: seq<byte>): seq<byte> {
    EncodeLeb128(|name|) + name + data
  }

  function SectionCode(name: seq<byte>, data: seq<byte>): seq<byte> {
    [0x00] + EncodeLeb128(|Payload(name, data)|) + Payload(name, data)
  }

  /** Unsigned LEB128. */
  method WriteLeb128(out: seq<byte>, n: nat) returns (out': seq<byte>)
    requires n < U64_LIMIT
    ensures out' == out + EncodeLeb128(n)
  {
    out' := out;
    var v := n;
    while true
      invariant out' + EncodeLeb128(v) == out + EncodeLeb128(n)
      decreases v
    {
      var b := v % 128;
      ghost var before, w := out', v;
      v := v / 128;
      if v != 0 {
        b := b + 128;
      }
      out' := out' + [b];
      assert v != 0 ==> before + EncodeLeb128(w) == out' + EncodeLeb128(v);
      if v == 0 {
        break;
      }
    }
  }

  /** The data of the first custom section of a name, before anything that cannot be read. */
  method Find(code: seq<byte>, name: seq<byte>, takes: Section -> bool) returns (data: Option<seq<byte>>)
    ensures data == Named(Sections(code, takes), name)
  {
    if !(HEADER <= code) {
      return None;
    }
    var pos := |HEADER|;
    while true
      invariant Named(SectionsFrom(code, pos, takes), name) == Named(Sections(code, takes), name)
      decreases |code| - pos
    {
      var section := SectionAt(code, pos, takes);
      if section.None? {
        return None;
      }
      if section.value.value.Custom? && section.value.value.name == name {
        return Some(section.value.value.data);
      }
      assert SectionsFrom(code, pos, takes)[1..] == SectionsFrom(code, section.value.next, takes);
      pos := section.value.next;
    }
  }

  /** Put one custom section back, if the original had it and the optimizer dropped it. */
  method PreserveSection(original: seq<byte>, optimized: seq<byte>, name: seq<byte>, takes: Section -> bool)
    returns (out: seq<byte>)
    ensures out == Preserved(original, optimized, name, takes)
  {
    var data := Find(original, name, takes);
    if data.None? {
      return optimized;
    }
    var survived := Find(optimized, name, takes);
    if survived.Some? {
      return optimized;
    }
    FoundIsShort(original, name, takes);
    out := WriteSection(optimized, name, data.value);
  }

  /** Write a custom section after some bytes. */
  method WriteSection(code: seq<byte>, name: seq<byte>, data: seq<byte>) returns (out: seq<byte>)
    requires |Payload(name, data)| < U64_LIMIT
    ensures out == code + SectionCode(name, data)
  {
    var payload := WriteLeb128([], |name|);
    payload := payload + name;
    payload := payload + data;
    assert payload == Payload(name, data);
    out := code + [0x00];
    out := WriteLeb128(out, |payload|);
    out := out + payload;
    ghost var size := EncodeLeb128(|payload|);
    assert code + [0x00] + size + payload == code + ([0x00] + size + payload);
  }

  function Preserved(original: seq<byte>, optimized: seq<byte>, name: seq<byte>, takes: Section -> bool): seq<byte> {
    var data := Named(Sections(original, takes), name);
    if data.None? || Named(Sections(optimized, takes), name).Some? then optimized
    else optimized + SectionCode(name, data.value)
  }

  /** Put back the sections of some names. */
  function AllPreserved(original: seq<byte>, optimized: seq<byte>, names: seq<seq<byte>>, takes: Section -> bool)
    : seq<byte>
    decreases |names|
  {
    if names == [] then optimized
    else AllPreserved(original, Preserved(original, optimized, names[0], takes), names[1..], takes)
  }

  /** Put the load-bearing sections back, after an optimizer. The sections of the optimized module are as
      they were; after them is each one it lacked and the original had, once, with its own bytes. */
  method PreserveLoadBearingSections(original: seq<byte>, optimized: seq<byte>, takes: Section -> bool)
    returns (out: seq<byte>)
    ensures out == AllPreserved(original, optimized, LOAD_BEARING, takes)
    ensures optimized <= out
    ensures IsModule(optimized, takes) ==>
              && IsModule(out, takes)
              && Sections(out, takes) == Sections(optimized, takes)
                 + Missing(Sections(original, takes), Sections(optimized, takes), LOAD_BEARING)
  {
    out := optimized;
    for n := 0 to |LOAD_BEARING|
      invariant AllPreserved(original, out, LOAD_BEARING[n..], takes)
             == AllPreserved(original, optimized, LOAD_BEARING, takes)
    {
      assert LOAD_BEARING[n..][1..] == LOAD_BEARING[n + 1..];
      out := PreserveSection(original, out, LOAD_BEARING[n], takes);
    }
    AllPreservedKeeps(original, optimized, LOAD_BEARING, takes);
    if IsModule(optimized, takes) {
      AllPreservedReads(original, optimized, LOAD_BEARING, takes);
    }
  }

  // ----- Reading back

  lemma {:induction false} UnsignedOfEncoded(v: nat, code: seq<byte>, pos: nat, bits: int)
    requires bits > 0 && v < Pow2(bits) && StandsAt(code, pos, EncodeLeb128(v))
    ensures UnsignedFrom(code, pos, bits) == Some(Parsed(v, pos + |EncodeLeb128(v)|))
    decreases v
  {
    var spelled := EncodeLeb128(v);
    assert code[pos + 0] == spelled[0];
    if v >= 128 {
      var rest := EncodeLeb128(v / 128);
      assert forall i :: 0 <= i < |rest| ==> code[pos + (i + 1)] == spelled[i + 1] == rest[i];
      MoreThanSeven(v, bits);
      UnsignedOfEncoded(v / 128, code, pos + 1, bits - 7);
    }
  }

  lemma MoreThanSeven(v: nat, bits: int)
    requires 128 <= v && bits > 0 && v < Pow2(bits)
    ensures bits > 7 && v / 128 < Pow2(bits - 7) && Pow2(bits) >= 128
  {
    if bits <= 7 {
      Pow2Monotone(bits, 7);
      Pow2Seven(7 - 7);
    } else {
      Pow2Seven(bits - 7);
    }
  }

  /** A number takes no fewer bytes than it is written with. */
  lemma {:induction false} EncodedIsShortest(code: seq<byte>, pos: nat, bits: int)
    requires UnsignedFrom(code, pos, bits).Some?
    ensures pos + |EncodeLeb128(UnsignedFrom(code, pos, bits).value.value)| <= UnsignedFrom(code, pos, bits).value.next
    decreases |code| - pos
  {
    if code[pos] >= 128 {
      EncodedIsShortest(code, pos + 1, bits - 7);
      var rest := UnsignedFrom(code, pos + 1, bits - 7).value.value;
      var v := code[pos] % 128 + 128 * rest;
      assert v / 128 == rest;
    }
  }

  lemma Pow2At32(n: int)
    requires n == 32
    ensures Pow2(n) == U32_LIMIT
  {
    var z := n - 32;
    assert Pow2(z + 2) == 4 * Pow2(z);
    assert Pow2(z + 4) == 4 * Pow2(z + 2);
    Pow2Seven(z + 4);
    Pow2Seven(z + 11);
    Pow2Seven(z + 18);
    Pow2Seven(z + 25);
  }

  /** What is found in a module can be written again: it takes no more bytes than it did there. */
  lemma FoundIsShort(code: seq<byte>, name: seq<byte>, takes: Section -> bool)
    requires Named(Sections(code, takes), name).Some?
    ensures var data := Named(Sections(code, takes), name).value;
            takes(Custom(name, data)) && |Payload(name, data)| < U32_LIMIT
  {
    FoundIsShortFrom(code, |HEADER|, name, takes);
  }

  lemma {:induction false} FoundIsShortFrom(code: seq<byte>, pos: nat, name: seq<byte>, takes: Section -> bool)
    requires Named(SectionsFrom(code, pos, takes), name).Some?
    ensures var data := Named(SectionsFrom(code, pos, takes), name).value;
            takes(Custom(name, data)) && |Payload(name, data)| < U32_LIMIT
    decreases |code| - pos
  {
    var section := SectionAt(code, pos, takes).value;
    if section.value.Custom? && section.value.name == name {
      CustomIsShort(code, pos, takes);
    } else {
      assert SectionsFrom(code, pos, takes)[1..] == SectionsFrom(code, section.next, takes);
      FoundIsShortFrom(code, section.next, name, takes);
    }
  }

  lemma CustomIsShort(code: seq<byte>, pos: nat, takes: Section -> bool)
    requires SectionAt(code, pos, takes).Some? && SectionAt(code, pos, takes).value.value.Custom?
    ensures var section := SectionAt(code, pos, takes).value.value;
            takes(section) && |Payload(section.name, section.data)| < U32_LIMIT
  {
    var body := VectorAt(code, pos + 1).value.value;
    Pow2At32(32);
    EncodedIsShortest(body, 0, 32);
  }

  lemma VectorOfEncoded(code: seq<byte>, pos: nat, bytes: seq<byte>)
    requires |bytes| < U32_LIMIT && StandsAt(code, pos, EncodeLeb128(|bytes|) + bytes)
    ensures VectorAt(code, pos) == Some(Parsed(bytes, pos + |EncodeLeb128(|bytes|)| + |bytes|))
  {
    var size := EncodeLeb128(|bytes|);
    StandsApart(code, pos, size, bytes);
    Pow2At32(32);
    UnsignedOfEncoded(|bytes|, code, pos, 32);
    assert code[pos + |size|..pos + |size| + |bytes|] == bytes;
  }

  /** A section that is written at the end of some bytes is read there. */
  lemma SectionReadsBack(code: seq<byte>, name: seq<byte>, data: seq<byte>, takes: Section -> bool)
    requires takes(Custom(name, data)) && |Payload(name, data)| < U32_LIMIT
    ensures var all := code + SectionCode(name, data);
            SectionAt(all, |code|, takes) == Some(Parsed(Custom(name, data), |all|))
  {
    var payload := Payload(name, data);
    var all := code + SectionCode(name, data);
    var vector := EncodeLeb128(|payload|) + payload;
    assert StandsAt(all, |code| + 1, vector) by {
      assert all == code + [0x00] + vector;
    }
    VectorOfEncoded(all, |code| + 1, payload);
    var size := EncodeLeb128(|name|);
    assert StandsAt(payload, 0, size + name) by {
      assert payload == (size + name) + data;
    }
    VectorOfEncoded(payload, 0, name);
    assert payload[|size| + |name|..] == data;
  }

  lemma {:induction false} UnsignedStays(code: seq<byte>, more: seq<byte>, pos: nat, bits: int)
    requires UnsignedFrom(code, pos, bits).Some?
    ensures UnsignedFrom(code + more, pos, bits) == UnsignedFrom(code, pos, bits)
    decreases |code| - pos
  {
    if code[pos] >= 128 {
      UnsignedStays(code, more, pos + 1, bits - 7);
    }
  }

  lemma VectorStays(code: seq<byte>, more: seq<byte>, pos: nat)
    requires VectorAt(code, pos).Some?
    ensures VectorAt(code + more, pos) == VectorAt(code, pos)
  {
    UnsignedStays(code, more, pos, 32);
    var size := U32At(code, pos).value;
    assert (code + more)[size.next..size.next + size.value] == code[size.next..size.next + size.value];
  }

  /** The sections of a module with one more at its end. */
  lemma {:induction false} OneMoreSection(code: seq<byte>, pos: nat, name: seq<byte>, data: seq<byte>,
      takes: Section -> bool)
    requires EndsFrom(code, pos, takes) && takes(Custom(name, data)) && |Payload(name, data)| < U32_LIMIT
    ensures var all := code + SectionCode(name, data);
            && EndsFrom(all, pos, takes)
            && SectionsFrom(all, pos, takes) == SectionsFrom(code, pos, takes) + [Custom(name, data)]
    decreases |code| - pos
  {
    var all := code + SectionCode(name, data);
    if pos == |code| {
      SectionReadsBack(code, name, data, takes);
      assert SectionsFrom(all, |all|, takes) == [];
    } else {
      var section := SectionAt(code, pos, takes).value;
      SectionStays(code, SectionCode(name, data), pos, takes);
      OneMoreSection(code, section.next, name, data, takes);
      Joined([section.value], SectionsFrom(code, section.next, takes), [Custom(name, data)]);
    }
  }

  lemma SectionStays(code: seq<byte>, more: seq<byte>, pos: nat, takes: Section -> bool)
    requires SectionAt(code, pos, takes).Some?
    ensures SectionAt(code + more, pos, takes) == SectionAt(code, pos, takes)
  {
    VectorStays(code, more, pos + 1);
  }

  /** One section put back is read after the others. */
  lemma PreservedReads(original: seq<byte>, optimized: seq<byte>, name: seq<byte>, takes: Section -> bool)
    requires IsModule(optimized, takes)
    ensures var out := Preserved(original, optimized, name, takes);
            && IsModule(out, takes)
            && Sections(out, takes) == Sections(optimized, takes)
               + Missing(Sections(original, takes), Sections(optimized, takes), [name])
  {
    var data := Named(Sections(original, takes), name);
    assert Missing(Sections(original, takes), Sections(optimized, takes), [name][1..]) == [];
    if data.Some? && Named(Sections(optimized, takes), name).None? {
      FoundIsShort(original, name, takes);
      OneMoreSection(optimized, |HEADER|, name, data.value, takes);
      assert HEADER <= optimized + SectionCode(name, data.value);
    }
  }

  lemma {:induction false} NamedOfJoined(a: seq<Section>, b: seq<Section>, name: seq<byte>)
    ensures Named(a + b, name) == if Named(a, name).Some? then Named(a, name) else Named(b, name)
    decreases |a|
  {
    if a == [] {
      assert a + b == b;
    } else {
      assert (a + b)[1..] == a[1..] + b;
      NamedOfJoined(a[1..], b, name);
    }
  }

  /** A section put back under one name changes nothing of what is missing under others. */
  lemma {:induction false} MissingStays(original: seq<Section>, optimized: seq<Section>, one: Section,
      names: seq<seq<byte>>)
    requires one.Custom? && one.name !in names
    ensures Missing(original, optimized + [one], names) == Missing(original, optimized, names)
    decreases |names|
  {
    if names != [] {
      MissingStays(original, optimized, one, names[1..]);
      NamedOfJoined(optimized, [one], names[0]);
      assert [one][1..] == [];
    }
  }

  ghost predicate AreDistinct(names: seq<seq<byte>>) {
    forall i, j :: 0 <= i < j < |names| ==> names[i] != names[j]
  }

  lemma {:induction false} AllPreservedReads(original: seq<byte>, optimized: seq<byte>, names: seq<seq<byte>>,
      takes: Section -> bool)
    requires IsModule(optimized, takes) && AreDistinct(names)
    ensures var out := AllPreserved(original, optimized, names, takes);
            && IsModule(out, takes)
            && Sections(out, takes) == Sections(optimized, takes)
               + Missing(Sections(original, takes), Sections(optimized, takes), names)
    decreases |names|
  {
    if names != [] {
      var next := Preserved(original, optimized, names[0], takes);
      var before, theirs := Sections(optimized, takes), Sections(original, takes);
      var added := Missing(theirs, before, [names[0]]);
      PreservedReads(original, optimized, names[0], takes);
      AllPreservedReads(original, next, names[1..], takes);
      MissingInTurn(theirs, before, names);
      Joined(before, added, Missing(theirs, before, names[1..]));
    } else {
      assert Sections(optimized, takes) + [] == Sections(optimized, takes);
    }
  }

  /** What is missing under the first name, and then what is still missing. */
  lemma MissingInTurn(original: seq<Section>, optimized: seq<Section>, names: seq<seq<byte>>)
    requires names != [] && AreDistinct(names)
    ensures var added := Missing(original, optimized, [names[0]]);
            && Missing(original, optimized, names) == added + Missing(original, optimized, names[1..])
            && Missing(original, optimized + added, names[1..]) == Missing(original, optimized, names[1..])
  {
    var added := Missing(original, optimized, [names[0]]);
    assert Missing(original, optimized, [names[0]][1..]) == [];
    if added == [] {
      assert optimized + added == optimized;
    } else {
      assert names[0] !in names[1..];
      assert added == [added[0]];
      MissingStays(original, optimized, added[0], names[1..]);
    }
  }

  lemma {:induction false} AllPreservedKeeps(original: seq<byte>, optimized: seq<byte>, names: seq<seq<byte>>,
      takes: Section -> bool)
    ensures optimized <= AllPreserved(original, optimized, names, takes)
    decreases |names|
  {
    if names != [] {
      AllPreservedKeeps(original, Preserved(original, optimized, names[0], takes), names[1..], takes);
    }
  }

  // ----- Twice is once

  /** Every section the original has under one of the names is there. */
  ghost predicate AreThere(original: seq<Section>, out: seq<Section>, names: seq<seq<byte>>) {
    forall i :: 0 <= i < |names| ==> Named(original, names[i]).Some? ==> Named(out, names[i]).Some?
  }

  lemma {:induction false} MissingAreThere(original: seq<Section>, optimized: seq<Section>, names: seq<seq<byte>>,
      i: nat)
    requires i < |names| && Named(original, names[i]).Some? && Named(optimized, names[i]).None?
    ensures Named(Missing(original, optimized, names), names[i]).Some?
    decreases i
  {
    if i > 0 {
      MissingAreThere(original, optimized, names[1..], i - 1);
      var all, rest := Missing(original, optimized, names), Missing(original, optimized, names[1..]);
      var first := all[..|all| - |rest|];
      assert all == first + rest;
      NamedOfJoined(first, rest, names[i]);
    }
  }

  lemma {:induction false} NothingToPreserve(original: seq<byte>, out: seq<byte>, names: seq<seq<byte>>,
      takes: Section -> bool)
    requires AreThere(Sections(original, takes), Sections(out, takes), names)
    ensures AllPreserved(original, out, names, takes) == out
    decreases |names|
  {
    if names != [] {
      var rest := names[1..];
      assert Named(Sections(original, takes), names[0]).Some? ==> Named(Sections(out, takes), names[0]).Some?;
      assert forall i :: 0 <= i < |rest| ==> rest[i] == names[i + 1];
      NothingToPreserve(original, out, rest, takes);
    }
  }

  /** Putting the sections back twice is putting them back once. */
  lemma PreservedTwice(original: seq<byte>, optimized: seq<byte>, names: seq<seq<byte>>, takes: Section -> bool)
    requires IsModule(optimized, takes) && AreDistinct(names)
    ensures var out := AllPreserved(original, optimized, names, takes);
            AllPreserved(original, out, names, takes) == out
  {
    var out := AllPreserved(original, optimized, names, takes);
    AllPreservedReads(original, optimized, names, takes);
    var theirs, before := Sections(original, takes), Sections(optimized, takes);
    forall i | 0 <= i < |names| && Named(theirs, names[i]).Some?
      ensures Named(Sections(out, takes), names[i]).Some?
    {
      NamedOfJoined(before, Missing(theirs, before, names), names[i]);
      if Named(before, names[i]).None? {
        MissingAreThere(theirs, before, names, i);
      }
    }
    NothingToPreserve(original, out, names, takes);
  }
}
