/** The instructions of a delta: section "Deltified representation" of gitformat-pack. */
module Deltas {
  import opened Bytes
  import opened Cursors
  import opened Wrappers

  /** One instruction, with the spelling of its numbers: bit `k` of `mask` says whether byte `k`
      of the offset (bits 0 to 3) or of the size (bits 4 to 6) is written. An absent byte is
      zero, and so a number has many spellings. */
  datatype Instruction =
    | Insert(run: seq<byte>)
    | Copy(offset: nat, sizeField: nat, mask: nat)
  {
    /** What the size field says: zero stands for 0x10000. */
    function Size(): nat
      requires Copy?
    {
      if sizeField == 0 then 0x10000 else sizeField
    }

    /** Whether the copied run is inside the base. */
    predicate InRange(base: seq<byte>) {
      Copy? ==> offset + Size() <= |base|
    }

    function Run(base: seq<byte>): seq<byte>
      requires InRange(base)
    {
      if Insert? then run else base[offset..offset + Size()]
    }
  }

  // ----- Reading

  /** A number `count` bytes wide, the lowest first, of which only those `mask` has are there. */
  function MaskedAt(data: seq<byte>, pos: nat, mask: nat, count: nat): (r: Result<Parsed<nat>, Error>)
    requires pos <= |data|
    ensures r.Failure? ==> r.error == EndOfStream
    ensures r.Success? ==> pos <= r.value.next <= |data|
    decreases |data| - pos, count
  {
    if count == 0 then Success(Parsed(0, pos))
    else if mask % 2 == 0 then
      var rest :- MaskedAt(data, pos, mask / 2, count - 1);
      Success(Parsed(256 * rest.value, rest.next))
    else if pos == |data| then Failure(EndOfStream)
    else
      var rest :- MaskedAt(data, pos + 1, mask / 2, count - 1);
      Success(Parsed(data[pos] + 256 * rest.value, rest.next))
  }

  function CopyAt(data: seq<byte>, pos: nat, mask: nat): (r: Result<Parsed<Instruction>, Error>)
    requires pos <= |data| && mask < 128
    ensures r.Failure? ==> r.error == EndOfStream
    ensures r.Success? ==> pos <= r.value.next <= |data|
  {
    var offset :- MaskedAt(data, pos, mask % 16, 4);
    var size :- MaskedAt(data, offset.next, mask / 16, 3);
    Success(Parsed(Copy(offset.value, size.value, mask), size.next))
  }

  function InstructionAt(data: seq<byte>, pos: nat): (r: Result<Parsed<Instruction>, Error>)
    requires pos < |data|
    ensures r.Failure? ==> r.error.EndOfStream? || r.error.InvalidDeltaInstruction?
    ensures r.Success? ==> pos < r.value.next <= |data|
  {
    var inst := data[pos];
    if inst >= 128 then CopyAt(data, pos + 1, inst - 128)
    else if inst != 0 then
      var run :- TakeAt(data, pos + 1, inst);
      Success(Parsed(Insert(run), pos + 1 + inst))
    else Failure(InvalidDeltaInstruction)
  }

  /** The run the instruction at `pos` makes. */
  function RunAt(base: seq<byte>, data: seq<byte>, pos: nat): (r: Result<seq<byte>, Error>)
    requires pos < |data|
    ensures r.Failure? ==> !r.error.IncompletePack?
    ensures r.Success? ==> InstructionAt(data, pos).Success?
  {
    var inst :- InstructionAt(data, pos);
    if inst.value.InRange(base) then Success(inst.value.Run(base)) else Failure(InvalidObject)
  }

  /** The rest of the expansion, once the instructions before `pos` made `out`. */
  function ExpandFrom(base: seq<byte>, data: seq<byte>, pos: nat, out: seq<byte>, limit: nat)
    : (r: Result<seq<byte>, Error>)
    ensures r.Failure? ==> !r.error.IncompletePack?
    decreases |data| - pos
  {
    if pos >= |data| then if |out| == limit then Success(out) else Failure(InvalidObject)
    else
      var run :- RunAt(base, data, pos);
      if |out + run| > limit then Failure(InvalidObject)
      else ExpandFrom(base, data, InstructionAt(data, pos).value.next, out + run, limit)
  }

  method ReadMasked(cursor: Cursor, inst: nat, count: nat) returns (r: Result<nat, Error>)
    requires cursor.pos <= |cursor.data|
    modifies cursor
    ensures r.Failure? ==> MaskedAt(cursor.data, old(cursor.pos), inst, count) == Failure(r.error)
    ensures r.Success? ==> MaskedAt(cursor.data, old(cursor.pos), inst, count) == Success(Parsed(r.value, cursor.pos))
  {
    var value: nat, mask := 0, inst;
    ghost var whole := MaskedAt(cursor.data, cursor.pos, inst, count);
    for i := 0 to count
      invariant cursor.pos <= |cursor.data| && 0 <= mask
      invariant whole == Shifted(value, 8 * i, MaskedAt(cursor.data, cursor.pos, mask, count - i))
    {
      MaskedStep(value, i, cursor.data, cursor.pos, mask, count - i);
      if mask % 2 != 0 {
        var byte :- cursor.Byte();
        value := value + Shl(byte, 8 * i);
      }
      mask := mask / 2;
    }
    return Success(value);
  }

  lemma MaskedStep(value: nat, i: nat, data: seq<byte>, pos: nat, mask: nat, count: nat)
    requires pos <= |data| && count > 0
    ensures Shifted(value, 8 * i, MaskedAt(data, pos, mask, count))
         == if mask % 2 == 0 then Shifted(value, 8 * (i + 1), MaskedAt(data, pos, mask / 2, count - 1))
            else if pos == |data| then Failure(EndOfStream)
            else Shifted(value + Shl(data[pos], 8 * i), 8 * (i + 1), MaskedAt(data, pos + 1, mask / 2, count - 1))
  {
    var byte, next := if mask % 2 == 0 || pos == |data| then 0 else data[pos], if mask % 2 == 0 then pos else pos + 1;
    if next <= |data| {
      var rest := MaskedAt(data, next, mask / 2, count - 1);
      if rest.Success? {
        ShlByte(byte, rest.value.value, 8 * i);
      }
    }
  }

  /** The offset and the size of a copy, whose first byte had the bits `mask`. */
  method ReadCopy(cursor: Cursor, mask: nat) returns (r: Result<(nat, nat), Error>)
    requires cursor.pos <= |cursor.data| && mask < 128
    modifies cursor
    ensures r.Failure? ==> CopyAt(cursor.data, old(cursor.pos), mask) == Failure(r.error)
    ensures r.Success? ==>
              && CopyAt(cursor.data, old(cursor.pos), mask).Success?
              && var copy := CopyAt(cursor.data, old(cursor.pos), mask).value;
                 copy.next == cursor.pos && copy.value.Copy? && r.value == (copy.value.offset, copy.value.Size())
  {
    var offset :- ReadMasked(cursor, mask % 16, 4);
    var size :- ReadMasked(cursor, mask / 16, 3);
    if size == 0 {
      size := 0x10000;
    }
    return Success((offset, size));
  }

  /** The run the next instruction of the delta makes. */
  method ReadRun(base: seq<byte>, delta: Cursor) returns (r: Result<seq<byte>, Error>)
    requires delta.pos < |delta.data|
    modifies delta
    ensures r == RunAt(base, delta.data, old(delta.pos))
    ensures r.Success? ==> InstructionAt(delta.data, old(delta.pos)).value.next == delta.pos
  {
    var first := delta.Byte();
    var inst := first.value;
    if inst >= 128 {
      var copy :- ReadCopy(delta, inst - 128);
      var (offset, size) := copy;
      return if offset + size > |base| then Failure(InvalidObject) else Success(base[offset..offset + size]);
    } else if inst != 0 {
      r := delta.Take(inst);
    } else {
      return Failure(InvalidDeltaInstruction);
    }
  }

  /** Applies a delta to `base`, from where the cursor is. */
  method ExpandDelta(base: seq<byte>, delta: Cursor, limit: nat) returns (r: Result<seq<byte>, Error>)
    requires delta.pos <= |delta.data|
    modifies delta
    ensures r == ExpandFrom(base, delta.data, old(delta.pos), [], limit)
  {
    var out := [];
    ghost var whole := ExpandFrom(base, delta.data, delta.pos, [], limit);
    while delta.pos < |delta.data|
      invariant delta.pos <= |delta.data|
      invariant whole == ExpandFrom(base, delta.data, delta.pos, out, limit)
      decreases |delta.data| - delta.pos
    {
      var run :- ReadRun(base, delta);
      out := out + run;
      if |out| > limit {
        return Failure(InvalidObject);
      }
    }
    if |out| != limit {
      return Failure(InvalidObject);
    }
    return Success(out);
  }

  // ----- What a writer of deltas puts there

  function MaskedBytes(v: nat, mask: nat, count: nat): seq<byte>
    decreases v, count
  {
    if count == 0 then []
    else (if mask % 2 == 0 then [] else [v % 256]) + MaskedBytes(v / 256, mask / 2, count - 1)
  }

  /** Whether `v` is written by `count` bytes when those `mask` lacks are left out. */
  predicate Masks(v: nat, mask: nat, count: nat)
    decreases v, count
  {
    if count == 0 then v == 0
    else (mask % 2 == 0 ==> v % 256 == 0) && Masks(v / 256, mask / 2, count - 1)
  }

  predicate Valid(inst: Instruction) {
    match inst
    case Insert(run) => 0 < |run| < 128
    case Copy(offset, sizeField, mask) =>
      mask < 128 && Masks(offset, mask % 16, 4) && Masks(sizeField, mask / 16, 3)
  }

  function Code(inst: Instruction): seq<byte>
    requires Valid(inst)
  {
    match inst
    case Insert(run) => [|run|] + run
    case Copy(_, _, mask) => [128 + mask] + CopyCode(inst)
  }

  function CopyCode(inst: Instruction): seq<byte>
    requires inst.Copy?
  {
    MaskedBytes(inst.offset, inst.mask % 16, 4) + MaskedBytes(inst.sizeField, inst.mask / 16, 3)
  }

  ghost predicate AllValid(insts: seq<Instruction>) {
    forall i :: 0 <= i < |insts| ==> Valid(insts[i])
  }

  ghost function Codes(insts: seq<Instruction>): seq<byte>
    requires AllValid(insts)
  {
    if insts == [] then [] else Code(insts[0]) + Codes(insts[1..])
  }

  ghost predicate AllInRange(base: seq<byte>, insts: seq<Instruction>) {
    forall i :: 0 <= i < |insts| ==> insts[i].InRange(base)
  }

  /** The runs of the instructions, one after the other. */
  ghost function Runs(base: seq<byte>, insts: seq<Instruction>): seq<byte>
    requires AllInRange(base, insts)
  {
    if insts == [] then [] else insts[0].Run(base) + Runs(base, insts[1..])
  }

  lemma {:induction false} MaskedRoundTrip(v: nat, mask: nat, count: nat, data: seq<byte>, pos: nat)
    requires Masks(v, mask, count) && StandsAt(data, pos, MaskedBytes(v, mask, count))
    ensures MaskedAt(data, pos, mask, count) == Success(Parsed(v, pos + |MaskedBytes(v, mask, count)|))
    decreases count
  {
    if count > 0 {
      var first := if mask % 2 == 0 then [] else [v % 256];
      StandsApart(data, pos, first, MaskedBytes(v / 256, mask / 2, count - 1));
      MaskedRoundTrip(v / 256, mask / 2, count - 1, data, pos + |first|);
      if mask % 2 == 1 {
        assert data[pos + 0] == first[0];
      }
    }
  }

  lemma CopyRoundTrip(inst: Instruction, data: seq<byte>, pos: nat)
    requires inst.Copy? && Valid(inst) && StandsAt(data, pos, CopyCode(inst))
    ensures CopyAt(data, pos, inst.mask) == Success(Parsed(inst, pos + |CopyCode(inst)|))
  {
    var offsetCode := MaskedBytes(inst.offset, inst.mask % 16, 4);
    StandsApart(data, pos, offsetCode, MaskedBytes(inst.sizeField, inst.mask / 16, 3));
    MaskedRoundTrip(inst.offset, inst.mask % 16, 4, data, pos);
    MaskedRoundTrip(inst.sizeField, inst.mask / 16, 3, data, pos + |offsetCode|);
  }

  lemma CopyIsRead(inst: Instruction, data: seq<byte>, pos: nat)
    requires inst.Copy? && Valid(inst) && StandsAt(data, pos, Code(inst))
    ensures pos < |data| && InstructionAt(data, pos) == Success(Parsed(inst, pos + |Code(inst)|))
  {
    assert data[pos + 0] == Code(inst)[0];
    StandsApart(data, pos, [128 + inst.mask], CopyCode(inst));
    CopyRoundTrip(inst, data, pos + 1);
  }

  lemma InsertIsRead(inst: Instruction, data: seq<byte>, pos: nat)
    requires inst.Insert? && Valid(inst) && StandsAt(data, pos, Code(inst))
    ensures pos < |data| && InstructionAt(data, pos) == Success(Parsed(inst, pos + |Code(inst)|))
  {
    assert data[pos + 0] == Code(inst)[0];
    StandsApart(data, pos, [|inst.run|], inst.run);
    InsertRoundTrip(inst.run, data, pos);
  }

  lemma InsertRoundTrip(run: seq<byte>, data: seq<byte>, pos: nat)
    requires 0 < |run| < 128 && pos < |data| && data[pos] == |run| && StandsAt(data, pos + 1, run)
    ensures InstructionAt(data, pos) == Success(Parsed(Insert(run), pos + 1 + |run|))
  {
    assert data[pos + 1..pos + 1 + |run|] == run;
  }

  lemma InstructionRoundTrip(inst: Instruction, data: seq<byte>, pos: nat)
    requires Valid(inst) && StandsAt(data, pos, Code(inst))
    ensures pos < |data| && InstructionAt(data, pos) == Success(Parsed(inst, pos + |Code(inst)|))
  {
    match inst
    case Insert(_) => InsertIsRead(inst, data, pos);
    case Copy(_, _, _) => CopyIsRead(inst, data, pos);
  }

  /** One instruction of an expansion. */
  lemma ExpandStep(base: seq<byte>, inst: Instruction, data: seq<byte>, pos: nat, next: nat, out: seq<byte>, limit: nat)
    requires pos < |data| && InstructionAt(data, pos) == Success(Parsed(inst, next))
    ensures ExpandFrom(base, data, pos, out, limit)
         == if !inst.InRange(base) || |out + inst.Run(base)| > limit then Failure(InvalidObject)
            else ExpandFrom(base, data, next, out + inst.Run(base), limit)
  {
  }

  ghost function Outcome(base: seq<byte>, insts: seq<Instruction>, out: seq<byte>, limit: nat)
    : Result<seq<byte>, Error>
  {
    if AllInRange(base, insts) && |out + Runs(base, insts)| == limit
    then Success(out + Runs(base, insts)) else Failure(InvalidObject)
  }

  lemma OutcomeCons(base: seq<byte>, insts: seq<Instruction>, out: seq<byte>, limit: nat)
    requires insts != []
    ensures Outcome(base, insts, out, limit)
         == if !insts[0].InRange(base) || |out + insts[0].Run(base)| > limit then Failure(InvalidObject)
            else Outcome(base, insts[1..], out + insts[0].Run(base), limit)
  {
    if AllInRange(base, insts) {
      assert out + Runs(base, insts) == (out + insts[0].Run(base)) + Runs(base, insts[1..]);
    }
  }

  lemma {:induction false} ExpandsFrom(base: seq<byte>, insts: seq<Instruction>, data: seq<byte>, pos: nat,
                                       out: seq<byte>, limit: nat)
    requires AllValid(insts)
    requires StandsAt(data, pos, Codes(insts)) && pos + |Codes(insts)| == |data| && |out| <= limit
    ensures ExpandFrom(base, data, pos, out, limit) == Outcome(base, insts, out, limit)
    decreases |insts|
  {
    if insts == [] {
      assert out + Runs(base, insts) == out;
    } else {
      var inst := insts[0];
      StandsApart(data, pos, Code(inst), Codes(insts[1..]));
      InstructionRoundTrip(inst, data, pos);
      var next := pos + |Code(inst)|;
      ExpandStep(base, inst, data, pos, next, out, limit);
      OutcomeCons(base, insts, out, limit);
      if inst.InRange(base) && |out + inst.Run(base)| <= limit {
        ExpandsFrom(base, insts[1..], data, next, out + inst.Run(base), limit);
      }
    }
  }

  /** A list of valid instructions, in any of its spellings, expands to the concatenation of its
      runs exactly when every copy is inside the base and the length is the announced one. The
      check after each instruction refuses nothing the last one would accept. */
  lemma ExpandsToRuns(base: seq<byte>, insts: seq<Instruction>, data: seq<byte>, pos: nat, limit: nat)
    requires AllValid(insts)
    requires StandsAt(data, pos, Codes(insts)) && pos + |Codes(insts)| == |data|
    ensures ExpandFrom(base, data, pos, [], limit)
         == if AllInRange(base, insts) && |Runs(base, insts)| == limit
            then Success(Runs(base, insts)) else Failure(InvalidObject)
  {
    ExpandsFrom(base, insts, data, pos, [], limit);
    OutcomeFromNothing(base, insts, limit);
  }

  lemma OutcomeFromNothing(base: seq<byte>, insts: seq<Instruction>, limit: nat)
    ensures Outcome(base, insts, [], limit)
         == if AllInRange(base, insts) && |Runs(base, insts)| == limit
            then Success(Runs(base, insts)) else Failure(InvalidObject)
  {
    if AllInRange(base, insts) {
      assert [] + Runs(base, insts) == Runs(base, insts);
    }
  }

  lemma {:induction false} MaskedSpells(data: seq<byte>, pos: nat, mask: nat, count: nat)
    requires pos <= |data| && MaskedAt(data, pos, mask, count).Success?
    ensures var read := MaskedAt(data, pos, mask, count).value;
            Masks(read.value, mask, count) && data[pos..read.next] == MaskedBytes(read.value, mask, count)
    decreases count
  {
    if count > 0 {
      var read := MaskedAt(data, pos, mask, count).value;
      var next := if mask % 2 == 0 then pos else pos + 1;
      MaskedSpells(data, next, mask / 2, count - 1);
      var rest := MaskedAt(data, next, mask / 2, count - 1).value;
      LowByteOf(if mask % 2 == 0 then 0 else data[pos], rest.value);
      assert data[pos..read.next] == data[pos..next] + data[next..read.next];
    }
  }

  lemma LowByteOf(low: byte, high: nat)
    ensures (low + 256 * high) % 256 == low && (low + 256 * high) / 256 == high
  {
  }

  lemma CopySpells(data: seq<byte>, pos: nat, mask: nat)
    requires pos <= |data| && mask < 128 && CopyAt(data, pos, mask).Success?
    ensures var read := CopyAt(data, pos, mask).value;
            && read.value.Copy? && read.value.mask == mask && Valid(read.value)
            && data[pos..read.next] == CopyCode(read.value)
  {
    var offset := MaskedAt(data, pos, mask % 16, 4).value;
    var size := MaskedAt(data, offset.next, mask / 16, 3).value;
    MaskedSpells(data, pos, mask % 16, 4);
    MaskedSpells(data, offset.next, mask / 16, 3);
    assert data[pos..size.next] == data[pos..offset.next] + data[offset.next..size.next];
  }

  lemma InstructionSpells(data: seq<byte>, pos: nat)
    requires pos < |data| && InstructionAt(data, pos).Success?
    ensures var read := InstructionAt(data, pos).value;
            Valid(read.value) && data[pos..read.next] == Code(read.value)
  {
    var inst := data[pos];
    var read := InstructionAt(data, pos).value;
    if inst >= 128 {
      CopySpells(data, pos + 1, inst - 128);
      FirstOf(data, pos, read.next, CopyCode(read.value));
    } else {
      FirstOf(data, pos, read.next, read.value.run);
    }
  }

  lemma FirstOf(data: seq<byte>, pos: nat, next: nat, rest: seq<byte>)
    requires pos < next <= |data| && data[pos + 1..next] == rest
    ensures data[pos..next] == [data[pos]] + rest
  {
  }

  /** Nothing else expands: what did was a list of valid instructions. */
  lemma {:induction false} OnlyInstructionsExpand(base: seq<byte>, data: seq<byte>, pos: nat, out: seq<byte>,
                                                  limit: nat)
    returns (insts: seq<Instruction>)
    requires pos <= |data| && ExpandFrom(base, data, pos, out, limit).Success?
    ensures AllValid(insts) && data[pos..] == Codes(insts)
    ensures ExpandFrom(base, data, pos, out, limit) == Outcome(base, insts, out, limit)
    decreases |data| - pos
  {
    if pos == |data| {
      insts := [];
      assert out + Runs(base, insts) == out;
    } else {
      var inst := InstructionAt(data, pos).value;
      InstructionSpells(data, pos);
      ExpandStep(base, inst.value, data, pos, inst.next, out, limit);
      var rest := OnlyInstructionsExpand(base, data, inst.next, out + inst.value.Run(base), limit);
      insts := Cons(inst.value, rest);
      OutcomeCons(base, insts, out, limit);
      Split(data, pos, inst.next);
    }
  }

  lemma Split(data: seq<byte>, pos: nat, next: nat)
    requires pos <= next <= |data|
    ensures data[pos..] == data[pos..next] + data[next..]
  {
  }

  lemma Cons(inst: Instruction, rest: seq<Instruction>) returns (insts: seq<Instruction>)
    requires Valid(inst) && AllValid(rest)
    ensures insts != [] && insts[0] == inst && insts[1..] == rest
    ensures AllValid(insts) && Codes(insts) == Code(inst) + Codes(rest)
  {
    insts := [inst] + rest;
    assert insts[1..] == rest;
  }
}
