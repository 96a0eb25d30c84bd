/** Tree objects, and the files of a commit. */
module TreeObjects {
  import opened Bytes
  import opened Cursors
  import opened DeltaGraphs
  import opened EntryHeaders
  import opened Numbers
  import opened PortablePaths
  import opened Wrappers

  datatype EntryKind = Directory | File | Symlink | Gitlink

  datatype TreeEntry = TreeEntry(kind: EntryKind, name: string, oid: Oid)

  /** Where `b` is in `data`, from `pos` on. */
  function IndexOf(data: seq<byte>, b: byte, pos: nat): (r: Option<nat>)
    requires pos <= |data|
    ensures r.Some? ==> pos <= r.value < |data|
    decreases |data| - pos
  {
    if pos == |data| then None else if data[pos] == b then Some(pos) else IndexOf(data, b, pos + 1)
  }

  lemma {:induction false} IndexIsFirst(data: seq<byte>, b: byte, pos: nat)
    requires pos <= |data| && IndexOf(data, b, pos).Some?
    ensures var at := IndexOf(data, b, pos).value; data[at] == b && b !in data[pos..at]
    decreases |data| - pos
  {
    if data[pos] != b {
      IndexIsFirst(data, b, pos + 1);
      var at := IndexOf(data, b, pos).value;
      assert data[pos..at] == [data[pos]] + data[pos + 1..at];
    }
  }

  lemma {:induction false} IndexAfter(data: seq<byte>, b: byte, pos: nat, at: nat)
    requires pos <= at < |data| && data[at] == b && b !in data[pos..at]
    ensures IndexOf(data, b, pos) == Some(at)
    decreases at - pos
  {
    if pos < at {
      assert data[pos] == data[pos..at][0];
      assert data[pos..at][1..] == data[pos + 1..at];
      IndexAfter(data, b, pos + 1, at);
    }
  }

  /** The kind a mode spells: what it is above the twelfth bit, and the permissions a file has. */
  function KindOfMode(mode: nat): Option<EntryKind> {
    var permissions := mode % 512;
    match mode / 4096
    case 4 => if permissions == 0 then Some(Directory) else None
    case 8 => if permissions == 420 || permissions == 493 then Some(File) else None
    case 10 => if permissions == 0 then Some(Symlink) else None
    case 14 => if permissions == 0 then Some(Gitlink) else None
    case _ => None
  }

  /** One part of a path, the same on every system: a server does not write outside the package. */
  predicate IsSafeName(name: string) {
    IsPlain(name) && forall i :: 0 <= i < |name| ==> name[i] !in {'/', '\\', ':'} && !IsControl(name[i])
  }

  /** A name that says one part of a path: not none, nor this folder or the one above, with no separator, drive
      or control character. */
  ghost predicate IsOnePart(name: string) {
    && name !in {"", ".", ".."}
    && forall i :: 0 <= i < |name| ==>
         name[i] !in {'/', '\\', ':'} && 0x20 <= name[i] as int && !(0x7f <= name[i] as int < 0xa0)
  }

  lemma PartIsExact(name: string)
    ensures IsSafeName(name) <==> IsOnePart(name)
  {
  }

  /** Whether a mode is one of the kind, three of its bits aside: 40000, 100644 or 100755, 120000 and 160000 in
      octal. */
  ghost predicate IsMode(mode: nat, kind: EntryKind) {
    var plain := mode - mode / 512 % 8 * 512;
    match kind
    case Directory => plain == 0x4000
    case File => plain == 0x81a4 || plain == 0x81ed
    case Symlink => plain == 0xa000
    case Gitlink => plain == 0xe000
  }

  lemma ModeIsExact(mode: nat, kind: EntryKind)
    ensures KindOfMode(mode) == Some(kind) <==> IsMode(mode, kind)
  {
    assert mode == mode / 4096 * 4096 + mode / 512 % 8 * 512 + mode % 512;
  }

  /** Whether `digits` are a mode of the kind, in octal and in 16 bits. */
  ghost predicate AreDigits(digits: seq<byte>, kind: EntryKind) {
    exists mode: nat :: mode < 0x1_0000 && IsOctal(digits, mode) && IsMode(mode, kind)
  }

  lemma DigitsAreExact(digits: seq<byte>, kind: EntryKind)
    ensures (var mode := ParseUnsigned(digits, 8, 0x1_0000); mode.Some? && KindOfMode(mode.value) == Some(kind))
       <==> AreDigits(digits, kind)
    ensures AreDigits(digits, kind) ==> 0x20 !in digits
  {
    var read := ParseUnsigned(digits, 8, 0x1_0000);
    if read.Some? {
      OctalIsExact(digits, 0x1_0000, read.value);
      ModeIsExact(read.value, kind);
    }
    if mode: nat :| mode < 0x1_0000 && IsOctal(digits, mode) && IsMode(mode, kind) {
      OctalIsExact(digits, 0x1_0000, mode);
      NoSpaceInOctal(digits, mode);
    }
  }

  lemma OctalAreDigits(mode: nat, kind: EntryKind)
    requires mode < 0x1_0000 && IsMode(mode, kind)
    ensures AreDigits(Octal(mode), kind)
  {
    var digits := Octal(mode);
    var none: seq<byte> := [];
    assert Zeros(0) == none && none + digits == digits;
    assert digits == PaddedOctal(false, 0, mode);
  }

  /** "tree " */
  const TREE: seq<byte> := [0x74, 0x72, 0x65, 0x65, 0x20]

  /** The line a commit starts with. */
  ghost function TreeLine(code: seq<byte>): seq<byte> {
    [0x74, 0x72, 0x65, 0x65, 0x20] + (code + [0x0a])
  }

  /** An entry of a tree: its mode, its name and its ID. */
  ghost function EntryCode(digits: seq<byte>, code: seq<byte>, oid: Oid): seq<byte> {
    digits + ([0x20] + (code + ([0] + oid.bytes)))
  }

  lemma EntryApart(data: seq<byte>, pos: nat, digits: seq<byte>, code: seq<byte>, oid: Oid)
    ensures var modeEnd := pos + |digits|;
            var nameEnd := modeEnd + 1 + |code|;
            var end := nameEnd + 1 + |oid.bytes|;
            |EntryCode(digits, code, oid)| == end - pos
            && (StandsAt(data, pos, EntryCode(digits, code, oid))
                <==> && end <= |data|
                     && data[pos..modeEnd] == digits && data[modeEnd] == 0x20
                     && data[modeEnd + 1..nameEnd] == code && data[nameEnd] == 0
                     && data[nameEnd + 1..end] == oid.bytes)
  {
    var modeEnd := pos + |digits|;
    var nameEnd := modeEnd + 1 + |code|;
    var end := nameEnd + 1 + |oid.bytes|;
    if StandsAt(data, pos, EntryCode(digits, code, oid)) {
      var name := code + ([0] + oid.bytes);
      StandsApart(data, pos, digits, [0x20] + name);
      StandsApart(data, modeEnd, [0x20], name);
      StandsApart(data, modeEnd + 1, code, [0] + oid.bytes);
      StandsApart(data, nameEnd, [0], oid.bytes);
      assert data[pos..modeEnd] == digits && data[modeEnd + 1..nameEnd] == code && data[nameEnd + 1..end] == oid.bytes;
      assert data[modeEnd] == [0x20][0] && data[nameEnd] == [0][0];
    }
    if end <= |data| && data[pos..modeEnd] == digits && data[modeEnd] == 0x20
       && data[modeEnd + 1..nameEnd] == code && data[nameEnd] == 0 && data[nameEnd + 1..end] == oid.bytes
    {
      assert data[pos..end] == EntryCode(digits, code, oid);
      assert forall i :: 0 <= i < end - pos ==> data[pos + i] == data[pos..end][i];
    }
  }

  /** How a tree is read: the format of its IDs, and the decoder of its names. */
  datatype Reading = Reading(format: Format, utf8: seq<byte> -> Option<string>) {

    /** The entry at `pos`, and the position after it; nothing at the end. */
    function EntryAt(data: seq<byte>, pos: nat): (r: Result<Option<Parsed<TreeEntry>>, Error>)
      requires pos <= |data|
      ensures r.Failure? ==> r.error == InvalidTree
      ensures r.Success? && r.value.Some? ==>
                pos < r.value.value.next <= |data| && IsSafeName(r.value.value.value.name)
      ensures r.Success? && r.value.None? ==> pos == |data|
    {
      if pos == |data| then Success(None)
      else
        match ParsedEntryAt(data, pos)
        case None => Failure(InvalidTree)
        case Some(entry) => Success(Some(entry))
    }

    function ParsedEntryAt(data: seq<byte>, pos: nat): (r: Option<Parsed<TreeEntry>>)
      requires pos <= |data|
      ensures r.Some? ==> pos < r.value.next <= |data| && IsSafeName(r.value.value.name)
    {
      var modeEnd :- IndexOf(data, 0x20, pos);
      var mode :- ParseUnsigned(data[pos..modeEnd], 8, 0x1_0000);
      var kind :- KindOfMode(mode);
      var nameEnd :- IndexOf(data, 0, modeEnd + 1);
      var name :- utf8(data[modeEnd + 1..nameEnd]);
      var end := nameEnd + 1 + format.ByteLength();
      if IsSafeName(name) && end <= |data|
      then Some(Parsed(TreeEntry(kind, name, Oid(data[nameEnd + 1..end])), end))
      else None
    }

    /** The ID of the tree a commit is of: its first line. */
    function CommitTree(data: seq<byte>): Result<Oid, Error> {
      var hex := 2 * format.ByteLength();
      if |data| <= 5 + hex || data[..5] != TREE || data[5 + hex] != 0x0a
      then Failure(InvalidCommit)
      else match HexBytes(data[5..5 + hex])
        case None => Failure(InvalidCommit)
        case Some(bytes) => Success(Oid(bytes))
    }

    // ----- What is written is what is read

    /** Whether `digits` and `code` are the mode and the name of `entry`, as a tree may write them. */
    ghost predicate IsEntry(digits: seq<byte>, code: seq<byte>, entry: TreeEntry) {
      && AreDigits(digits, entry.kind)
      && 0 !in code && utf8(code) == Some(entry.name) && IsOnePart(entry.name)
      && |entry.oid.bytes| == if format.Sha1? then 20 else 32
    }

    /** An entry is read wherever it is written, and nothing else is read as one. */
    lemma EntryIsExact(data: seq<byte>, pos: nat, entry: TreeEntry, next: nat)
      requires pos <= |data|
      ensures EntryAt(data, pos) == Success(Some(Parsed(entry, next)))
         <==> exists digits, code ::
                && IsEntry(digits, code, entry)
                && StandsAt(data, pos, EntryCode(digits, code, entry.oid))
                && next == pos + |EntryCode(digits, code, entry.oid)|
    {
      if EntryAt(data, pos) == Success(Some(Parsed(entry, next))) {
        var digits, code := EntryIsWritten(data, pos, entry, next);
      }
      if digits, code :| && IsEntry(digits, code, entry)
                         && StandsAt(data, pos, EntryCode(digits, code, entry.oid))
                         && next == pos + |EntryCode(digits, code, entry.oid)|
      {
        EntryIsRead(data, pos, digits, code, entry);
      }
    }

    /** Whether a mode ends at `modeEnd`, a name at `nameEnd` and an ID at `end`, those of the entry. */
    ghost predicate IsFound(data: seq<byte>, pos: nat, modeEnd: nat, nameEnd: nat, end: nat, entry: TreeEntry) {
      && pos <= modeEnd < nameEnd < end <= |data| && end == nameEnd + 1 + format.ByteLength()
      && IndexOf(data, 0x20, pos) == Some(modeEnd) && IndexOf(data, 0, modeEnd + 1) == Some(nameEnd)
      && (var mode := ParseUnsigned(data[pos..modeEnd], 8, 0x1_0000);
          mode.Some? && KindOfMode(mode.value) == Some(entry.kind))
      && utf8(data[modeEnd + 1..nameEnd]) == Some(entry.name) && IsSafeName(entry.name)
      && entry.oid.bytes == data[nameEnd + 1..end]
    }

    lemma EntryIsFound(data: seq<byte>, pos: nat, entry: TreeEntry, next: nat) returns (modeEnd: nat, nameEnd: nat)
      requires pos <= |data| && EntryAt(data, pos) == Success(Some(Parsed(entry, next)))
      ensures IsFound(data, pos, modeEnd, nameEnd, next, entry)
    {
      modeEnd := IndexOf(data, 0x20, pos).value;
      nameEnd := IndexOf(data, 0, modeEnd + 1).value;
    }

    lemma EntryIsWritten(data: seq<byte>, pos: nat, entry: TreeEntry, next: nat)
      returns (digits: seq<byte>, code: seq<byte>)
      requires pos <= |data| && EntryAt(data, pos) == Success(Some(Parsed(entry, next)))
      ensures IsEntry(digits, code, entry) && StandsAt(data, pos, EntryCode(digits, code, entry.oid))
      ensures next == pos + |EntryCode(digits, code, entry.oid)|
    {
      var modeEnd, nameEnd := EntryIsFound(data, pos, entry, next);
      digits, code := data[pos..modeEnd], data[modeEnd + 1..nameEnd];
      FoundIsWritten(data, pos, modeEnd, nameEnd, next, entry, digits, code);
    }

    lemma FoundIsWritten(data: seq<byte>, pos: nat, modeEnd: nat, nameEnd: nat, end: nat, entry: TreeEntry,
                         digits: seq<byte>, code: seq<byte>)
      requires IsFound(data, pos, modeEnd, nameEnd, end, entry)
      requires digits == data[pos..modeEnd] && code == data[modeEnd + 1..nameEnd]
      ensures IsEntry(digits, code, entry) && StandsAt(data, pos, EntryCode(digits, code, entry.oid))
      ensures end == pos + |EntryCode(digits, code, entry.oid)|
    {
      IndexIsFirst(data, 0x20, pos);
      IndexIsFirst(data, 0, modeEnd + 1);
      DigitsAreExact(digits, entry.kind);
      PartIsExact(entry.name);
      EntryApart(data, pos, digits, code, entry.oid);
    }

    lemma EntryIsRead(data: seq<byte>, pos: nat, digits: seq<byte>, code: seq<byte>, entry: TreeEntry)
      requires pos <= |data| && IsEntry(digits, code, entry)
      requires StandsAt(data, pos, EntryCode(digits, code, entry.oid))
      ensures EntryAt(data, pos) == Success(Some(Parsed(entry, pos + |EntryCode(digits, code, entry.oid)|)))
    {
      var modeEnd := pos + |digits|;
      var nameEnd := modeEnd + 1 + |code|;
      EntryApart(data, pos, digits, code, entry.oid);
      DigitsAreExact(digits, entry.kind);
      PartIsExact(entry.name);
      IndexAfter(data, 0x20, pos, modeEnd);
      IndexAfter(data, 0, modeEnd + 1, nameEnd);
      FoundIsEntry(data, pos, modeEnd, nameEnd, pos + |EntryCode(digits, code, entry.oid)|, entry);
    }

    lemma FoundIsEntry(data: seq<byte>, pos: nat, modeEnd: nat, nameEnd: nat, end: nat, entry: TreeEntry)
      requires IsFound(data, pos, modeEnd, nameEnd, end, entry)
      ensures EntryAt(data, pos) == Success(Some(Parsed(entry, end)))
    {
    }

    /** An entry is read back from its mode in octal, any that its kind has. */
    lemma EntryRoundTrip(data: seq<byte>, pos: nat, mode: nat, code: seq<byte>, entry: TreeEntry, written: seq<byte>)
      requires pos <= |data| && mode < 0x1_0000 && IsMode(mode, entry.kind)
      requires 0 !in code && utf8(code) == Some(entry.name) && IsOnePart(entry.name)
      requires |entry.oid.bytes| == if format.Sha1? then 20 else 32
      requires written == EntryCode(Octal(mode), code, entry.oid) && StandsAt(data, pos, written)
      ensures EntryAt(data, pos) == Success(Some(Parsed(entry, pos + |written|)))
    {
      OctalAreDigits(mode, entry.kind);
      EntryIsRead(data, pos, Octal(mode), code, entry);
    }

    /** Whether the first line of a commit is that of the tree `oid`, in either case of its digits. */
    ghost predicate StartsWithTree(data: seq<byte>, oid: Oid) {
      && |oid.bytes| == (if format.Sha1? then 20 else 32)
      && exists code :: IsHex(code, oid.bytes) && StandsAt(data, 0, TreeLine(code))
    }

    /** A commit is of a tree if and only if its first line says so. */
    lemma CommitTreeIsExact(data: seq<byte>, oid: Oid)
      ensures CommitTree(data) == Success(oid) <==> StartsWithTree(data, oid)
      ensures CommitTree(data).Failure? ==> CommitTree(data).error == InvalidCommit
    {
      var hex := 2 * format.ByteLength();
      if CommitTree(data) == Success(oid) {
        var code := data[5..5 + hex];
        HexIsExact(code, oid.bytes);
        assert data[..5 + hex + 1] == TreeLine(code);
        assert StandsAt(data, 0, TreeLine(code));
        assert StartsWithTree(data, oid);
      }
      if StartsWithTree(data, oid) {
        var code :| IsHex(code, oid.bytes) && StandsAt(data, 0, TreeLine(code));
        StandsApart(data, 0, TREE, code + [0x0a]);
        StandsApart(data, 5, code, [0x0a]);
        assert data[..5] == TREE && data[5..5 + hex] == code && data[5 + hex] == [0x0a][0];
        HexIsExact(code, oid.bytes);
        assert CommitTree(data) == Success(oid);
      }
    }

    /** The tree a commit was written for is the one it is of, whatever its other lines say. */
    lemma CommitTreeRoundTrip(oid: Oid, rest: seq<byte>)
      requires |oid.bytes| == if format.Sha1? then 20 else 32
      ensures CommitTree(TreeLine(Hex(oid.bytes)) + rest) == Success(oid)
    {
      var code := Hex(oid.bytes);
      HexIsHex(oid.bytes);
      assert StandsAt(TreeLine(code) + rest, 0, TreeLine(code));
      CommitTreeIsExact(TreeLine(code) + rest, oid);
    }

    // ----- The files of a tree, by their paths in it

    /** The files under the tree `oid` names, read depth first, each with the parts of its path. A
        tree that holds itself is refused 128 levels down. */
    function Files(store: map<Oid, Object>, oid: Oid, depth: nat): Result<seq<(seq<string>, Leaf)>, Error>
      decreases 129 - depth, 2, 0
    {
      if depth > 128 then Failure(InvalidTree)
      else if oid !in store then Failure(ObjectNotFound)
      else if store[oid].kind != Tree then Failure(NotATree)
      else FilesFrom(store, store[oid].data, 0, depth)
    }

    function FilesFrom(store: map<Oid, Object>, data: seq<byte>, pos: nat, depth: nat)
      : Result<seq<(seq<string>, Leaf)>, Error>
      requires pos <= |data| && depth <= 128
      decreases 129 - depth, 1, |data| - pos
    {
      var entry :- EntryAt(data, pos);
      if entry.None? then Success([])
      else
        var here :- FilesOf(store, entry.value.value, depth);
        var rest :- FilesFrom(store, data, entry.value.next, depth);
        Success(here + rest)
    }

    function FilesOf(store: map<Oid, Object>, entry: TreeEntry, depth: nat): Result<seq<(seq<string>, Leaf)>, Error>
      requires depth <= 128
      decreases 129 - depth, 0, 0
    {
      match entry.kind
      case Directory =>
        var inner :- Files(store, entry.oid, depth + 1);
        Success(Under(entry.name, inner))
      case Gitlink => Success([])
      case _ =>
        var leaf :- LeafOf(store, entry);
        Success([([entry.name], leaf)])
    }

    /** What a file or a link holds. */
    function LeafOf(store: map<Oid, Object>, entry: TreeEntry): Result<Leaf, Error> {
      if entry.oid !in store then Failure(ObjectNotFound)
      else if store[entry.oid].kind != Blob then Failure(InvalidFile)
      else if entry.kind != Symlink then Success(Content(store[entry.oid].data))
      else match utf8(store[entry.oid].data)
        case None => Failure(InvalidFile)
        case Some(target) => Success(LinkTo(target))
    }

    /** The files of the commit `oid` names. */
    function CommitFiles(store: map<Oid, Object>, oid: Oid): Result<seq<(seq<string>, Leaf)>, Error> {
      if oid !in store then Failure(ObjectNotFound)
      else if store[oid].kind != Commit then Failure(NotACommit)
      else
        var tree :- CommitTree(store[oid].data);
        Files(store, tree, 0)
    }

    // ----- What their paths are

    ghost predicate AreSafe(files: seq<(seq<string>, Leaf)>, depth: nat) {
      forall i :: 0 <= i < |files| ==>
        && files[i].0 != [] && |files[i].0| + depth <= 129
        && forall k :: 0 <= k < |files[i].0| ==> IsOnePart(files[i].0[k])
    }

    lemma {:induction false} FilesAreSafe(store: map<Oid, Object>, oid: Oid, depth: nat)
      ensures Files(store, oid, depth).Success? ==> AreSafe(Files(store, oid, depth).value, depth)
      decreases 129 - depth, 2, 0
    {
      if depth <= 128 && oid in store && store[oid].kind == Tree {
        FilesFromAreSafe(store, store[oid].data, 0, depth);
      }
    }

    lemma {:induction false} FilesFromAreSafe(store: map<Oid, Object>, data: seq<byte>, pos: nat, depth: nat)
      requires pos <= |data| && depth <= 128
      ensures FilesFrom(store, data, pos, depth).Success? ==> AreSafe(FilesFrom(store, data, pos, depth).value, depth)
      decreases 129 - depth, 1, |data| - pos
    {
      var entry := EntryAt(data, pos);
      if entry.Success? && entry.value.Some? {
        PartIsExact(entry.value.value.value.name);
        FilesOfAreSafe(store, entry.value.value.value, depth);
        FilesFromAreSafe(store, data, entry.value.value.next, depth);
      }
    }

    lemma {:induction false} FilesOfAreSafe(store: map<Oid, Object>, entry: TreeEntry, depth: nat)
      requires depth <= 128 && IsOnePart(entry.name)
      ensures FilesOf(store, entry, depth).Success? ==> AreSafe(FilesOf(store, entry, depth).value, depth)
      decreases 129 - depth, 0, 0
    {
      if entry.kind.Directory? {
        FilesAreSafe(store, entry.oid, depth + 1);
      }
    }
  }

  /** A file or a symbolic link of a package. */
  datatype Leaf = Content(data: seq<byte>) | LinkTo(target: string)

  /** The files of a folder, by their paths from the one above. */
  function Under(name: string, files: seq<(seq<string>, Leaf)>): (r: seq<(seq<string>, Leaf)>)
    ensures |r| == |files| && forall i :: 0 <= i < |r| ==> r[i] == ([name] + files[i].0, files[i].1)
  {
    if files == [] then [] else [([name] + files[0].0, files[0].1)] + Under(name, files[1..])
  }
}
