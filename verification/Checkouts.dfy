/** The files of a commit, read out of a pack: the walk over its tree and the map it fills. */
module Checkouts {
  import opened Bytes
  import opened Cursors
  import opened DeltaGraphs
  import opened EntryHeaders
  import opened Numbers
  import opened PortablePaths
  import opened Repositories
  import opened TreeObjects
  import opened Wrappers

  type Files = seq<(seq<string>, Leaf)>

  /** A file or a link that could not be made. */
  datatype UnpackError =
    | CreateFile(name: string, code: string)
    | CreateSymlink(name: string, link: string, code: string)

  /** What was unpacked: files and links by their paths, and what could not be. */
  datatype Unpacked = Unpacked(entries: map<string, Leaf>, errors: seq<UnpackError>) {

    /** Whether an entry has the path, or one that differs from it only by case. */
    predicate Has(path: string) {
      exists existing :: existing in entries && SameLetters(existing, path)
    }

    function With(path: string, leaf: Leaf): Unpacked {
      if Has(path) then Unpacked(entries, errors + [AlreadyThere(path, leaf)])
      else Unpacked(entries[path := leaf], errors)
    }
  }

  function AlreadyThere(path: string, leaf: Leaf): UnpackError {
    match leaf
    case Content(_) => CreateFile(path, "PathAlreadyExists")
    case LinkTo(target) => CreateSymlink(path, target, "PathAlreadyExists")
  }

  /** The files of a package, by their paths, and what is wrong with some. */
  class Package {
    var entries: map<string, Leaf>
    var errors: seq<UnpackError>

    constructor ()
      ensures Now() == Unpacked(map[], [])
    {
      entries, errors := map[], [];
    }

    function Now(): Unpacked
      reads this
    {
      Unpacked(entries, errors)
    }

    /** Adds an entry. A path that is there already is not made a second time, and neither is one that
        differs from it only by case. */
    method Insert(path: string, leaf: Leaf)
      modifies this
      ensures Now() == old(Now()).With(path, leaf)
    {
      var taken := exists existing :: existing in entries && SameLetters(existing, path);
      if !taken {
        entries := entries[path := leaf];
        return;
      }
      errors := errors + [AlreadyThere(path, leaf)];
    }
  }

  /** The entries of a tree object: a mode in octal, a space, a name, a zero byte and an ID, one
      after the other. */
  class TreeIterator {
    const reading: Reading
    const data: seq<byte>
    var pos: nat

    constructor (reading: Reading, data: seq<byte>)
      ensures this.reading == reading && this.data == data && pos == 0
    {
      this.reading, this.data, pos := reading, data, 0;
    }

    method Next() returns (r: Result<Option<TreeEntry>, Error>)
      requires pos <= |data|
      modifies this
      ensures r.Failure? ==> reading.EntryAt(data, old(pos)) == Failure(r.error)
      ensures r.Success? && r.value.None? ==> reading.EntryAt(data, old(pos)) == Success(None)
      ensures r.Success? && r.value.Some? ==>
                reading.EntryAt(data, old(pos)) == Success(Some(Parsed(r.value.value, pos)))
    {
      if pos == |data| {
        return Success(None);
      }
      var modeEnd := IndexOf(data, 0x20, pos);
      if modeEnd.None? {
        return Failure(InvalidTree);
      }
      var mode := ParseUnsigned(data[pos..modeEnd.value], 8, 0x1_0000);
      if mode.None? {
        return Failure(InvalidTree);
      }
      var kind := KindOfMode(mode.value);
      if kind.None? {
        return Failure(InvalidTree);
      }
      var nameEnd := IndexOf(data, 0, modeEnd.value + 1);
      if nameEnd.None? {
        return Failure(InvalidTree);
      }
      var name := reading.utf8(data[modeEnd.value + 1..nameEnd.value]);
      if name.None? || !IsSafeName(name.value) {
        return Failure(InvalidTree);
      }
      var end := nameEnd.value + 1 + reading.format.ByteLength();
      if end > |data| {
        return Failure(InvalidTree);
      }
      pos := end;
      return Success(Some(TreeEntry(kind.value, name.value, Oid(data[nameEnd.value + 1..end]))));
    }
  }

  // ----- Paths, as a walk builds them

  function Step(folder: string, name: string): string {
    if folder == "" then name else folder + "/" + name
  }

  function PathUnder(folder: string, parts: seq<string>): string
    decreases |parts|
  {
    if parts == [] then folder else PathUnder(Step(folder, parts[0]), parts[1..])
  }

  /** The tree once `files` are inserted in it, one after the other. */
  function Filled(tree: Unpacked, folder: string, files: Files): Unpacked
    decreases |files|
  {
    if files == [] then tree
    else Filled(tree.With(PathUnder(folder, files[0].0), files[0].1), folder, files[1..])
  }

  lemma {:induction false} FilledBoth(tree: Unpacked, folder: string, a: Files, b: Files)
    ensures Filled(tree, folder, a + b) == Filled(Filled(tree, folder, a), folder, b)
    decreases |a|
  {
    if a == [] {
      assert a + b == b;
    } else {
      assert (a + b)[1..] == a[1..] + b;
      FilledBoth(tree.With(PathUnder(folder, a[0].0), a[0].1), folder, a[1..], b);
    }
  }

  lemma {:induction false} FilledUnder(tree: Unpacked, folder: string, name: string, files: Files)
    ensures Filled(tree, folder, Under(name, files)) == Filled(tree, Step(folder, name), files)
    decreases |files|
  {
    if files != [] {
      var below := Under(name, files);
      assert below[1..] == Under(name, files[1..]);
      assert below[0].0[1..] == files[0].0;
      FilledUnder(tree.With(PathUnder(folder, below[0].0), files[0].1), folder, name, files[1..]);
    }
  }

  // ----- The walk

  /** What a walk answers, and the tree it leaves, when what it should find is `files`. */
  ghost predicate Fills(r: Result<(), Error>, files: Result<Files, Error>, before: Unpacked, after: Unpacked,
                        folder: string)
  {
    match files
    case Failure(error) => r == Failure(error)
    case Success(found) => r.Success? && after == Filled(before, folder, found)
  }

  /** Fills `package` with the files under the tree `treeOid` names. */
  method CheckoutTree(repository: Repository, reading: Reading, treeOid: Oid, currentPath: string, package: Package,
                      depth: nat)
    returns (r: Result<(), Error>)
    requires repository.Valid()
    modifies repository`cache, package
    ensures repository.Valid() && repository.Store() == old(repository.Store())
    ensures Fills(r, reading.Files(old(repository.Store()), treeOid, depth),
                  old(package.Now()), package.Now(), currentPath)
    decreases 129 - depth, 1
  {
    // A tree that holds itself would never end.
    if depth > 128 {
      return Failure(InvalidTree);
    }
    ghost var store, before := repository.Store(), package.Now();
    var obj :- repository.ReadObject(treeOid);
    if obj.kind != Tree {
      return Failure(NotATree);
    }
    ghost var done: Files := [];
    PrependedNothing(reading.FilesFrom(store, obj.data, 0, depth));
    var entries := new TreeIterator(reading, obj.data);
    while true
      invariant repository.Valid() && repository.Store() == store
      invariant entries.reading == reading && entries.data == obj.data && entries.pos <= |obj.data|
      invariant package.Now() == Filled(before, currentPath, done)
      invariant reading.Files(store, treeOid, depth)
             == Prepended(done, reading.FilesFrom(store, obj.data, entries.pos, depth))
      decreases |obj.data| - entries.pos
    {
      ghost var pos := entries.pos;
      var entry :- entries.Next();
      if entry.None? {
        assert done + [] == done;
        return Success(());
      }
      EntriesStep(reading, store, obj.data, pos, depth, done);
      var _ :- CheckoutEntry(repository, reading, entry.value, currentPath, package, depth);
      ghost var here := reading.FilesOf(store, entry.value, depth).value;
      FilledBoth(before, currentPath, done, here);
      done := done + here;
    }
  }

  method CheckoutEntry(repository: Repository, reading: Reading, entry: TreeEntry, currentPath: string,
                       package: Package, depth: nat)
    returns (r: Result<(), Error>)
    requires repository.Valid() && depth <= 128
    modifies repository`cache, package
    ensures repository.Valid() && repository.Store() == old(repository.Store())
    ensures Fills(r, reading.FilesOf(old(repository.Store()), entry, depth),
                  old(package.Now()), package.Now(), currentPath)
    decreases 129 - depth, 0
  {
    var path := Step(currentPath, entry.name);
    match entry.kind {
      case Directory =>
        ghost var inner := reading.Files(repository.Store(), entry.oid, depth + 1);
        if inner.Success? {
          FilledUnder(package.Now(), currentPath, entry.name, inner.value);
        }
        r := CheckoutTree(repository, reading, entry.oid, path, package, depth + 1);
      case Gitlink =>
        return Success(());
      case File =>
        var file :- repository.ReadObject(entry.oid);
        if file.kind != Blob {
          return Failure(InvalidFile);
        }
        FilledOne(package.Now(), currentPath, entry.name, Content(file.data));
        package.Insert(path, Content(file.data));
        return Success(());
      case Symlink =>
        var link :- repository.ReadObject(entry.oid);
        if link.kind != Blob {
          return Failure(InvalidFile);
        }
        var target := reading.utf8(link.data);
        if target.None? {
          return Failure(InvalidFile);
        }
        FilledOne(package.Now(), currentPath, entry.name, LinkTo(target.value));
        package.Insert(path, LinkTo(target.value));
        return Success(());
    }
  }

  lemma FilledOne(tree: Unpacked, folder: string, name: string, leaf: Leaf)
    ensures Filled(tree, folder, [([name], leaf)]) == tree.With(Step(folder, name), leaf)
  {
    assert PathUnder(folder, [name]) == PathUnder(Step(folder, name), [name][1..]);
    assert [([name], leaf)][1..] == [];
  }

  lemma EntriesStep(reading: Reading, store: map<Oid, Object>, data: seq<byte>, pos: nat, depth: nat, done: Files)
    requires pos <= |data| && depth <= 128
    requires reading.EntryAt(data, pos).Success? && reading.EntryAt(data, pos).value.Some?
    ensures var entry := reading.EntryAt(data, pos).value.value;
            match reading.FilesOf(store, entry.value, depth)
            case Failure(error) => Prepended(done, reading.FilesFrom(store, data, pos, depth)) == Failure(error)
            case Success(here) =>
              Prepended(done, reading.FilesFrom(store, data, pos, depth))
              == Prepended(done + here, reading.FilesFrom(store, data, entry.next, depth))
  {
    var entry := reading.EntryAt(data, pos).value.value;
    var here, rest := reading.FilesOf(store, entry.value, depth), reading.FilesFrom(store, data, entry.next, depth);
    if here.Success? && rest.Success? {
      assert done + (here.value + rest.value) == done + here.value + rest.value;
    }
  }

  /** The ID of the tree a commit is of: its first line. */
  method ReadCommitTree(reading: Reading, data: seq<byte>) returns (r: Result<Oid, Error>)
    ensures r == reading.CommitTree(data)
  {
    var hex := 2 * reading.format.ByteLength();
    if |data| < 5 || data[..5] != TREE {
      return Failure(InvalidCommit);
    }
    var rest := data[5..];
    if |rest| <= hex || rest[hex] != 0x0a {
      return Failure(InvalidCommit);
    }
    assert rest[..hex] == data[5..5 + hex];
    var bytes := HexBytes(rest[..hex]);
    return if bytes.None? then Failure(InvalidCommit) else Success(Oid(bytes.value));
  }

  /** The files of the commit `commitOid`: the recursive reading of its tree in the store of the
      pack, each path written once, by the first entry that has it in any case of its letters. */
  method Checkout(repository: Repository, reading: Reading, commitOid: Oid) returns (r: Result<Package, Error>)
    requires repository.Valid()
    modifies repository`cache
    ensures repository.Valid() && repository.Store() == old(repository.Store())
    ensures r.Success? ==> fresh(r.value)
    ensures match reading.CommitFiles(old(repository.Store()), commitOid)
            case Failure(error) => r == Failure(error)
            case Success(files) => r.Success? && IsCheckedOut(r.value.Now(), files)
  {
    var commit :- repository.ReadObject(commitOid);
    if commit.kind != Commit {
      return Failure(NotACommit);
    }
    var treeOid :- ReadCommitTree(reading, commit.data);
    var package := new Package();
    ghost var files := reading.CommitFiles(repository.Store(), commitOid);
    reading.FilesAreSafe(repository.Store(), treeOid, 0);
    if files.Success? {
      FilledMeans(files.value);
    }
    var _ :- CheckoutTree(repository, reading, treeOid, "", package, 0);
    return Success(package);
  }

  // ----- What the tree is

  /** What the first file has whose path is `path` in some case of its letters, when that is its path. */
  ghost function FirstAt(files: Files, path: string): Option<Leaf> {
    if files == [] then None
    else if SameLetters(Join(files[0].0), path) then if Join(files[0].0) == path then Some(files[0].1) else None
    else FirstAt(files[1..], path)
  }

  /** Whether a file has the path in some case of its letters. */
  ghost predicate IsTaken(files: Files, path: string) {
    exists i :: 0 <= i < |files| && SameLetters(Join(files[i].0), path)
  }

  /** The errors about the files whose path one before has in some case of its letters, in order. */
  ghost function Refused(files: Files): seq<UnpackError> {
    if files == [] then []
    else
      var before, last := files[..|files| - 1], files[|files| - 1];
      Refused(before) + if IsTaken(before, Join(last.0)) then [AlreadyThereAs(Join(last.0), last.1)] else []
  }

  ghost function AlreadyThereAs(path: string, leaf: Leaf): UnpackError {
    if leaf.LinkTo? then CreateSymlink(path, leaf.target, "PathAlreadyExists")
    else CreateFile(path, "PathAlreadyExists")
  }

  ghost function At(entries: map<string, Leaf>, path: string): Option<Leaf> {
    if path in entries then Some(entries[path]) else None
  }

  ghost predicate PathsAreSafe(files: Files) {
    forall i :: 0 <= i < |files| ==>
      0 < |files[i].0| <= 129 && forall k :: 0 <= k < |files[i].0| ==> IsOnePart(files[i].0[k])
  }

  /** Whether the entries are those of the files, the first one that has a path standing for it and for
      every case of its letters, and the errors are about the others. */
  ghost predicate IsFilled(tree: Unpacked, files: Files) {
    (forall path :: At(tree.entries, path) == FirstAt(files, path)) && tree.errors == Refused(files)
  }

  /** Whether `tree` is what the files fill, every path made of at most 129 parts that each name
      something. */
  ghost predicate IsCheckedOut(tree: Unpacked, files: Files) {
    IsFilled(tree, files) && PathsAreSafe(files)
  }

  lemma {:induction false} PathUnderFolder(folder: string, parts: seq<string>)
    requires folder != ""
    ensures PathUnder(folder, parts) == Join([folder] + parts)
    decreases |parts|
  {
    if parts != [] {
      var first, rest := parts[0], parts[1..];
      PathUnderFolder(Step(folder, first), rest);
      assert ([folder] + parts)[1..] == parts;
      var below := Step(folder, first);
      assert ([below] + rest)[1..] == rest;
      assert Join([folder] + parts) == folder + "/" + Join(parts);
      if rest != [] {
        assert Join(parts) == first + "/" + Join(rest);
        assert below + "/" + Join(rest) == folder + "/" + (first + "/" + Join(rest));
      }
    }
  }

  lemma PathIsJoined(parts: seq<string>)
    requires parts != [] && parts[0] != ""
    ensures PathUnder("", parts) == Join(parts)
  {
    PathUnderFolder(parts[0], parts[1..]);
    assert [parts[0]] + parts[1..] == parts;
  }

  lemma {:induction false} FirstAtSnoc(files: Files, last: (seq<string>, Leaf), path: string)
    ensures FirstAt(files + [last], path)
         == if IsTaken(files, path) then FirstAt(files, path) else FirstAt([last], path)
    decreases |files|
  {
    if files == [] {
      assert files + [last] == [last];
    } else {
      assert (files + [last])[1..] == files[1..] + [last];
      FirstAtSnoc(files[1..], last, path);
      assert IsTaken(files, path) <==> SameLetters(Join(files[0].0), path) || IsTaken(files[1..], path) by {
        if i :| 1 <= i < |files| && SameLetters(Join(files[i].0), path) {
          assert files[1..][i - 1] == files[i];
        }
      }
    }
  }

  /** A path that is there is that of a file. */
  lemma {:induction false} FirstIsTaken(files: Files, path: string) returns (i: nat)
    requires FirstAt(files, path).Some?
    ensures i < |files| && Join(files[i].0) == path && files[i].1 == FirstAt(files, path).value
  {
    if SameLetters(Join(files[0].0), path) {
      i := 0;
    } else {
      i := FirstIsTaken(files[1..], path);
      i := i + 1;
    }
  }

  /** And a path that a file has is there, in some case of its letters. */
  lemma {:induction false} TakenIsFirst(files: Files, path: string) returns (existing: string)
    requires IsTaken(files, path)
    ensures FirstAt(files, existing).Some? && SameLetters(existing, path)
  {
    if SameLetters(Join(files[0].0), path) {
      existing := Join(files[0].0);
    } else {
      var i :| 0 <= i < |files| && SameLetters(Join(files[i].0), path);
      assert files[1..][i - 1] == files[i];
      existing := TakenIsFirst(files[1..], path);
    }
  }

  /** Inserting one more file where some were inserted. */
  lemma OneMoreFile(tree: Unpacked, files: Files, last: (seq<string>, Leaf))
    requires IsFilled(tree, files)
    ensures IsFilled(tree.With(Join(last.0), last.1), files + [last])
  {
    var path, more := Join(last.0), files + [last];
    assert more[..|more| - 1] == files && more[|more| - 1] == last;
    if tree.Has(path) {
      var existing :| existing in tree.entries && SameLetters(existing, path);
      assert At(tree.entries, existing).Some?;
      var i := FirstIsTaken(files, existing);
    }
    if IsTaken(files, path) {
      var existing := TakenIsFirst(files, path);
      assert At(tree.entries, existing).Some?;
    }
    forall other
      ensures At(tree.With(path, last.1).entries, other) == FirstAt(more, other)
    {
      FirstAtSnoc(files, last, other);
      assert At(tree.entries, other) == FirstAt(files, other);
      if IsTaken(files, other) && SameLetters(path, other) {
        var i :| 0 <= i < |files| && SameLetters(Join(files[i].0), other);
        assert IsTaken(files, path);
      } else if !IsTaken(files, other) && FirstAt(files, other).Some? {
        var i := FirstIsTaken(files, other);
      }
    }
  }

  /** What is inserted is what the first file of each path is, and an error for each other one. */
  lemma {:induction false} FilledMeans(files: Files)
    requires PathsAreSafe(files)
    ensures IsFilled(Filled(Unpacked(map[], []), "", files), files)
    decreases |files|
  {
    if files != [] {
      var before, last := files[..|files| - 1], files[|files| - 1];
      assert before + [last] == files;
      FilledBoth(Unpacked(map[], []), "", before, [last]);
      assert last == files[|files| - 1];
      PathIsJoined(last.0);
      assert [last][1..] == [];
      FilledMeans(before);
      OneMoreFile(Filled(Unpacked(map[], []), "", before), before, last);
    }
  }

  /** There is no error if and only if no two files have one path in some case of its letters. */
  lemma {:induction false} NoErrorIsDistinct(files: Files)
    ensures Refused(files) == []
       <==> forall i, j :: 0 <= i < j < |files| ==> !SameLetters(Join(files[i].0), Join(files[j].0))
    decreases |files|
  {
    if files != [] {
      var n := |files| - 1;
      var before := files[..n];
      NoErrorIsDistinct(before);
      assert forall i :: 0 <= i < n ==> before[i] == files[i];
      if IsTaken(before, Join(files[n].0)) {
        var i :| 0 <= i < n && SameLetters(Join(before[i].0), Join(files[n].0));
        assert SameLetters(Join(files[i].0), Join(files[n].0));
      }
    }
  }

  /** No two entries are one file where systems do not tell cases apart. */
  lemma EntriesAreApart(tree: Unpacked, files: Files, a: string, b: string)
    requires IsFilled(tree, files) && a in tree.entries && b in tree.entries && SameLetters(a, b)
    ensures a == b
  {
    assert At(tree.entries, a) == FirstAt(files, a) && At(tree.entries, b) == FirstAt(files, b);
    FirstsAreApart(files, a, b);
  }

  lemma {:induction false} FirstsAreApart(files: Files, a: string, b: string)
    requires FirstAt(files, a).Some? && FirstAt(files, b).Some? && SameLetters(a, b)
    ensures a == b
  {
    if !SameLetters(Join(files[0].0), a) {
      FirstsAreApart(files[1..], a, b);
    }
  }

  /** Every path of a checkout is one that `portable` answers as it is, or refuses. */
  lemma CheckedOutIsPortable(tree: Unpacked, files: Files, path: string)
    requires IsCheckedOut(tree, files) && path in tree.entries
    ensures Portable(path).Failure? || Portable(path) == Success(path)
  {
    assert At(tree.entries, path).Some?;
    var i := FirstIsTaken(files, path);
    PortableOrRefused(files[i].0);
  }
}
