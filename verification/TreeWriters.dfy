/** Folders as they are written: tree objects that name what they hold by its hash. What is read of one is
    its files and its links, and nothing else. */
module TreeWriters {
  import opened Bytes
  import opened Cursors
  import opened DeltaGraphs
  import opened EntryHeaders
  import opened Numbers
  import opened TreeObjects
  import opened Wrappers

  /** What is in a folder: a file, a symbolic link, with its target as it is spelled, the commit of another
      repository, and folders. */
  datatype Node =
    | FileNode(data: seq<byte>, executable: bool)
    | LinkNode(target: string, code: seq<byte>)
    | OtherNode(commit: Oid)
    | FolderNode(items: seq<Item>)

  /** Something in a folder, under a name and its spelling. */
  datatype Item = Item(name: string, code: seq<byte>, node: Node)

  function EntryKindOf(node: Node): EntryKind {
    match node
    case FileNode(_, _) => File
    case LinkNode(_, _) => Symlink
    case OtherNode(_) => Gitlink
    case FolderNode(_) => Directory
  }

  /** Its mode, which in octal is 100755 or 100644, 120000, 160000 and 40000. */
  function ModeOf(node: Node): nat {
    match node
    case FileNode(_, executable) => if executable then 0x81ed else 0x81a4
    case LinkNode(_, _) => 0xa000
    case OtherNode(_) => 0xe000
    case FolderNode(_) => 0x4000
  }

  lemma ModeIsOfKind(node: Node)
    ensures ModeOf(node) < 0x1_0000 && IsMode(ModeOf(node), EntryKindOf(node))
  {
  }

  /** The files and links of a folder, by their paths in it. */
  function FilesIn(items: seq<Item>): seq<(seq<string>, Leaf)>
    decreases items
  {
    if items == [] then [] else FilesAt(items[0].name, items[0].node) + FilesIn(items[1..])
  }

  function FilesAt(name: string, node: Node): seq<(seq<string>, Leaf)>
    decreases node
  {
    match node
    case FileNode(data, _) => [([name], Content(data))]
    case LinkNode(target, _) => [([name], LinkTo(target))]
    case OtherNode(_) => []
    case FolderNode(items) =>
      var files := FilesIn(items);
      seq(|files|, i requires 0 <= i < |files| => ([name] + files[i].0, files[i].1))
  }

  /** Whether no folder is more than 128 deep. */
  predicate AreWithin(items: seq<Item>, depth: nat)
    decreases items
  {
    items == [] || (IsWithin(items[0].node, depth) && AreWithin(items[1..], depth))
  }

  predicate IsWithin(node: Node, depth: nat)
    decreases node
  {
    node.FolderNode? ==> depth <= 128 && AreWithin(node.items, depth + 1)
  }

  /** What names objects and what decodes names. */
  datatype Writer = Writer(reading: Reading, hash: (ObjectType, seq<byte>) -> Oid) {

    function OidOf(node: Node): Oid
      decreases node
    {
      match node
      case FileNode(data, _) => hash(Blob, data)
      case LinkNode(_, code) => hash(Blob, code)
      case OtherNode(commit) => commit
      case FolderNode(items) => hash(Tree, TreeCode(items))
    }

    /** A tree object: for each thing in the folder its mode, a space, its name, a zero byte and its ID. */
    function TreeCode(items: seq<Item>): seq<byte>
      decreases items
    {
      if items == [] then []
      else
        var item := items[0];
        Octal(ModeOf(item.node)) + ([0x20] + (item.code + ([0] + OidOf(item.node).bytes))) + TreeCode(items[1..])
    }

    /** Whether `store` has the objects of what is in a folder, each under its ID. */
    ghost predicate Holds(store: map<Oid, Object>, node: Node)
      decreases node
    {
      && |OidOf(node).bytes| == (if reading.format.Sha1? then 20 else 32)
      && match node
         case FileNode(data, _) => OidOf(node) in store && store[OidOf(node)] == Object(Blob, data)
         case LinkNode(target, code) =>
           OidOf(node) in store && store[OidOf(node)] == Object(Blob, code) && reading.utf8(code) == Some(target)
         case OtherNode(_) => true
         case FolderNode(items) =>
           && OidOf(node) in store && store[OidOf(node)] == Object(Tree, TreeCode(items))
           && HoldsAll(store, items)
    }

    ghost predicate HoldsAll(store: map<Oid, Object>, items: seq<Item>)
      decreases items
    {
      items != [] ==>
        && 0 !in items[0].code && reading.utf8(items[0].code) == Some(items[0].name) && IsOnePart(items[0].name)
        && Holds(store, items[0].node) && HoldsAll(store, items[1..])
    }

    /** What reading a folder comes to: what is in it, or a tree that is too deep. */
    function Read(items: seq<Item>, depth: nat): Result<seq<(seq<string>, Leaf)>, Error> {
      if AreWithin(items, depth) then Success(FilesIn(items)) else Failure(InvalidTree)
    }

    lemma ItemCode(items: seq<Item>, store: map<Oid, Object>)
      returns (mode: nat, name: seq<byte>, entry: TreeEntry, code: seq<byte>, rest: seq<byte>)
      requires items != [] && HoldsAll(store, items)
      ensures mode < 0x1_0000 && IsMode(mode, entry.kind)
      ensures entry == TreeEntry(EntryKindOf(items[0].node), items[0].name, OidOf(items[0].node))
      ensures |entry.oid.bytes| == if reading.format.Sha1? then 20 else 32
      ensures 0 !in name && reading.utf8(name) == Some(entry.name) && IsOnePart(entry.name)
      ensures code == EntryCode(Octal(mode), name, entry.oid)
      ensures rest == TreeCode(items[1..]) && TreeCode(items) == code + rest
    {
      ModeIsOfKind(items[0].node);
      mode, name := ModeOf(items[0].node), items[0].code;
      entry := TreeEntry(EntryKindOf(items[0].node), items[0].name, OidOf(items[0].node));
      code, rest := EntryCode(Octal(mode), name, entry.oid), TreeCode(items[1..]);
    }

    lemma FirstIsRead(items: seq<Item>, store: map<Oid, Object>, data: seq<byte>, pos: nat, whole: seq<byte>)
      returns (entry: TreeEntry, next: nat, rest: seq<byte>)
      requires items != [] && HoldsAll(store, items) && whole == TreeCode(items) && StandsAt(data, pos, whole)
      ensures entry == TreeEntry(EntryKindOf(items[0].node), items[0].name, OidOf(items[0].node))
      ensures reading.EntryAt(data, pos) == Success(Some(Parsed(entry, next)))
      ensures rest == TreeCode(items[1..]) && next + |rest| == pos + |whole| && StandsAt(data, next, rest)
    {
      var mode, name, code;
      mode, name, entry, code, rest := ItemCode(items, store);
      StandsApart(data, pos, code, rest);
      next := pos + |code|;
      reading.EntryRoundTrip(data, pos, mode, name, entry, code);
    }

    lemma {:induction false} ItemsAreRead(items: seq<Item>, store: map<Oid, Object>, data: seq<byte>, pos: nat,
                                          depth: nat, whole: seq<byte>)
      requires HoldsAll(store, items) && whole == TreeCode(items)
      requires StandsAt(data, pos, whole) && pos + |whole| == |data| && depth <= 128
      ensures reading.FilesFrom(store, data, pos, depth) == Read(items, depth + 1)
      decreases items
    {
      if items != [] {
        var entry, next, rest := FirstIsRead(items, store, data, pos, whole);
        NodeIsRead(items[0].name, items[0].node, store, depth);
        ItemsAreRead(items[1..], store, data, next, depth, rest);
      }
    }

    lemma {:induction false} NodeIsRead(name: string, node: Node, store: map<Oid, Object>, depth: nat)
      requires Holds(store, node) && depth <= 128
      ensures reading.FilesOf(store, TreeEntry(EntryKindOf(node), name, OidOf(node)), depth)
           == if IsWithin(node, depth + 1) then Success(FilesAt(name, node)) else Failure(InvalidTree)
      decreases node, 1
    {
      if node.FolderNode? {
        FolderIsRead(node, store, depth + 1);
        assert Under(name, FilesIn(node.items)) == FilesAt(name, node);
      }
    }

    /** A folder that is written, and held by a store, is read as its files and links, each at its path with
        what it holds, and nothing for another repository; and as a tree that is wrong if and only if it is more
        than 128 folders deep. */
    lemma {:induction false} FolderIsRead(node: Node, store: map<Oid, Object>, depth: nat)
      requires node.FolderNode? && Holds(store, node)
      ensures reading.Files(store, OidOf(node), depth)
           == if IsWithin(node, depth) then Success(FilesIn(node.items)) else Failure(InvalidTree)
      decreases node, 0
    {
      if depth <= 128 {
        ItemsAreRead(node.items, store, TreeCode(node.items), 0, depth, TreeCode(node.items));
      }
    }

    /** So is the commit that says it is of that folder, whatever else it says. */
    lemma CommitIsRead(oid: Oid, node: Node, store: map<Oid, Object>, more: seq<byte>)
      requires node.FolderNode? && Holds(store, node) && oid in store
      requires store[oid] == Object(Commit, TreeLine(Hex(OidOf(node).bytes)) + more)
      ensures reading.CommitFiles(store, oid)
           == if IsWithin(node, 0) then Success(FilesIn(node.items)) else Failure(InvalidTree)
    {
      reading.CommitTreeRoundTrip(OidOf(node), more);
      FolderIsRead(node, store, 0);
    }
  }
}
