/** The comments of a file: a walk of its tree that only goes into the nodes that hold an opener. */
module Comments {
  import opened Bytes
  import opened Wrappers

  /** A node of a syntax tree, over the bytes from `start` to `end`. */
  datatype Node = Node(kind: string, start: nat, end: nat, children: seq<Node>)

  datatype CommentKind = Line | C | Pascal

  datatype Comment = Comment(start: nat, end: nat, kind: CommentKind)

  function CommentOf(node: Node): Option<Comment> {
    if node.kind == "line_comment" then Some(Comment(node.start, node.end, Line))
    else if node.kind == "c_style_comment" then Some(Comment(node.start, node.end, C))
    else if node.kind == "pascal_style_comment" then Some(Comment(node.start, node.end, Pascal))
    else None
  }

  // ----- The whole walk

  /** The comments of a node that are in no other comment, in the order a walk of every node meets them. */
  function Outermost(node: Node): seq<Comment>
    decreases node
  {
    match CommentOf(node)
    case Some(comment) => [comment]
    case None => OutermostOf(node.children)
  }

  function OutermostOf(nodes: seq<Node>): seq<Comment>
    decreases nodes
  {
    if nodes == [] then [] else Outermost(nodes[0]) + OutermostOf(nodes[1..])
  }

  function Size(node: Node): (n: nat)
    ensures n > 0
    decreases node
  {
    1 + SizeOf(node.children)
  }

  function SizeOf(nodes: seq<Node>): nat
    decreases nodes
  {
    if nodes == [] then 0 else Size(nodes[0]) + SizeOf(nodes[1..])
  }

  /** The children of a node are in it, one after the other, and so on down the tree. */
  predicate IsNested(node: Node)
    decreases node
  {
    node.start <= node.end && AreNested(node.children, node.start, node.end)
  }

  predicate AreNested(nodes: seq<Node>, from: nat, to: nat)
    decreases nodes
  {
    nodes == []
    || (from <= nodes[0].start && nodes[0].end <= to && IsNested(nodes[0]) && AreNested(nodes[1..], nodes[0].end, to))
  }

  // ----- What the whole walk meets

  /** Whether a node is a comment of a kind, over its bytes. */
  ghost predicate IsOne(node: Node, comment: Comment) {
    && comment.start == node.start && comment.end == node.end
    && match comment.kind
       case Line => node.kind == "line_comment"
       case C => node.kind == "c_style_comment"
       case Pascal => node.kind == "pascal_style_comment"
  }

  /** Whether a path, of the places of children, leads from a node down to a comment, through none. */
  ghost predicate LeadsDown(node: Node, path: seq<nat>, comment: Comment)
    decreases path
  {
    if path == [] then IsOne(node, comment)
    else
      && node.kind !in ["line_comment", "c_style_comment", "pascal_style_comment"]
      && path[0] < |node.children| && LeadsDown(node.children[path[0]], path[1..], comment)
  }

  ghost predicate IsMet(node: Node, comment: Comment) {
    exists path :: LeadsDown(node, path, comment)
  }

  lemma OneIsExact(node: Node, comment: Comment)
    ensures CommentOf(node) == Some(comment) <==> IsOne(node, comment)
  {
  }

  lemma {:induction false} MetIsBelow(node: Node, comment: Comment) returns (path: seq<nat>)
    requires comment in Outermost(node)
    ensures LeadsDown(node, path, comment)
    decreases node
  {
    if CommentOf(node).Some? {
      path := [];
    } else {
      var i, rest := MetIsInOne(node.children, comment);
      path := [i] + rest;
      assert path[1..] == rest;
    }
  }

  lemma {:induction false} MetIsInOne(nodes: seq<Node>, comment: Comment) returns (i: nat, path: seq<nat>)
    requires comment in OutermostOf(nodes)
    ensures i < |nodes| && LeadsDown(nodes[i], path, comment)
    decreases nodes
  {
    if comment in Outermost(nodes[0]) {
      path := MetIsBelow(nodes[0], comment);
      i := 0;
    } else {
      i, path := MetIsInOne(nodes[1..], comment);
      i := i + 1;
    }
  }

  lemma {:induction false} BelowIsMet(node: Node, path: seq<nat>, comment: Comment)
    requires LeadsDown(node, path, comment)
    ensures comment in Outermost(node)
    decreases path
  {
    if path == [] {
      OneIsExact(node, comment);
    } else {
      BelowIsMet(node.children[path[0]], path[1..], comment);
      OneOfAll(node.children, path[0], comment);
    }
  }

  lemma {:induction false} OneOfAll(nodes: seq<Node>, i: nat, comment: Comment)
    requires i < |nodes| && comment in Outermost(nodes[i])
    ensures comment in OutermostOf(nodes)
    decreases i
  {
    if i > 0 {
      OneOfAll(nodes[1..], i - 1, comment);
    }
  }

  /** A walk of every node meets a comment if and only if some path leads down to it through no other one. */
  lemma OutermostIsExact(node: Node, comment: Comment)
    ensures comment in Outermost(node) <==> IsMet(node, comment)
  {
    if comment in Outermost(node) {
      var path := MetIsBelow(node, comment);
    }
    if IsMet(node, comment) {
      var path :| LeadsDown(node, path, comment);
      BelowIsMet(node, path, comment);
    }
  }

  // ----- Openers

  predicate IsOpener(source: seq<byte>, at: nat) {
    at + 1 < |source|
    && var pair := (source[at] as char, source[at + 1] as char);
       pair == ('/', '/') || pair == ('(', '*') || pair == ('/', '*')
  }

  /** Whether two slashes stand there, or a parenthesis or a slash with a star after it. */
  ghost predicate StandsOpener(source: seq<byte>, at: nat) {
    at + 2 <= |source| && source[at..at + 2] in [[0x2f, 0x2f], [0x28, 0x2a], [0x2f, 0x2a]]
  }

  lemma OpenerIsExact(source: seq<byte>, at: nat)
    ensures IsOpener(source, at) <==> StandsOpener(source, at)
  {
    if at + 2 <= |source| {
      assert source[at..at + 2] == [source[at], source[at + 1]];
    }
  }

  /** Whether an opener starts in a range. */
  ghost predicate Opens(source: seq<byte>, start: nat, end: nat) {
    exists at: nat :: start <= at < end && StandsOpener(source, at)
  }

  /** Every comment holds an opener: its own, or one nested in it. */
  ghost predicate CommentsOpen(node: Node, source: seq<byte>)
    decreases node
  {
    (CommentOf(node).Some? ==> Opens(source, node.start, node.end)) && AllCommentsOpen(node.children, source)
  }

  ghost predicate AllCommentsOpen(nodes: seq<Node>, source: seq<byte>)
    decreases nodes
  {
    nodes == [] || (CommentsOpen(nodes[0], source) && AllCommentsOpen(nodes[1..], source))
  }

  /** A node that holds no opener has no comment. */
  lemma {:induction false} NothingOpens(node: Node, source: seq<byte>)
    requires IsNested(node) && CommentsOpen(node, source) && !Opens(source, node.start, node.end)
    ensures Outermost(node) == []
    decreases node
  {
    NoneOpens(node.children, source, node.start, node.end);
  }

  lemma {:induction false} NoneOpens(nodes: seq<Node>, source: seq<byte>, from: nat, to: nat)
    requires AreNested(nodes, from, to) && AllCommentsOpen(nodes, source) && !Opens(source, from, to)
    ensures OutermostOf(nodes) == []
    decreases nodes
  {
    if nodes != [] {
      NothingOpens(nodes[0], source);
      NoneOpens(nodes[1..], source, nodes[0].end, to);
    }
  }

  /** Comments one after the other, between two offsets. */
  ghost predicate InTextOrder(comments: seq<Comment>, from: nat, to: nat) {
    && (forall i :: 0 <= i < |comments| ==> from <= comments[i].start <= comments[i].end <= to)
    && (forall i, j :: 0 <= i < j < |comments| ==> comments[i].end <= comments[j].start)
  }

  lemma {:induction false} OutermostInOrder(node: Node)
    requires IsNested(node)
    ensures InTextOrder(Outermost(node), node.start, node.end)
    decreases node
  {
    AllInOrder(node.children, node.start, node.end);
  }

  lemma {:induction false} AllInOrder(nodes: seq<Node>, from: nat, to: nat)
    requires AreNested(nodes, from, to)
    ensures InTextOrder(OutermostOf(nodes), from, to)
    decreases nodes
  {
    if nodes != [] {
      OutermostInOrder(nodes[0]);
      AllInOrder(nodes[1..], nodes[0].end, to);
      assert from <= nodes[0].start <= nodes[0].end;
    }
  }

  /** Where the openers are, in order. */
  method Starts(source: seq<byte>) returns (starts: seq<nat>)
    ensures forall i, j :: 0 <= i < j < |starts| ==> starts[i] < starts[j]
    ensures forall at: nat :: at in starts <==> StandsOpener(source, at)
  {
    starts := [];
    for at := 0 to |source|
      invariant forall i, j :: 0 <= i < j < |starts| ==> starts[i] < starts[j]
      invariant forall x: nat :: x in starts <==> x < at && StandsOpener(source, x)
    {
      OpenerIsExact(source, at);
      if IsOpener(source, at) {
        assert forall i :: 0 <= i < |starts| ==> starts[i] in starts;
        starts := starts + [at];
      }
    }
  }

  /** How many of the starts are before `start`: the place of the first that is not. */
  function PartitionPoint(starts: seq<nat>, start: nat): (first: nat)
    ensures first <= |starts| && forall i :: 0 <= i < first ==> starts[i] < start
    ensures first < |starts| ==> starts[first] >= start
  {
    if starts == [] || starts[0] >= start then 0 else 1 + PartitionPoint(starts[1..], start)
  }

  function HoldsAStart(starts: seq<nat>, node: Node): bool {
    var first := PartitionPoint(starts, node.start);
    first < |starts| && starts[first] < node.end
  }

  lemma HoldsWhenOpens(source: seq<byte>, starts: seq<nat>, node: Node)
    requires forall i, j :: 0 <= i < j < |starts| ==> starts[i] < starts[j]
    requires forall at: nat :: at in starts <==> StandsOpener(source, at)
    ensures HoldsAStart(starts, node) <==> Opens(source, node.start, node.end)
  {
    var first := PartitionPoint(starts, node.start);
    if HoldsAStart(starts, node) {
      assert starts[first] in starts;
    }
    if Opens(source, node.start, node.end) {
      var at: nat :| node.start <= at < node.end && StandsOpener(source, at);
      assert at in starts;
      var i :| 0 <= i < |starts| && starts[i] == at;
      assert first <= i;
    }
  }

  // ----- The cursor

  /** A node among its siblings. */
  datatype Step = Step(siblings: seq<Node>, index: nat)

  predicate IsPath(path: seq<Step>) {
    forall i :: 0 <= i < |path| ==> path[i].index < |path[i].siblings|
  }

  /** The comments after the node a path leads to. */
  function After(path: seq<Step>): seq<Comment>
    requires IsPath(path)
  {
    if path == [] then []
    else
      var last := path[|path| - 1];
      OutermostOf(last.siblings[last.index + 1..]) + After(path[..|path| - 1])
  }

  /** How many nodes are after the one a path leads to. */
  function SizeAfter(path: seq<Step>): nat
    requires IsPath(path)
  {
    if path == [] then 0
    else
      var last := path[|path| - 1];
      SizeOf(last.siblings[last.index + 1..]) + SizeAfter(path[..|path| - 1])
  }

  /** What a cursor goes to, down the tree, is nested, and its comments open. */
  ghost predicate IsSound(path: seq<Step>, source: seq<byte>) {
    forall i, j :: 0 <= i < |path| && 0 <= j < |path[i].siblings| ==>
      IsNested(path[i].siblings[j]) && CommentsOpen(path[i].siblings[j], source)
  }

  function NodeAt(root: Node, path: seq<Step>): Node
    requires IsPath(path)
  {
    if path == [] then root else path[|path| - 1].siblings[path[|path| - 1].index]
  }

  lemma Descends(path: seq<Step>, node: Node)
    requires IsPath(path) && node.children != []
    ensures var down := path + [Step(node.children, 0)];
            && IsPath(down)
            && OutermostOf(node.children) + After(path) == Outermost(node.children[0]) + After(down)
            && SizeOf(node.children) + SizeAfter(path) == Size(node.children[0]) + SizeAfter(down)
  {
    var down := path + [Step(node.children, 0)];
    assert down[..|path|] == path;
    Joined(Outermost(node.children[0]), OutermostOf(node.children[1..]), After(path));
  }

  lemma ChildrenAreSound(path: seq<Step>, node: Node, source: seq<byte>)
    requires IsPath(path) && IsSound(path, source) && IsNested(node) && CommentsOpen(node, source)
    ensures IsSound(path + [Step(node.children, 0)], source)
  {
    forall j | 0 <= j < |node.children|
      ensures IsNested(node.children[j]) && CommentsOpen(node.children[j], source)
    {
      EachIsSound(node.children, node.start, node.end, source, j);
    }
  }

  lemma {:induction false} EachIsSound(nodes: seq<Node>, from: nat, to: nat, source: seq<byte>, j: nat)
    requires AreNested(nodes, from, to) && AllCommentsOpen(nodes, source) && j < |nodes|
    ensures IsNested(nodes[j]) && CommentsOpen(nodes[j], source)
    decreases j
  {
    if j > 0 {
      EachIsSound(nodes[1..], nodes[0].end, to, source, j - 1);
    }
  }

  /** A cursor of a tree: the nodes it went through, down to the one it is at. */
  class Cursor {
    const root: Node
    var path: seq<Step>

    ghost predicate Valid()
      reads this
    {
      IsPath(path)
    }

    constructor (root: Node)
      ensures Valid() && this.root == root && path == []
    {
      this.root := root;
      path := [];
    }

    function Here(): Node
      requires Valid()
      reads this
    {
      NodeAt(root, path)
    }

    method GotoFirstChild() returns (moved: bool)
      requires Valid()
      modifies this
      ensures Valid() && moved == (old(Here()).children != [])
      ensures path == old(path) + if moved then [Step(old(Here()).children, 0)] else []
    {
      var node := Here();
      moved := node.children != [];
      if moved {
        path := path + [Step(node.children, 0)];
      }
    }

    method GotoNextSibling() returns (moved: bool)
      requires Valid()
      modifies this
      ensures Valid()
      ensures moved == (old(path) != [] && var last := old(path)[|old(path)| - 1]; last.index + 1 < |last.siblings|)
      ensures moved ==> var last := old(path)[|old(path)| - 1];
                        path == old(path)[..|old(path)| - 1] + [Step(last.siblings, last.index + 1)]
      ensures !moved ==> path == old(path)
    {
      moved := false;
      if path != [] {
        var last := path[|path| - 1];
        if last.index + 1 < |last.siblings| {
          path := path[..|path| - 1] + [Step(last.siblings, last.index + 1)];
          moved := true;
        }
      }
    }

    method GotoParent() returns (moved: bool)
      requires Valid()
      modifies this
      ensures Valid() && moved == (old(path) != [])
      ensures path == if moved then old(path)[..|old(path)| - 1] else []
    {
      moved := path != [];
      if moved {
        path := path[..|path| - 1];
      }
    }
  }

  /** What is left of a walk: the node it is at, and those after. */
  ghost predicate IsLeft(root: Node, source: seq<byte>, path: seq<Step>, found: seq<Comment>) {
    && IsPath(path) && IsSound(path, source)
    && IsNested(NodeAt(root, path)) && CommentsOpen(NodeAt(root, path), source)
    && found + (Outermost(NodeAt(root, path)) + After(path)) == Outermost(root)
  }

  /** What is left of a walk that is done with the node it is at. */
  ghost predicate IsLeftAfter(root: Node, source: seq<byte>, path: seq<Step>, found: seq<Comment>) {
    IsPath(path) && IsSound(path, source) && found + After(path) == Outermost(root)
  }

  function Left(root: Node, path: seq<Step>): nat
    requires IsPath(path)
  {
    Size(NodeAt(root, path)) + SizeAfter(path)
  }

  lemma GoesDown(root: Node, source: seq<byte>, path: seq<Step>, found: seq<Comment>)
    requires IsLeft(root, source, path, found) && CommentOf(NodeAt(root, path)).None?
    requires NodeAt(root, path).children != []
    ensures var down := path + [Step(NodeAt(root, path).children, 0)];
            IsLeft(root, source, down, found) && Left(root, down) < Left(root, path)
  {
    var node := NodeAt(root, path);
    Descends(path, node);
    ChildrenAreSound(path, node, source);
    EachIsSound(node.children, node.start, node.end, source, 0);
  }

  lemma NodeIsDone(root: Node, source: seq<byte>, path: seq<Step>, found: seq<Comment>)
    requires IsLeft(root, source, path, found)
    requires CommentOf(NodeAt(root, path)).None?
             ==> NodeAt(root, path).children == [] || !Opens(source, NodeAt(root, path).start, NodeAt(root, path).end)
    ensures var comment := CommentOf(NodeAt(root, path));
            IsLeftAfter(root, source, path, if comment.Some? then found + [comment.value] else found)
  {
    var node := NodeAt(root, path);
    if CommentOf(node).Some? {
      Joined(found, Outermost(node), After(path));
    } else {
      if node.children != [] {
        NothingOpens(node, source);
      }
      assert Outermost(node) == [];
      assert [] + After(path) == After(path);
    }
  }

  /** Where the cursor has to be for its next sibling, or for none, to have been looked for. */
  ghost predicate IsBeside(path: seq<Step>, next: bool, now: seq<Step>) {
    if next then
      path != [] && var last := path[|path| - 1];
      last.index + 1 < |last.siblings| && now == path[..|path| - 1] + [Step(last.siblings, last.index + 1)]
    else
      now == path && (path != [] ==> path[|path| - 1].index + 1 >= |path[|path| - 1].siblings|)
  }

  lemma WentOn(root: Node, source: seq<byte>, path: seq<Step>, found: seq<Comment>, now: seq<Step>)
    requires IsLeftAfter(root, source, path, found) && IsBeside(path, true, now)
    ensures IsLeft(root, source, now, found) && Left(root, now) == SizeAfter(path)
  {
    AfterNext(path, now);
    NextIsSound(path, now, source);
  }

  lemma NextIsSound(path: seq<Step>, now: seq<Step>, source: seq<byte>)
    requires IsPath(path) && IsSound(path, source) && IsBeside(path, true, now)
    ensures IsPath(now) && IsSound(now, source)
    ensures var last := path[|path| - 1]; var next := last.siblings[last.index + 1];
            NodeAt(next, now) == next && IsNested(next) && CommentsOpen(next, source)
  {
    forall i, j | 0 <= i < |now| && 0 <= j < |now[i].siblings|
      ensures IsNested(now[i].siblings[j]) && CommentsOpen(now[i].siblings[j], source)
    {
      assert now[i].siblings == path[i].siblings;
    }
  }

  /** What is after a node is its next sibling and what is after that. */
  lemma AfterNext(path: seq<Step>, now: seq<Step>)
    requires IsPath(path) && IsBeside(path, true, now)
    ensures IsPath(now)
    ensures var last := path[|path| - 1]; var next := last.siblings[last.index + 1];
            After(path) == Outermost(next) + After(now) && SizeAfter(path) == Size(next) + SizeAfter(now)
  {
    var last, up := path[|path| - 1], path[..|path| - 1];
    assert now[..|now| - 1] == up;
    var rest := last.siblings[last.index + 1..];
    assert rest[1..] == last.siblings[last.index + 2..];
    Joined(Outermost(rest[0]), OutermostOf(rest[1..]), After(up));
  }

  lemma WentUp(root: Node, source: seq<byte>, path: seq<Step>, found: seq<Comment>, now: seq<Step>)
    requires IsLeftAfter(root, source, path, found) && IsBeside(path, false, path) && path != []
    requires now == path[..|path| - 1]
    ensures IsLeftAfter(root, source, now, found) && SizeAfter(now) == SizeAfter(path)
  {
  }

  /** Leave a node that is done, for its next sibling, or its parent's, and so on up the tree. */
  method GoOn(cursor: Cursor, ghost source: seq<byte>, ghost found: seq<Comment>) returns (more: bool)
    requires IsLeftAfter(cursor.root, source, cursor.path, found)
    modifies cursor
    ensures !more ==> found == Outermost(cursor.root)
    ensures more ==> IsLeft(cursor.root, source, cursor.path, found)
                     && Left(cursor.root, cursor.path) == old(SizeAfter(cursor.path))
  {
    ghost var path := cursor.path;
    var next := cursor.GotoNextSibling();
    while !next
      invariant IsLeftAfter(cursor.root, source, path, found) && SizeAfter(path) == old(SizeAfter(cursor.path))
      invariant IsBeside(path, next, cursor.path)
      decreases |path|, next
    {
      var moved := cursor.GotoParent();
      if !moved {
        assert found + [] == found;
        return false;
      }
      WentUp(cursor.root, source, path, found, cursor.path);
      path := cursor.path;
      next := cursor.GotoNextSibling();
    }
    WentOn(cursor.root, source, path, found, cursor.path);
    return true;
  }

  /** The comments that are in no other one, in the order of the text, each once: those a walk of every
      node meets. */
  method FindComments(source: seq<byte>, root: Node) returns (found: seq<Comment>)
    requires IsNested(root) && CommentsOpen(root, source)
    ensures found == Outermost(root) && InTextOrder(found, root.start, root.end)
  {
    OutermostInOrder(root);
    var starts := Starts(source);
    found := [];
    if starts == [] {
      HoldsWhenOpens(source, starts, root);
      NothingOpens(root, source);
      return;
    }
    var cursor := new Cursor(root);
    while true
      invariant cursor.root == root && IsLeft(root, source, cursor.path, found)
      decreases Left(root, cursor.path)
    {
      var node := cursor.Here();
      ghost var before, left := cursor.path, Left(root, cursor.path);
      HoldsWhenOpens(source, starts, node);
      var comment := CommentOf(node);
      if comment.Some? {
        NodeIsDone(root, source, before, found);
        found := found + [comment.value];
      } else {
        var moved := false;
        if HoldsAStart(starts, node) {
          moved := cursor.GotoFirstChild();
        }
        if moved {
          GoesDown(root, source, before, found);
          continue;
        }
        assert cursor.path == before;
        NodeIsDone(root, source, before, found);
      }
      var more := GoOn(cursor, source, found);
      if !more {
        return;
      }
    }
  }
}
