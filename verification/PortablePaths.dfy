/** The names of files that are the same on every system, and the links that stay inside a
    package. */
module PortablePaths {
  import Texts
  import opened Wrappers

  datatype Refusal = Outside | NotPortable

  function Split(path: string): seq<string> {
    Texts.Split(path, '/')
  }

  function Join(parts: seq<string>): string {
    Texts.Join(parts, "/")
  }

  /** Splitting undoes joining parts that hold no separator. */
  lemma SplitJoin(parts: seq<string>)
    requires parts != [] && forall i :: 0 <= i < |parts| ==> '/' !in parts[i]
    ensures Split(Join(parts)) == parts
  {
    Texts.SplitJoin(parts, '/', "");
    assert ['/'] + "" == "/";
    assert forall i :: 0 <= i < |parts| ==> "" + parts[i] == parts[i];
    assert Texts.Padded(parts, "") == parts;
  }

  predicate IsControl(c: char) {
    c < ' ' || 0x7f <= c as int <= 0x9f
  }

  function Lower(c: char): char {
    if 'A' <= c <= 'Z' then (c as int + 32) as char else c
  }

  predicate SameLetters(a: string, b: string) {
    |a| == |b| && forall i :: 0 <= i < |a| ==> Lower(a[i]) == Lower(b[i])
  }

  /** The part of a name before its first dot. */
  function Stem(name: string): string {
    if name == "" || name[0] == '.' then "" else [name[0]] + Stem(name[1..])
  }

  /** Whether every system takes `name` as the name of a file. */
  predicate IsPortableName(name: string) {
    var stem := Stem(name);
    var device :=
      || SameLetters(stem, "CON") || SameLetters(stem, "PRN") || SameLetters(stem, "AUX") || SameLetters(stem, "NUL")
      || (&& |stem| == 4
          && (SameLetters(stem[..3], "COM") || SameLetters(stem[..3], "LPT"))
          && '0' <= stem[3] <= '9');
    && !device
    && (name != "" ==> name[|name| - 1] !in {'.', ' '})
    && forall i :: 0 <= i < |name| ==> name[i] !in {'\\', ':', '<', '>', '"', '|', '?', '*'} && !IsControl(name[i])
  }

  // ----- What a portable name is

  /** Whether two names differ in the case of ASCII letters at most. */
  ghost predicate AreOneName(a: string, b: string) {
    |a| == |b| && forall i :: 0 <= i < |a| ==> a[i] == b[i] || IsUpperOf(a[i], b[i]) || IsUpperOf(b[i], a[i])
  }

  ghost predicate IsUpperOf(upper: char, lower: char) {
    'A' <= upper <= 'Z' && lower as int - 'a' as int == upper as int - 'A' as int
  }

  lemma LettersAreSame(a: string, b: string)
    ensures SameLetters(a, b) <==> AreOneName(a, b)
  {
    if |a| == |b| {
      forall i | 0 <= i < |a|
        ensures Lower(a[i]) == Lower(b[i])
           <==> a[i] == b[i] || IsUpperOf(a[i], b[i]) || IsUpperOf(b[i], a[i])
      {
      }
    }
  }

  /** Whether a name is kept for a device: one of four, or COM or LPT and a digit. */
  ghost predicate IsDevice(stem: string) {
    || AreOneName(stem, "CON") || AreOneName(stem, "PRN") || AreOneName(stem, "AUX") || AreOneName(stem, "NUL")
    || IsNumbered(stem, "COM") || IsNumbered(stem, "LPT")
  }

  ghost predicate IsNumbered(stem: string, first: string) {
    exists digit :: '0' <= digit <= '9' && AreOneName(stem, first + [digit])
  }

  /** Whether every system takes a name: it is not that of a device with anything after its first dot, has no
      character one system does not take, and does not end with one that a system drops. */
  ghost predicate IsTakenEverywhere(name: string) {
    && (forall k :: 0 <= k <= |name| && IsUpToDot(name, k) ==> !IsDevice(name[..k]))
    && (forall i :: 0 <= i < |name| ==> !IsRefused(name[i]))
    && (name == "" || name[|name| - 1] !in ". ")
  }

  ghost predicate IsUpToDot(name: string, k: nat)
    requires k <= |name|
  {
    '.' !in name[..k] && (k < |name| ==> name[k] == '.')
  }

  ghost predicate IsRefused(c: char) {
    c in "\\:<>\"|?*" || 0 <= c as int <= 31 || 127 <= c as int <= 159
  }

  lemma {:induction false} StemIs(name: string) returns (k: nat)
    ensures k <= |name| && Stem(name) == name[..k] && IsUpToDot(name, k)
  {
    if name == "" || name[0] == '.' {
      k := 0;
    } else {
      var rest := StemIs(name[1..]);
      k := rest + 1;
      assert name[..k] == [name[0]] + name[1..][..rest];
    }
  }

  lemma NumberedDevice(stem: string, first: string)
    requires |first| == 3
    ensures |stem| == 4 && SameLetters(stem[..3], first) && '0' <= stem[3] <= '9'
       <==> IsNumbered(stem, first)
  {
    if |stem| == 4 {
      LettersAreSame(stem[..3], first);
      forall digit | '0' <= digit <= '9'
        ensures AreOneName(stem, first + [digit]) <==> AreOneName(stem[..3], first) && stem[3] == digit
      {
        var whole := first + [digit];
        assert forall i :: 0 <= i < 3 ==> stem[..3][i] == stem[i] && whole[i] == first[i];
      }
      var own := first + [stem[3]];
      assert AreOneName(stem[..3], first) ==> AreOneName(stem, own) || !('0' <= stem[3] <= '9');
    }
  }

  lemma PortableNameIsExact(name: string)
    ensures IsPortableName(name) <==> IsTakenEverywhere(name)
  {
    var stem := Stem(name);
    var k := StemIs(name);
    LettersAreSame(stem, "CON");
    LettersAreSame(stem, "PRN");
    LettersAreSame(stem, "AUX");
    LettersAreSame(stem, "NUL");
    NumberedDevice(stem, "COM");
    NumberedDevice(stem, "LPT");
    forall j: nat | j <= |name| && IsUpToDot(name, j)
      ensures j == k
    {
    }
    forall i | 0 <= i < |name|
      ensures IsRefused(name[i]) <==> name[i] in {'\\', ':', '<', '>', '"', '|', '?', '*'} || IsControl(name[i])
    {
    }
  }

  /** What is kept of the parts of a path, from the one at `i` on. */
  function Kept(parts: seq<string>, i: nat): (r: Result<seq<string>, Refusal>)
    requires i <= |parts|
    decreases |parts| - i
  {
    if i == |parts| then Success([])
    else if parts[i] == "" || parts[i] == "." then Kept(parts, i + 1)
    else if parts[i] == ".." then Failure(Outside)
    else if !IsPortableName(parts[i]) then Failure(NotPortable)
    else
      var rest :- Kept(parts, i + 1);
      Success([parts[i]] + rest)
  }

  ghost function Portable(path: string): Result<string, Refusal> {
    if path != "" && path[0] == '/' then Failure(Outside)
    else
      var parts :- Kept(Split(path), 0);
      Success(Join(parts))
  }

  /** `path` with one `/` between its parts, when it names a file inside the package and by the
      same name on every system. */
  method MakePortable(path: string) returns (r: Result<string, Refusal>)
    ensures r == Portable(path)
  {
    if path != "" && path[0] == '/' {
      return Failure(Outside);
    }
    var all := Split(path);
    var parts: seq<string> := [];
    assert forall rest: seq<string> :: parts + rest == rest;
    for i := 0 to |all|
      invariant match Kept(all, i)
                case Failure(refusal) => Portable(path) == Failure(refusal)
                case Success(rest) => Portable(path) == Success(Join(parts + rest))
    {
      var part := all[i];
      assert forall rest: seq<string> :: parts + ([part] + rest) == parts + [part] + rest;
      if part == "" || part == "." {
      } else if part == ".." {
        return Failure(Outside);
      } else if !IsPortableName(part) {
        return Failure(NotPortable);
      } else {
        parts := parts + [part];
      }
    }
    assert parts + [] == parts;
    return Success(Join(parts));
  }

  // ----- What the check means

  /** A part of a path that names something: not the folder itself, nor the one above. */
  predicate IsPlain(part: string) {
    part != "" && part != "." && part != ".."
  }

  /** A path that passes names what its plain parts name, each of them portable; it passes exactly
      when it does not start with a separator, has no `..` and no part a system refuses. */
  lemma PortableMeans(path: string)
    ensures Portable(path).Success? <==>
              && (path != "" ==> path[0] != '/')
              && forall i :: 0 <= i < |Split(path)| ==>
                   var part := Split(path)[i];
                   part == "" || part == "." || (part != ".." && IsPortableName(part))
    ensures Portable(path).Success? ==>
              Split(Portable(path).value) == if Plain(Split(path)) == [] then [""] else Plain(Split(path))
  {
    KeptIsPlain(Split(path), 0);
    var parts := Plain(Split(path));
    assert Split(path)[0..] == Split(path);
    Texts.SplitHasNoSeparator(path, '/');
    PlainHasNoSeparator(Split(path));
    if Kept(Split(path), 0).Success? {
      if parts == [] {
        assert Join(parts) == "";
      } else {
        SplitJoin(parts);
      }
    }
  }

  /** The parts that name something. */
  function Plain(parts: seq<string>): seq<string> {
    if parts == [] then []
    else if IsPlain(parts[0]) then [parts[0]] + Plain(parts[1..])
    else Plain(parts[1..])
  }

  lemma {:induction false} PlainHasNoSeparator(parts: seq<string>)
    requires forall i :: 0 <= i < |parts| ==> '/' !in parts[i]
    ensures forall i :: 0 <= i < |Plain(parts)| ==> '/' !in Plain(parts)[i]
  {
    if parts != [] {
      PlainHasNoSeparator(parts[1..]);
    }
  }

  lemma {:induction false} KeptIsPlain(parts: seq<string>, i: nat)
    requires i <= |parts|
    ensures Kept(parts, i).Success? <==>
              forall k :: i <= k < |parts| ==>
                parts[k] == "" || parts[k] == "." || (parts[k] != ".." && IsPortableName(parts[k]))
    ensures Kept(parts, i).Success? ==> Kept(parts, i).value == Plain(parts[i..])
    decreases |parts| - i
  {
    if i < |parts| {
      KeptIsPlain(parts, i + 1);
      assert parts[i..][1..] == parts[i + 1..] && parts[i..][0] == parts[i];
    }
  }

  lemma {:induction false} PlainKeepsPlain(parts: seq<string>)
    requires forall i :: 0 <= i < |parts| ==> IsPlain(parts[i])
    ensures Plain(parts) == parts
  {
    if parts != [] {
      PlainKeepsPlain(parts[1..]);
      assert [parts[0]] + parts[1..] == parts;
    }
  }

  /** A path whose parts all name something is answered as it is, or refused. */
  lemma PortableOrRefused(parts: seq<string>)
    requires parts != [] && forall i :: 0 <= i < |parts| ==> IsPlain(parts[i]) && '/' !in parts[i]
    ensures Portable(Join(parts)).Failure? || Portable(Join(parts)) == Success(Join(parts))
  {
    SplitJoin(parts);
    KeptIsPlain(parts, 0);
    assert parts[0..] == parts;
    PlainKeepsPlain(parts);
  }

  // ----- Links

  /** How deep a link leads, from `depth` folders down; `None` once it is above the package. */
  function DepthAfter(parts: seq<string>, i: nat, depth: nat): Option<nat>
    requires i <= |parts|
    decreases |parts| - i
  {
    if i == |parts| then Some(depth)
    else if parts[i] == "" || parts[i] == "." then DepthAfter(parts, i + 1, depth)
    else if parts[i] == ".." then if depth == 0 then None else DepthAfter(parts, i + 1, depth - 1)
    else DepthAfter(parts, i + 1, depth + 1)
  }

  /** A link that is written with no root, drive or `\`. */
  ghost predicate IsRelative(link: string) {
    forall i :: 0 <= i < |link| ==> link[i] != '\\' && link[i] != ':' && (link[i] == '/' ==> i > 0)
  }

  ghost predicate StaysInside(path: string, link: string) {
    && !((link != "" && link[0] == '/') || '\\' in link || ':' in link)
    && DepthAfter(Split(link), 0, |Split(path)| - 1).Some?
  }

  method CheckStaysInside(path: string, link: string) returns (inside: bool)
    ensures inside <==> StaysInside(path, link)
  {
    if (link != "" && link[0] == '/') || '\\' in link || ':' in link {
      return false;
    }
    var depth := |Split(path)| - 1;
    var parts := Split(link);
    for i := 0 to |parts|
      invariant 0 <= depth
      invariant DepthAfter(parts, 0, |Split(path)| - 1) == DepthAfter(parts, i, depth)
    {
      var part := parts[i];
      if part == "" || part == "." {
      } else if part == ".." {
        if depth == 0 {
          return false;
        }
        depth := depth - 1;
      } else {
        depth := depth + 1;
      }
    }
    return true;
  }

  /** The folder a run of parts leads to from `folder`, a list of folders under the root of the
      package; `None` as soon as it is above the root. */
  ghost function Follow(folder: seq<string>, parts: seq<string>): Option<seq<string>>
    decreases |parts|
  {
    if parts == [] then Some(folder)
    else if parts[0] == "" || parts[0] == "." then Follow(folder, parts[1..])
    else if parts[0] == ".." then if folder == [] then None else Follow(folder[..|folder| - 1], parts[1..])
    else Follow(folder + [parts[0]], parts[1..])
  }

  lemma {:induction false} DepthIsThatOfTheFolder(folder: seq<string>, parts: seq<string>, i: nat)
    requires i <= |parts|
    ensures match Follow(folder, parts[i..])
            case None => DepthAfter(parts, i, |folder|).None?
            case Some(reached) => DepthAfter(parts, i, |folder|) == Some(|reached|)
    decreases |parts| - i
  {
    if i < |parts| {
      var part, rest := parts[i], parts[i..][1..];
      assert parts[i..][0] == part && rest == parts[i + 1..];
      if part == "" || part == "." {
        DepthIsThatOfTheFolder(folder, parts, i + 1);
      } else if part == ".." {
        if folder != [] {
          DepthIsThatOfTheFolder(folder[..|folder| - 1], parts, i + 1);
        }
      } else {
        DepthIsThatOfTheFolder(folder + [part], parts, i + 1);
      }
    }
  }

  /** The folder a file is in. */
  function FolderOf(path: string): seq<string> {
    Split(path)[..|Split(path)| - 1]
  }

  /** A link is accepted exactly when it is relative and what it says, followed by name from the folder it
      is in, is never above the root of the package. */
  lemma StaysInsideByName(path: string, link: string)
    ensures StaysInside(path, link) <==> IsRelative(link) && Follow(FolderOf(path), Split(link)).Some?
  {
    DepthIsThatOfTheFolder(FolderOf(path), Split(link), 0);
    assert Split(link)[0..] == Split(link);
  }

  // ----- Links that lead to links

  /** Where a walk in a package is: at a folder, above its root, or not at its end yet. */
  datatype Walked = Arrived(folder: seq<string>) | Above | OnTheWay

  /** The walk that a system takes from `folder` by some parts, in some number of turns. A part that names a
      link leads to what the link says, from the folder the link is in. */
  ghost function WalkIn(links: map<string, string>, folder: seq<string>, parts: seq<string>, turns: nat): Walked
    decreases turns
  {
    if turns == 0 then OnTheWay
    else if parts == [] then Arrived(folder)
    else if parts[0] == "" || parts[0] == "." then WalkIn(links, folder, parts[1..], turns - 1)
    else if parts[0] == ".." then
      if folder == [] then Above else WalkIn(links, folder[..|folder| - 1], parts[1..], turns - 1)
    else
      var next := folder + [parts[0]];
      if Join(next) !in links then WalkIn(links, next, parts[1..], turns - 1)
      else if !IsRelative(links[Join(next)]) then Above
      else WalkIn(links, folder, Split(links[Join(next)]) + parts[1..], turns - 1)
  }

  /** Whether what a link says is above the root of the package at some point of the way there. */
  ghost predicate LeadsOut(links: map<string, string>, path: string)
    requires path in links
  {
    || !IsRelative(links[path])
    || exists turns: nat :: WalkIn(links, FolderOf(path), Split(links[path]), turns) == Above
  }

  /** Whether the parts, followed by name, come to no link before their end. */
  predicate PassesNoLink(links: map<string, string>, folder: seq<string>, parts: seq<string>)
    decreases |parts|
  {
    if parts == [] then true
    else if parts[0] == "" || parts[0] == "." then PassesNoLink(links, folder, parts[1..])
    else if parts[0] == ".." then folder == [] || PassesNoLink(links, folder[..|folder| - 1], parts[1..])
    else
      var next := folder + [parts[0]];
      (Join(next) in links ==> parts[1..] == []) && PassesNoLink(links, next, parts[1..])
  }

  ghost predicate AreAccepted(links: map<string, string>) {
    forall path :: path in links ==> StaysInside(path, links[path])
  }

  predicate PassNoLinks(links: map<string, string>) {
    forall path :: path in links ==> PassesNoLink(links, FolderOf(path), Split(links[path]))
  }

  predicate HaveNoSeparator(parts: seq<string>) {
    forall i :: 0 <= i < |parts| ==> '/' !in parts[i]
  }

  lemma {:induction false} NeverOutside(links: map<string, string>, folder: seq<string>, parts: seq<string>, turns: nat)
    requires AreAccepted(links) && PassNoLinks(links)
    requires PassesNoLink(links, folder, parts) && Follow(folder, parts).Some?
    requires HaveNoSeparator(folder) && HaveNoSeparator(parts)
    ensures WalkIn(links, folder, parts, turns) != Above
    decreases turns
  {
    if turns > 0 && parts != [] {
      var part, rest, next := parts[0], parts[1..], folder + [parts[0]];
      if part == "" || part == "." {
        NeverOutside(links, folder, rest, turns - 1);
      } else if part == ".." {
        NeverOutside(links, folder[..|folder| - 1], rest, turns - 1);
      } else if Join(next) !in links {
        NeverOutside(links, next, rest, turns - 1);
      } else {
        var link := links[Join(next)];
        SplitJoin(next);
        assert FolderOf(Join(next)) == folder;
        StaysInsideByName(Join(next), link);
        Texts.SplitHasNoSeparator(link, '/');
        assert Split(link) + rest == Split(link);
        NeverOutside(links, folder, Split(link), turns - 1);
      }
    }
  }

  lemma {:induction false} GoesOutside(links: map<string, string>, folder: seq<string>, parts: seq<string>)
    returns (turns: nat)
    requires PassesNoLink(links, folder, parts) && Follow(folder, parts).None?
    ensures WalkIn(links, folder, parts, turns) == Above
    decreases |parts|
  {
    var part, rest, more := parts[0], parts[1..], 0;
    if part == "" || part == "." {
      more := GoesOutside(links, folder, rest);
    } else if part == ".." {
      if folder != [] {
        more := GoesOutside(links, folder[..|folder| - 1], rest);
      }
    } else {
      more := GoesOutside(links, folder + [part], rest);
    }
    turns := more + 1;
  }

  /** In a package whose links come to no other link before their end, every link is accepted if and only
      if none leads out of the package, through whatever links it ends at. */
  lemma StaysInsideMeans(links: map<string, string>)
    requires PassNoLinks(links)
    ensures AreAccepted(links) <==> forall path :: path in links ==> !LeadsOut(links, path)
  {
    forall path | path in links
      ensures AreAccepted(links) ==> !LeadsOut(links, path)
      ensures StaysInside(path, links[path]) || LeadsOut(links, path)
    {
      StaysInsideByName(path, links[path]);
      Texts.SplitHasNoSeparator(path, '/');
      Texts.SplitHasNoSeparator(links[path], '/');
      if AreAccepted(links) {
        forall turns: nat
          ensures WalkIn(links, FolderOf(path), Split(links[path]), turns) != Above
        {
          NeverOutside(links, FolderOf(path), Split(links[path]), turns);
        }
      } else if IsRelative(links[path]) && !StaysInside(path, links[path]) {
        var turns := GoesOutside(links, FolderOf(path), Split(links[path]));
      }
    }
  }

  /** Where one does, a link that is accepted can lead out: `x/y` leads to the root, and `z` above it. */
  lemma ThroughALink(links: map<string, string>)
    requires links == map["x/y" := "..", "z" := "x/y/.."]
    ensures AreAccepted(links) && LeadsOut(links, "z")
  {
    SplitsThrough();
    var root: seq<string> := [];
    assert FolderOf("z") == root;
    WalksThrough(links, root, Split("x/y/.."));
  }

  lemma WalksThrough(links: map<string, string>, root: seq<string>, parts: seq<string>)
    requires "x/y" in links && links["x/y"] == ".." && "x" !in links && Split("..") == [".."]
    requires root == [] && parts == ["x", "y", ".."]
    ensures WalkIn(links, root, parts, 4) == Above
  {
    var x := root + [parts[0]];
    assert Join(x) == "x" && x + [parts[1]] == ["x", "y"] && Join(["x", "y"]) == "x/y";
    assert WalkIn(links, root, parts, 4) == WalkIn(links, x, parts[1..], 3);
    assert WalkIn(links, x, parts[1..], 3) == WalkIn(links, x, [".."] + parts[1..][1..], 2);
    assert x[..|x| - 1] == root && ([".."] + parts[1..][1..])[1..] == [".."];
  }

  lemma SplitsThrough()
    ensures Split("x/y") == ["x", "y"] && Split("z") == ["z"] && Split("..") == [".."]
    ensures Split("x/y/..") == ["x", "y", ".."]
  {
    SplitJoin(["x", "y"]);
    SplitJoin(["z"]);
    SplitJoin([".."]);
    SplitJoin(["x", "y", ".."]);
  }
}
