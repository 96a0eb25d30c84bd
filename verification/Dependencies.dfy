/** The libraries a workspace depends on: a depth-first walk of configuration files, where the first
    folder asked for under a name is the one the name has. */
module Dependencies {
  import opened Wrappers

  type Dir = string

  /** A range of the text of the workspace's `config.toml`. */
  datatype Span = Span(start: nat, end: nat)

  datatype Dependency = Dependency(path: Option<string>, url: Option<string>, hash: Option<string>)

  datatype Entry = Entry(name: string, span: Span, dependency: Dependency)

  /** What a `config.toml` says, its entries in the order of their names. */
  datatype Config = Invalid | Config(name: string, dependencies: seq<Entry>)

  datatype Library = Library(name: string, dir: Dir, standard: bool)

  datatype Asker = Compiler | Workspace | AnotherLibrary(name: string)

  datatype Asked = Asked(dir: Dir, asker: Asker)

  datatype Cause =
    | NoPathNoUrl | PathAndUrl | PathAndHash | AbsolutePath | Backslash | NotAFolder | LeavesLibrary
    | NoHash | NotAHash | NoCache | NotInCache | NotFetched
    | TheWorkspace | NoConfig | InvalidConfig | OtherName(actual: string) | NotANamespace
    | TwoPlaces(first: Dir, firstAsker: Asker, second: Dir, secondAsker: Asker)

  datatype Problem = Problem(span: Span, name: string, requiredBy: Option<string>, cause: Cause)

  /** A configuration file being walked: its folder, the fetched library it may not leave, and whose it is. */
  datatype Place = Place(dir: Dir, hashed: Option<Dir>, owner: Option<string>)

  /** An entry that is read at a place, and the entry of the workspace that led to it. */
  datatype Visit = Visit(span: Span, place: Place, entry: Entry)

  /** An entry, and the folder it led to. */
  datatype Hop = Hop(entry: Entry, dir: Dir)

  predicate IsAbsoluteAnywhere(path: string) {
    || (path != [] && (path[0] == '/' || path[0] == '\\'))
    || (|path| >= 2 && path[1] == ':' && ('a' <= path[0] <= 'z' || 'A' <= path[0] <= 'Z'))
  }

  ghost predicate Lists(libraries: seq<Library>, name: string, dir: Dir) {
    exists i :: 0 <= i < |libraries| && libraries[i].name == name && libraries[i].dir == dir
  }

  /** What a walk has read so far. */
  datatype State = State(required: map<string, Asked>, libraries: seq<Library>, problems: seq<Problem>) {
    function With(name: string, asked: Asked): State {
      State(required[name := asked], libraries + [Library(name, asked.dir, false)], problems)
    }
  }

  /** The files and the cache: which folder a path leads to, which of them are in which, what a hash is
      and whether what it names is there or can be fetched. */
  datatype World = World(
    workspace: Dir,
    standard: Option<Library>,
    dependencies: seq<Entry>,
    configs: map<Dir, Config>,
    folder: (Dir, string) -> Option<Dir>,
    isInside: (Dir, Dir) -> bool,
    parseHash: string -> Option<string>,
    hasCache: bool,
    isCached: (string, string) -> bool,
    fetch: Option<(string, string) -> bool>,
    cachedDir: string -> Dir,
    isNamespaceName: string -> bool
  )
  {
    /** The folder a dependency names, and the fetched library its own paths may not leave. */
    function Locate(dependency: Dependency, declaredIn: Dir, hashed: Option<Dir>): Result<(Dir, Option<Dir>), Cause> {
      match (dependency.path, dependency.url)
      case (None, None) => Failure(NoPathNoUrl)
      case (Some(_), Some(_)) => Failure(PathAndUrl)
      case (Some(path), None) => LocatePath(path, dependency.hash, declaredIn, hashed)
      case (None, Some(url)) => LocateUrl(url, dependency.hash)
    }

    function LocatePath(path: string, hash: Option<string>, declaredIn: Dir, hashed: Option<Dir>)
      : Result<(Dir, Option<Dir>), Cause>
    {
      if hash.Some? then Failure(PathAndHash)
      else if IsAbsoluteAnywhere(path) then Failure(AbsolutePath)
      else if '\\' in path then Failure(Backslash)
      else match folder(declaredIn, path)
        case None => Failure(NotAFolder)
        case Some(dir) =>
          if hashed.Some? && !isInside(dir, hashed.value) then Failure(LeavesLibrary) else Success((dir, hashed))
    }

    function LocateUrl(url: string, hash: Option<string>): Result<(Dir, Option<Dir>), Cause> {
      if hash.None? then Failure(NoHash)
      else match parseHash(hash.value)
        case None => Failure(NotAHash)
        case Some(digits) =>
          if !hasCache then Failure(NoCache)
          else if !isCached(digits, url) && fetch.None? then Failure(NotInCache)
          else if !isCached(digits, url) && !fetch.value(digits, url) then Failure(NotFetched)
          else Success((cachedDir(digits), Some(cachedDir(digits))))
    }

    /** Why the folder is not the library `name`, when it is not. */
    function Refused(name: string, dir: Dir): Option<Cause> {
      if dir == workspace then Some(TheWorkspace)
      else if dir !in configs then Some(NoConfig)
      else match configs[dir]
        case Invalid => Some(InvalidConfig)
        case Config(actual, _) =>
          if actual != name then Some(OtherName(actual))
          else if !isNamespaceName(name) then Some(NotANamespace)
          else None
    }

    /** The place an entry leads to from the one it is written in. */
    function Step(place: Place, entry: Entry): Result<Place, Cause> {
      match Locate(entry.dependency, place.dir, place.hashed)
      case Failure(cause) => Failure(cause)
      case Success((dir, hashed)) =>
        match Refused(entry.name, dir)
        case Some(cause) => Failure(cause)
        case None => Success(Place(dir, hashed, Some(entry.name)))
    }

    function Root(): Place {
      Place(workspace, None, None)
    }

    /** The entries written at a place. */
    function EntriesAt(place: Place): seq<Entry> {
      if place.owner.None? then dependencies
      else if place.dir in configs && configs[place.dir].Config? then configs[place.dir].dependencies
      else []
    }

    /** Every place but the standard library is walked. */
    predicate IsWalked(place: Place) {
      standard.None? || place.owner != Some(standard.value.name)
    }

    ghost predicate Leads(from: Place, entry: Entry, to: Place) {
      IsWalked(from) && entry in EntriesAt(from) && Step(from, entry) == Success(to)
    }

    ghost predicate ReachesIn(place: Place, steps: nat)
      decreases steps
    {
      if steps == 0 then place == Root()
      else exists from: Place, entry: Entry {:trigger Leads(from, entry, place)} ::
             ReachesIn(from, steps - 1) && Leads(from, entry, place)
    }

    /** Whether entries lead from the workspace to the place. */
    ghost predicate Reaches(place: Place) {
      exists steps: nat :: ReachesIn(place, steps)
    }

    lemma OneMoreStep(from: Place, entry: Entry, to: Place)
      requires Reaches(from) && Leads(from, entry, to)
      ensures Reaches(to)
    {
      var steps: nat :| ReachesIn(from, steps);
      assert ReachesIn(to, steps + 1);
    }

    /** Where a path or a URL leads does not depend on which library it may not leave. */
    lemma OneFolder(entry: Entry, a: Place, b: Place)
      requires a.dir == b.dir && Step(a, entry).Success? && Step(b, entry).Success?
      ensures Step(a, entry).value.dir == Step(b, entry).value.dir
    {
    }

    /** Whether `name` is read at `dir`: the standard library, or a library entries lead to. */
    ghost predicate IsRead(name: string, dir: Dir) {
      || (standard.Some? && standard.value.name == name && standard.value.dir == dir)
      || exists hashed: Option<Dir> :: Reaches(Place(dir, hashed, Some(name)))
    }

    function AskerOf(place: Place): Asker {
      if place.owner.None? then Workspace else AnotherLibrary(place.owner.value)
    }

    ghost predicate IsAskedBy(name: string, asked: Asked, from: Place, entry: Entry, to: Place) {
      Reaches(from) && Leads(from, entry, to) && to.owner == Some(name) && asked == Asked(to.dir, AskerOf(from))
    }

    /** Whether a library is asked for so: by the compiler, or by an entry that is reached. */
    ghost predicate IsAsked(name: string, asked: Asked) {
      || (standard.Some? && standard.value.name == name && asked == Asked(standard.value.dir, Compiler))
      || exists from: Place, entry: Entry, to: Place {:trigger IsAskedBy(name, asked, from, entry, to)} ::
           IsAskedBy(name, asked, from, entry, to)
    }

    lemma AskedIsRead(name: string, asked: Asked)
      requires IsAsked(name, asked)
      ensures IsRead(name, asked.dir)
    {
      if !(standard.Some? && standard.value.name == name && asked == Asked(standard.value.dir, Compiler)) {
        var from: Place, entry: Entry, to: Place :| IsAskedBy(name, asked, from, entry, to);
        OneMoreStep(from, entry, to);
        ReachedIsRead(to);
      }
    }

    ghost predicate IsDueAt(place: Place, entry: Entry, problem: Problem) {
      && Reaches(place) && IsWalked(place) && entry in EntriesAt(place)
      && problem.name == entry.name && problem.requiredBy == place.owner
      && match Step(place, entry)
         case Failure(cause) => problem.cause == cause
         case Success(to) =>
           && problem.cause.TwoPlaces? && problem.cause.second == to.dir && problem.cause.first != to.dir
           && problem.cause.secondAsker == AskerOf(place)
           && IsAsked(entry.name, Asked(problem.cause.first, problem.cause.firstAsker))
    }

    ghost predicate IsOwnSpan(span: Span) {
      exists entry :: entry in dependencies && entry.span == span
    }

    /** A problem of an entry at a place that is reached, said at an entry of the workspace. */
    ghost predicate IsDue(problem: Problem) {
      IsOwnSpan(problem.span)
      && exists place: Place, entry: Entry {:trigger IsDueAt(place, entry, problem)} :: IsDueAt(place, entry, problem)
    }

    /** Every entry that is reached leads to a library, and every name to one folder. */
    ghost predicate IsConsistent() {
      && (forall place: Place, entry: Entry {:trigger Reaches(place), Step(place, entry)} ::
            Reaches(place) && IsWalked(place) && entry in EntriesAt(place) ==> Step(place, entry).Success?)
      && (forall name, a, b :: IsRead(name, a) && IsRead(name, b) ==> a == b)
    }

    lemma EntryLeads(place: Place, entry: Entry, to: Place)
      requires Reaches(place) && IsWalked(place) && entry in EntriesAt(place) && Step(place, entry) == Success(to)
      ensures Reaches(to) && IsAsked(entry.name, Asked(to.dir, AskerOf(place)))
    {
      assert Leads(place, entry, to);
      OneMoreStep(place, entry, to);
      assert IsAskedBy(entry.name, Asked(to.dir, AskerOf(place)), place, entry, to);
    }

    lemma FailureIsDue(place: Place, entry: Entry, problem: Problem)
      requires Reaches(place) && IsWalked(place) && entry in EntriesAt(place) && IsOwnSpan(problem.span)
      requires problem.name == entry.name && problem.requiredBy == place.owner
      requires Step(place, entry) == Failure(problem.cause)
      ensures IsDueAt(place, entry, problem)
    {
    }

    lemma ReachedIsRead(place: Place)
      requires Reaches(place) && place.owner.Some?
      ensures IsRead(place.owner.value, place.dir)
    {
      assert place == Place(place.dir, place.hashed, Some(place.owner.value));
    }

    lemma ConsistentHasNoProblem(problem: Problem)
      requires IsConsistent()
      ensures !IsDue(problem)
    {
      if IsDue(problem) {
        var place: Place, entry: Entry :| IsDueAt(place, entry, problem);
        var to := Step(place, entry).value;
        assert Leads(place, entry, to);
        OneMoreStep(place, entry, to);
        ReachedIsRead(to);
        AskedIsRead(entry.name, Asked(problem.cause.first, problem.cause.firstAsker));
      }
    }

    // ----- Which entries lead where, and how far a fetched library may

    /** Whether a path starts at a root, on some system: at a separator, or at a drive. */
    ghost predicate IsRooted(path: string) {
      && path != ""
      && (path[0] in {'/', '\\'}
          || (|path| > 1 && path[1] == ':' && (0x41 <= path[0] as int < 0x5b || 0x61 <= path[0] as int < 0x7b)))
    }

    /** Whether `entry`, written in the folder `from`, is a path to the folder `to`. */
    ghost predicate IsPathTo(entry: Entry, from: Dir, to: Dir) {
      && entry.dependency.path.Some? && entry.dependency.url.None? && entry.dependency.hash.None?
      && var path := entry.dependency.path.value;
         !IsRooted(path) && (forall i :: 0 <= i < |path| ==> path[i] != '\\') && folder(from, path) == Some(to)
    }

    /** Whether the cache has what the URL gives under that hash, or it can be fetched. */
    ghost predicate IsThere(digits: string, url: string) {
      hasCache && (isCached(digits, url) || (fetch.Some? && fetch.value(digits, url)))
    }

    /** Whether `entry` is a URL of what the cache keeps in the folder `to`. */
    ghost predicate IsUrlTo(entry: Entry, digits: string, to: Dir) {
      && entry.dependency.path.None? && entry.dependency.url.Some? && entry.dependency.hash.Some?
      && parseHash(entry.dependency.hash.value) == Some(digits)
      && IsThere(digits, entry.dependency.url.value) && to == cachedDir(digits)
    }

    ghost predicate IsFetchedTo(entry: Entry, to: Dir) {
      exists digits :: IsUrlTo(entry, digits, to)
    }

    /** Whether the folder is a library that says it has the name. */
    ghost predicate IsLibrary(dir: Dir, name: string) {
      && dir != workspace && dir in configs && configs[dir].Config? && configs[dir].name == name
      && isNamespaceName(name)
    }

    /** An entry leads to a library if and only if it is the URL of one that is there, which is then a fetched
        one, or a path to one, which does not leave the fetched library it is written in, if it is in one. */
    lemma StepIsExact(place: Place, entry: Entry, to: Place)
      ensures Step(place, entry) == Success(to)
         <==> to.owner == Some(entry.name) && IsLibrary(to.dir, entry.name)
              && if entry.dependency.url.Some? then IsFetchedTo(entry, to.dir) && to.hashed == Some(to.dir)
                 else && IsPathTo(entry, place.dir, to.dir) && to.hashed == place.hashed
                      && (place.hashed.Some? ==> isInside(to.dir, place.hashed.value))
    {
      if entry.dependency.hash.Some? && parseHash(entry.dependency.hash.value).Some? {
        var digits := parseHash(entry.dependency.hash.value).value;
        assert Step(place, entry).Success? && entry.dependency.url.Some? ==> IsUrlTo(entry, digits, cachedDir(digits));
      }
    }

    /** Entries with one hash lead to one folder, whatever their URLs are. */
    lemma OneHash(a: Place, b: Place, first: Entry, second: Entry)
      requires Step(a, first).Success? && Step(b, second).Success?
      requires first.dependency.url.Some? && second.dependency.url.Some?
      requires parseHash(first.dependency.hash.value) == parseHash(second.dependency.hash.value)
      ensures Step(a, first).value.dir == Step(b, second).value.dir
    {
      StepIsExact(a, first, Step(a, first).value);
      StepIsExact(b, second, Step(b, second).value);
    }

    /** What is wrong with an entry is so. */
    ghost predicate IsTrue(cause: Cause, place: Place, entry: Entry) {
      var path, url, hash := entry.dependency.path, entry.dependency.url, entry.dependency.hash;
      match cause
      case NoPathNoUrl => path.None? && url.None?
      case PathAndUrl => path.Some? && url.Some?
      case PathAndHash => path.Some? && url.None? && hash.Some?
      case AbsolutePath => path.Some? && IsRooted(path.value)
      case Backslash => path.Some? && '\\' in path.value
      case NotAFolder => path.Some? && folder(place.dir, path.value).None?
      case LeavesLibrary =>
        && path.Some? && place.hashed.Some?
        && folder(place.dir, path.value).Some? && !isInside(folder(place.dir, path.value).value, place.hashed.value)
      case NoHash => url.Some? && hash.None?
      case NotAHash => url.Some? && hash.Some? && parseHash(hash.value).None?
      case NoCache => url.Some? && !hasCache
      case NotInCache =>
        && url.Some? && hash.Some? && parseHash(hash.value).Some?
        && !isCached(parseHash(hash.value).value, url.value) && fetch.None?
      case NotFetched =>
        && url.Some? && hash.Some? && parseHash(hash.value).Some?
        && fetch.Some? && !fetch.value(parseHash(hash.value).value, url.value)
      case _ => exists dir {:trigger IsWrongIn(cause, dir, entry.name)} ::
                  LeadsTo(entry, place.dir, dir) && IsWrongIn(cause, dir, entry.name)
    }

    ghost predicate LeadsTo(entry: Entry, from: Dir, to: Dir) {
      IsPathTo(entry, from, to) || IsFetchedTo(entry, to)
    }

    /** What is wrong with the folder of a library. */
    ghost predicate IsWrongIn(cause: Cause, dir: Dir, name: string) {
      match cause
      case TheWorkspace => dir == workspace
      case NoConfig => dir !in configs
      case InvalidConfig => dir in configs && configs[dir].Invalid?
      case OtherName(actual) => dir in configs && configs[dir].Config? && configs[dir].name == actual != name
      case NotANamespace => !isNamespaceName(name)
      case _ => false
    }

    lemma CauseIsTrue(place: Place, entry: Entry)
      ensures Step(place, entry).Failure? ==> IsTrue(Step(place, entry).error, place, entry)
    {
      var located := Locate(entry.dependency, place.dir, place.hashed);
      if located.Success? {
        var dir := located.value.0;
        if entry.dependency.url.Some? {
          assert IsUrlTo(entry, parseHash(entry.dependency.hash.value).value, dir);
        }
        assert LeadsTo(entry, place.dir, dir);
        if Step(place, entry).Failure? {
          assert IsWrongIn(Step(place, entry).error, dir, entry.name);
        }
      }
    }

    // ----- The trails that lead to libraries

    ghost function DirAfter(hops: seq<Hop>): Dir {
      if hops == [] then workspace else hops[|hops| - 1].dir
    }

    /** The fetched library that a trail is in: that of its last URL. */
    ghost function WallAfter(hops: seq<Hop>): Option<Dir> {
      if hops == [] then None
      else if hops[|hops| - 1].entry.dependency.url.Some? then Some(hops[|hops| - 1].dir)
      else WallAfter(hops[..|hops| - 1])
    }

    /** What is written where a trail is, when it is read: nothing of the standard library is. */
    ghost function WrittenAfter(hops: seq<Hop>): seq<Entry> {
      if hops == [] then dependencies
      else
        var last := hops[|hops| - 1];
        if standard.Some? && standard.value.name == last.entry.name then []
        else if last.dir in configs && configs[last.dir].Config? then configs[last.dir].dependencies
        else []
    }

    /** Whether entries lead along the trail, from the workspace on: each of them a path or a URL to a library,
        and no path out of the fetched library the trail is in. */
    ghost predicate IsTrail(hops: seq<Hop>) {
      hops == []
      || var init, last := hops[..|hops| - 1], hops[|hops| - 1];
         && IsTrail(init) && last.entry in WrittenAfter(init) && IsLibrary(last.dir, last.entry.name)
         && if last.entry.dependency.url.Some? then IsFetchedTo(last.entry, last.dir)
            else && IsPathTo(last.entry, DirAfter(init), last.dir)
                 && (WallAfter(init).Some? ==> isInside(last.dir, WallAfter(init).value))
    }

    ghost function PlaceAfter(hops: seq<Hop>): Place {
      Place(DirAfter(hops), WallAfter(hops), if hops == [] then None else Some(hops[|hops| - 1].entry.name))
    }

    /** A place is reached if and only if a trail leads to it. */
    lemma ReachedByTrail(place: Place)
      ensures Reaches(place) <==> exists hops :: IsTrail(hops) && place == PlaceAfter(hops)
    {
      if Reaches(place) {
        var steps: nat :| ReachesIn(place, steps);
        var hops := TrailTo(place, steps);
      }
      if hops :| IsTrail(hops) && place == PlaceAfter(hops) {
        TrailReaches(hops);
      }
    }

    lemma {:induction false} TrailTo(place: Place, steps: nat) returns (hops: seq<Hop>)
      requires ReachesIn(place, steps)
      ensures IsTrail(hops) && place == PlaceAfter(hops)
      decreases steps
    {
      if steps == 0 {
        hops := [];
      } else {
        var from: Place, entry: Entry :| ReachesIn(from, steps - 1) && Leads(from, entry, place);
        var init := TrailTo(from, steps - 1);
        hops := OneMoreHop(init, from, entry, place);
      }
    }

    lemma OneMoreHop(init: seq<Hop>, from: Place, entry: Entry, to: Place) returns (hops: seq<Hop>)
      requires IsTrail(init) && from == PlaceAfter(init) && Leads(from, entry, to)
      ensures IsTrail(hops) && to == PlaceAfter(hops)
    {
      hops := init + [Hop(entry, to.dir)];
      assert hops[..|hops| - 1] == init;
      StepIsExact(from, entry, to);
      assert entry in WrittenAfter(init);
    }

    lemma {:induction false} TrailReaches(hops: seq<Hop>)
      requires IsTrail(hops)
      ensures Reaches(PlaceAfter(hops))
      decreases |hops|
    {
      if hops == [] {
        assert ReachesIn(Root(), 0);
      } else {
        var init, last := hops[..|hops| - 1], hops[|hops| - 1];
        TrailReaches(init);
        var from, to := PlaceAfter(init), PlaceAfter(hops);
        StepIsExact(from, last.entry, to);
        OneMoreStep(from, last.entry, to);
      }
    }

    /** Past a URL and by any number of paths, a trail is inside the folder that the cache keeps under the hash
        of that URL. */
    lemma {:induction false} TrailStaysInside(hops: seq<Hop>, i: nat) returns (digits: string)
      requires IsTrail(hops) && i < |hops| && hops[i].entry.dependency.url.Some?
      requires forall k :: i < k < |hops| ==> hops[k].entry.dependency.url.None?
      ensures IsUrlTo(hops[i].entry, digits, hops[i].dir) && WallAfter(hops) == Some(cachedDir(digits))
      ensures i < |hops| - 1 ==> isInside(DirAfter(hops), cachedDir(digits))
      decreases |hops|
    {
      if i == |hops| - 1 {
        digits :| IsUrlTo(hops[i].entry, digits, hops[i].dir);
      } else {
        digits := TrailStaysInside(hops[..|hops| - 1], i);
      }
    }

    ghost predicate IsFree(hops: seq<Hop>) {
      forall k :: 0 <= k < |hops| ==> hops[k].entry.dependency.url.None?
    }

    /** Whether the folder is one that was fetched, under the hash of an entry that is read, or is inside it. */
    ghost predicate IsInFetched(dir: Dir) {
      exists digits, url :: IsThere(digits, url) && (dir == cachedDir(digits) || isInside(dir, cachedDir(digits)))
    }

    /** So a library that is read is the standard one, one that paths alone lead to from the workspace, or one in a
        library that was fetched. */
    lemma ReadIsContained(name: string, dir: Dir)
      requires IsRead(name, dir)
      ensures || (standard.Some? && standard.value.name == name && standard.value.dir == dir)
              || (exists hops :: IsTrail(hops) && IsFree(hops) && hops != [] && DirAfter(hops) == dir)
              || IsInFetched(dir)
    {
      if !(standard.Some? && standard.value.name == name && standard.value.dir == dir) {
        var hashed: Option<Dir> :| Reaches(Place(dir, hashed, Some(name)));
        ReachedByTrail(Place(dir, hashed, Some(name)));
        var hops :| IsTrail(hops) && Place(dir, hashed, Some(name)) == PlaceAfter(hops);
        if !IsFree(hops) {
          TrailIsContained(hops);
        }
      }
    }

    lemma TrailIsContained(hops: seq<Hop>)
      requires IsTrail(hops) && hops != [] && !IsFree(hops)
      ensures IsInFetched(DirAfter(hops))
    {
      var i := LastUrl(hops, |hops| - 1);
      var digits := TrailStaysInside(hops, i);
      assert IsThere(digits, hops[i].entry.dependency.url.value);
    }

    lemma {:induction false} LastUrl(hops: seq<Hop>, j: nat) returns (i: nat)
      requires j < |hops| && exists k :: 0 <= k <= j && hops[k].entry.dependency.url.Some?
      ensures i <= j && hops[i].entry.dependency.url.Some?
      ensures forall k :: i < k <= j ==> hops[k].entry.dependency.url.None?
      decreases j
    {
      i := j;
      if hops[j].entry.dependency.url.None? {
        i := LastUrl(hops, j - 1);
      }
    }

    // ----- The order of the list

    /** The names of the libraries there are. */
    ghost function Names(): set<string> {
      set dir | dir in configs && configs[dir].Config? :: configs[dir].name
    }

    /** The entries that are read from some of a place on: after each that leads to a name which is not
        in `names`, those of the library it leads to. */
    ghost function Visits(led: Option<Span>, place: Place, entries: seq<Entry>, names: set<string>): seq<Visit>
      decreases |Names() - names|, |entries|
    {
      if entries == [] then []
      else
        var n := |entries| - 1;
        var first := Visits(led, place, entries[..n], names);
        FewerIn(Names() - (names + NamesIn(first)), Names() - names);
        first + VisitsBy(SpanOf(led, entries[n]), place, entries[n], names + NamesIn(first))
    }

    ghost function VisitsBy(span: Span, place: Place, entry: Entry, names: set<string>): seq<Visit>
      decreases |Names() - names|, 0
    {
      var visit := [Visit(span, place, entry)];
      match Step(place, entry)
      case Failure(_) => visit
      case Success(to) =>
        if entry.name in names then visit
        else
          StepIsNamed(place, entry, to);
          assert Names() - (names + {entry.name}) == Names() - names - {entry.name};
          visit + Visits(Some(span), to, EntriesAt(to), names + {entry.name})
    }

    function SpanOf(led: Option<Span>, entry: Entry): Span {
      if led.Some? then led.value else entry.span
    }

    /** The names of the libraries that are come to. */
    ghost function NamesIn(visits: seq<Visit>): set<string> {
      set visit | visit in visits && Step(visit.place, visit.entry).Success? :: visit.entry.name
    }

    /** Every visit of the workspace's entries. */
    ghost function AllVisits(): seq<Visit> {
      Visits(None, Root(), dependencies, AtFirst().required.Keys)
    }

    /** The libraries that are come to first, under names that are not in `names`. */
    ghost function Listing(visits: seq<Visit>, names: set<string>): seq<Library>
      decreases |visits|
    {
      if visits == [] then []
      else ListedBy(visits[0], names) + Listing(visits[1..], names + NamesIn([visits[0]]))
    }

    ghost function ListedBy(visit: Visit, names: set<string>): seq<Library> {
      match Step(visit.place, visit.entry)
      case Failure(_) => []
      case Success(to) => if visit.entry.name in names then [] else [Library(visit.entry.name, to.dir, false)]
    }

    /** The folder of each name is the one it is asked for at first. */
    ghost function Registered(required: map<string, Asked>, visits: seq<Visit>): map<string, Asked>
      decreases |visits|
    {
      if visits == [] then required else Registered(RegisteredBy(required, visits[0]), visits[1..])
    }

    ghost function RegisteredBy(required: map<string, Asked>, visit: Visit): map<string, Asked> {
      match Step(visit.place, visit.entry)
      case Failure(_) => required
      case Success(to) =>
        if visit.entry.name in required then required
        else required[visit.entry.name := Asked(to.dir, AskerOf(visit.place))]
    }

    /** What is wrong with an entry, when each name has the folder that `required` says. */
    ghost function ProblemOf(visit: Visit, required: map<string, Asked>): Option<Problem> {
      var name := visit.entry.name;
      match Step(visit.place, visit.entry)
      case Failure(cause) => Some(Problem(visit.span, name, visit.place.owner, cause))
      case Success(to) =>
        if name !in required || required[name].dir == to.dir then None
        else
          var cause := TwoPlaces(required[name].dir, required[name].asker, to.dir, AskerOf(visit.place));
          Some(Problem(visit.span, name, visit.place.owner, cause))
    }

    ghost function ProblemsOf(visits: seq<Visit>, required: map<string, Asked>): seq<Problem>
      decreases |visits|
    {
      if visits == [] then [] else Said(ProblemOf(visits[0], required)) + ProblemsOf(visits[1..], required)
    }

    ghost function Said(problem: Option<Problem>): seq<Problem> {
      if problem.Some? then [problem.value] else []
    }

    /** What a state is after some visits: what each name is asked for at first is listed, and what does
        not lead there is said. */
    ghost predicate IsTold(visits: seq<Visit>, before: State, after: State) {
      && after.required == Registered(before.required, visits)
      && after.libraries == before.libraries + Listing(visits, before.required.Keys)
      && after.problems == before.problems + ProblemsOf(visits, after.required)
    }

    lemma {:induction false} RegisteredBoth(required: map<string, Asked>, a: seq<Visit>, b: seq<Visit>)
      ensures Registered(required, a + b) == Registered(Registered(required, a), b)
      decreases |a|
    {
      if a == [] {
        assert a + b == b;
      } else {
        assert (a + b)[1..] == a[1..] + b;
        RegisteredBoth(RegisteredBy(required, a[0]), a[1..], b);
      }
    }

    lemma {:induction false} RegisteredKeys(required: map<string, Asked>, visits: seq<Visit>)
      ensures Registered(required, visits).Keys == required.Keys + NamesIn(visits)
      decreases |visits|
    {
      if visits != [] {
        RegisteredKeys(RegisteredBy(required, visits[0]), visits[1..]);
        NamesInBoth([visits[0]], visits[1..]);
        assert [visits[0]] + visits[1..] == visits;
        assert RegisteredBy(required, visits[0]).Keys == required.Keys + NamesIn([visits[0]]);
      }
    }

    lemma NamesInBoth(a: seq<Visit>, b: seq<Visit>)
      ensures NamesIn(a + b) == NamesIn(a) + NamesIn(b)
    {
    }

    lemma {:induction false} ListingBoth(a: seq<Visit>, b: seq<Visit>, names: set<string>)
      ensures Listing(a + b, names) == Listing(a, names) + Listing(b, names + NamesIn(a))
      decreases |a|
    {
      if a == [] {
        assert a + b == b && names + NamesIn(a) == names;
        assert [] + Listing(b, names) == Listing(b, names);
      } else {
        var wider := names + NamesIn([a[0]]);
        assert (a + b)[1..] == a[1..] + b;
        ListingBoth(a[1..], b, wider);
        NamesInBoth([a[0]], a[1..]);
        assert [a[0]] + a[1..] == a;
        assert wider + NamesIn(a[1..]) == names + NamesIn(a);
        Joined(ListedBy(a[0], names), Listing(a[1..], wider), Listing(b, names + NamesIn(a)));
      }
    }

    lemma {:induction false} ProblemsBoth(a: seq<Visit>, b: seq<Visit>, required: map<string, Asked>)
      ensures ProblemsOf(a + b, required) == ProblemsOf(a, required) + ProblemsOf(b, required)
      decreases |a|
    {
      if a == [] {
        assert a + b == b;
      } else {
        assert (a + b)[1..] == a[1..] + b;
        ProblemsBoth(a[1..], b, required);
        Joined(Said(ProblemOf(a[0], required)), ProblemsOf(a[1..], required), ProblemsOf(b, required));
      }
    }

    /** What is wrong with an entry stays wrong, once its name has a folder. */
    lemma {:induction false} ProblemsStay(visits: seq<Visit>, before: map<string, Asked>, after: map<string, Asked>)
      requires Grows(before, after) && NamesIn(visits) <= before.Keys
      ensures ProblemsOf(visits, after) == ProblemsOf(visits, before)
      decreases |visits|
    {
      if visits != [] {
        NamesInBoth([visits[0]], visits[1..]);
        assert [visits[0]] + visits[1..] == visits;
        ProblemsStay(visits[1..], before, after);
        var name := visits[0].entry.name;
        if Step(visits[0].place, visits[0].entry).Success? {
          assert visits[0] in visits;
          assert name in NamesIn(visits);
        }
      }
    }

    lemma ToldBoth(a: seq<Visit>, b: seq<Visit>, before: State, middle: State, after: State)
      requires IsTold(a, before, middle) && IsTold(b, middle, after) && Grows(middle.required, after.required)
      ensures IsTold(a + b, before, after)
    {
      RegisteredBoth(before.required, a, b);
      RegisteredKeys(before.required, a);
      ListingBoth(a, b, before.required.Keys);
      Joined(before.libraries, Listing(a, before.required.Keys), Listing(b, middle.required.Keys));
      ProblemsStay(a, middle.required, after.required);
      ProblemsBoth(a, b, after.required);
      Joined(before.problems, ProblemsOf(a, after.required), ProblemsOf(b, after.required));
    }

    /** Nothing is wrong if and only if every visit leads to the folder its name has. */
    lemma {:induction false} NoProblemIsSettled(visits: seq<Visit>, required: map<string, Asked>)
      requires NamesIn(visits) <= required.Keys
      ensures ProblemsOf(visits, required) == []
         <==> forall visit :: visit in visits ==> IsSettledEntry(visit.place, visit.entry, required)
      decreases |visits|
    {
      if visits != [] {
        var first := visits[0];
        NamesInBoth([first], visits[1..]);
        assert [first] + visits[1..] == visits;
        NoProblemIsSettled(visits[1..], required);
        if Step(first.place, first.entry).Success? {
          assert first.entry.name in NamesIn(visits);
        }
        assert forall visit :: visit in visits <==> visit == first || visit in visits[1..];
      }
    }

    // ----- What a walk has read

    /** A list names each library once, with the folder it was asked at, the standard library first. */
    ghost predicate IsListed(required: map<string, Asked>, libraries: seq<Library>) {
      && (forall i, j :: 0 <= i < j < |libraries| ==> libraries[i].name != libraries[j].name)
      && (forall i :: 0 <= i < |libraries| ==>
            libraries[i].name in required && required[libraries[i].name].dir == libraries[i].dir)
      && (forall name :: name in required ==> exists i :: 0 <= i < |libraries| && libraries[i].name == name)
      && (standard.Some? ==> libraries != [] && libraries[0] == standard.value)
      && (forall i :: 0 <= i < |libraries| && libraries[i].standard ==> i == 0 && standard.Some?)
    }

    ghost predicate AreRead(required: map<string, Asked>) {
      forall name {:trigger IsAsked(name, required[name])} :: name in required ==> IsAsked(name, required[name])
    }

    /** Each library comes after the one that asked for it. */
    ghost predicate IsInOrder(required: map<string, Asked>, libraries: seq<Library>) {
      forall i {:trigger Follows(libraries, i, required[libraries[i].name].asker)} ::
        0 <= i < |libraries| && libraries[i].name in required ==>
        Follows(libraries, i, required[libraries[i].name].asker)
    }

    ghost predicate Follows(libraries: seq<Library>, i: nat, asker: Asker) {
      asker.AnotherLibrary? ==> exists j :: 0 <= j < i && j < |libraries| && libraries[j].name == asker.name
    }

    ghost predicate AreDue(problems: seq<Problem>) {
      forall i {:trigger IsDue(problems[i])} :: 0 <= i < |problems| ==> IsDue(problems[i])
    }

    /** The entry leads to a library that is listed, at the folder it is listed with. */
    ghost predicate IsSettledEntry(place: Place, entry: Entry, required: map<string, Asked>) {
      && Step(place, entry).Success?
      && entry.name in required && required[entry.name].dir == Step(place, entry).value.dir
    }

    ghost predicate IsReported(place: Place, entry: Entry, problems: seq<Problem>) {
      exists problem {:trigger IsDueAt(place, entry, problem)} :: problem in problems && IsDueAt(place, entry, problem)
    }

    /** The entry leads to a listed library, or what is wrong with it is said. */
    ghost predicate IsAnswered(place: Place, entry: Entry, state: State) {
      IsSettledEntry(place, entry, state.required) || IsReported(place, entry, state.problems)
    }

    ghost predicate AreAnswered(place: Place, entries: seq<Entry>, state: State) {
      forall i {:trigger IsAnswered(place, entries[i], state)} ::
        0 <= i < |entries| ==> IsAnswered(place, entries[i], state)
    }

    /** Every entry of the library that `name` is listed with is answered. */
    ghost predicate IsClosed(name: string, state: State)
      requires name in state.required
    {
      exists hashed: Option<Dir> {:trigger Place(state.required[name].dir, hashed, Some(name))} ::
        var place := Place(state.required[name].dir, hashed, Some(name));
        AreAnswered(place, EntriesAt(place), state)
    }

    ghost predicate AreClosed(names: set<string>, state: State)
      requires names <= state.required.Keys
    {
      forall name {:trigger IsClosed(name, state)} :: name in names ==> IsClosed(name, state)
    }

    ghost predicate Grows(before: map<string, Asked>, after: map<string, Asked>) {
      forall name :: name in before ==> name in after && after[name] == before[name]
    }

    ghost predicate Keeps(before: State, after: State) {
      Grows(before.required, after.required) && before.problems <= after.problems
    }

    lemma ClosedStays(name: string, before: State, after: State)
      requires name in before.required && IsClosed(name, before) && Keeps(before, after)
      ensures IsClosed(name, after)
    {
      var dir := before.required[name].dir;
      var hashed: Option<Dir> :|
        AreAnswered(Place(dir, hashed, Some(name)), EntriesAt(Place(dir, hashed, Some(name))), before);
      var place := Place(after.required[name].dir, hashed, Some(name));
      var entries := EntriesAt(place);
      forall i | 0 <= i < |entries|
        ensures IsAnswered(place, entries[i], after)
      {
        assert IsAnswered(place, entries[i], before);
      }
    }

    /** The entries are answered, and every library that was not read before is closed. */
    ghost predicate AreDone(place: Place, entries: seq<Entry>, before: State, after: State) {
      AreAnswered(place, entries, after) && AreClosed(after.required.Keys - before.required.Keys, after)
    }

    lemma OneMoreEntry(place: Place, entries: seq<Entry>, n: nat, before: State, middle: State, after: State)
      requires n < |entries| && Keeps(before, middle) && Keeps(middle, after)
      requires AreDone(place, entries[..n], before, middle)
      requires AreDone(place, [entries[n]], middle, after)
      ensures AreDone(place, entries[..n + 1], before, after)
    {
      var more := entries[..n + 1];
      forall i | 0 <= i < n + 1
        ensures IsAnswered(place, more[i], after)
      {
        if i < n {
          assert IsAnswered(place, entries[..n][i], middle);
        } else {
          assert IsAnswered(place, [entries[n]][0], after);
        }
      }
      forall name | name in after.required.Keys - before.required.Keys
        ensures IsClosed(name, after)
      {
        if name in middle.required {
          assert IsClosed(name, middle);
          ClosedStays(name, middle, after);
        }
      }
    }

    /** What reading some entries comes to: what the visits from them come to is told, what was read and said
        stays, and the entries are done. */
    ghost predicate Reads(led: Option<Span>, place: Place, entries: seq<Entry>, before: State, after: State) {
      && Keeps(before, after)
      && IsTold(Visits(led, place, entries, before.required.Keys), before, after)
      && AreDone(place, entries, before, after)
    }

    /** Each state is what reading one more entry comes to from the one before it. */
    ghost predicate AreTurns(led: Option<Span>, place: Place, entries: seq<Entry>, turns: seq<State>) {
      0 < |turns| <= |entries| + 1
      && forall k {:trigger IsTurn(led, place, entries, turns, k)} ::
           0 <= k < |turns| - 1 ==> IsTurn(led, place, entries, turns, k)
    }

    ghost predicate IsTurn(led: Option<Span>, place: Place, entries: seq<Entry>, turns: seq<State>, k: nat)
      requires k < |entries| && k + 1 < |turns|
    {
      Reads(led, place, [entries[k]], turns[k], turns[k + 1])
    }

    lemma OneMoreTurn(led: Option<Span>, place: Place, entries: seq<Entry>, turns: seq<State>, n: nat,
                      before: State, now: State)
      requires AreTurns(led, place, entries, turns) && |turns| == n + 1 <= |entries| && before == turns[n]
      requires Reads(Some(SpanOf(led, entries[n])), place, [entries[n]], before, now)
      ensures AreTurns(led, place, entries, turns + [now])
    {
      var more, entry := turns + [now], entries[n];
      VisitsOfOne(led, place, entry, before.required.Keys);
      VisitsOfOne(Some(SpanOf(led, entry)), place, entry, before.required.Keys);
      forall k | 0 <= k < |more| - 1
        ensures IsTurn(led, place, entries, more, k)
      {
        if k < |turns| - 1 {
          assert IsTurn(led, place, entries, turns, k);
        }
      }
    }

    lemma {:induction false} TurnsAreRead(led: Option<Span>, place: Place, entries: seq<Entry>, turns: seq<State>)
      requires AreTurns(led, place, entries, turns)
      ensures Reads(led, place, entries[..|turns| - 1], turns[0], turns[|turns| - 1])
      ensures |turns| == |entries| + 1 ==> Reads(led, place, entries, turns[0], turns[|turns| - 1])
      decreases |turns|
    {
      var n := |turns| - 1;
      if n == 0 {
        NothingIsRead(led, place, turns[0]);
      } else {
        var init := turns[..n];
        forall k | 0 <= k < n - 1
          ensures IsTurn(led, place, entries, init, k)
        {
          assert IsTurn(led, place, entries, turns, k);
        }
        TurnsAreRead(led, place, entries, init);
        assert IsTurn(led, place, entries, turns, n - 1);
        EntryIsRead(led, place, entries, n - 1, turns[0], turns[n - 1], turns[n]);
      }
      if n == |entries| {
        assert entries[..n] == entries;
      }
    }

    /** How many libraries there are to read. */
    ghost function Left(required: map<string, Asked>): nat {
      |Names() - required.Keys|
    }

    lemma NothingIsRead(led: Option<Span>, place: Place, state: State)
      ensures Reads(led, place, [], state, state)
    {
      assert state.libraries + [] == state.libraries;
      assert state.problems + [] == state.problems;
    }

    lemma VisitsOfOne(led: Option<Span>, place: Place, entry: Entry, names: set<string>)
      ensures Visits(led, place, [entry], names) == VisitsBy(SpanOf(led, entry), place, entry, names)
    {
      var none: seq<Entry> := [];
      assert [entry][..0] == none;
      assert NamesIn(Visits(led, place, none, names)) == {} && names + {} == names;
      var visits := VisitsBy(SpanOf(led, entry), place, entry, names);
      assert [] + visits == visits;
    }

    lemma EntryIsRead(led: Option<Span>, place: Place, entries: seq<Entry>, n: nat,
                      before: State, middle: State, after: State)
      requires n < |entries|
      requires Reads(led, place, entries[..n], before, middle) && Reads(led, place, [entries[n]], middle, after)
      ensures Reads(led, place, entries[..n + 1], before, after)
    {
      VisitsOfOne(led, place, entries[n], middle.required.Keys);
      assert entries[..n + 1][..n] == entries[..n];
      var first := Visits(led, place, entries[..n], before.required.Keys);
      RegisteredKeys(before.required, first);
      var second := VisitsBy(SpanOf(led, entries[n]), place, entries[n], middle.required.Keys);
      ToldBoth(first, second, before, middle, after);
      OneMoreEntry(place, entries, n, before, middle, after);
    }

    /** Where an entry leads to nothing new, what is wrong with it is said. */
    lemma OneIsTold(visit: Visit, state: State, after: State)
      requires Step(visit.place, visit.entry).Success? ==> visit.entry.name in state.required
      requires after.required == state.required && after.libraries == state.libraries
      requires match ProblemOf(visit, state.required)
               case None => after.problems == state.problems
               case Some(problem) => after.problems == state.problems + [problem]
      ensures IsTold(Visits(Some(visit.span), visit.place, [visit.entry], state.required.Keys), state, after)
    {
      VisitsOfOne(Some(visit.span), visit.place, visit.entry, state.required.Keys);
      assert [visit][1..] == [];
      assert state.libraries + [] == state.libraries && state.problems + [] == state.problems;
    }

    lemma ProblemIsSaid(place: Place, entry: Entry, state: State, problem: Problem)
      requires IsDueAt(place, entry, problem) && (Step(place, entry).Success? ==> entry.name in state.required)
      requires ProblemOf(Visit(problem.span, place, entry), state.required) == Some(problem)
      ensures Reads(Some(problem.span), place, [entry], state, state.(problems := state.problems + [problem]))
    {
      var after := state.(problems := state.problems + [problem]);
      OneIsTold(Visit(problem.span, place, entry), state, after);
      assert problem in after.problems;
      assert IsReported(place, entry, after.problems);
      assert IsAnswered(place, entry, after);
    }

    lemma LibraryIsRead(span: Span, place: Place, entry: Entry, to: Place, before: State, after: State)
      requires Step(place, entry) == Success(to) && entry.name !in before.required && to.owner == Some(entry.name)
      requires var middle := before.With(entry.name, Asked(to.dir, AskerOf(place)));
               Reads(Some(span), to, EntriesAt(to), middle, after)
      ensures Reads(Some(span), place, [entry], before, after)
    {
      var middle := before.With(entry.name, Asked(to.dir, AskerOf(place)));
      var visit := Visit(span, place, entry);
      VisitsOfOne(Some(span), place, entry, before.required.Keys);
      assert middle.required.Keys == before.required.Keys + {entry.name};
      ToldBoth([visit], Visits(Some(span), to, EntriesAt(to), middle.required.Keys), before, middle, after);
    }

    lemma RegisteredIsListed(required: map<string, Asked>, libraries: seq<Library>, name: string, asked: Asked)
      requires IsListed(required, libraries) && name !in required
      ensures IsListed(required[name := asked], libraries + [Library(name, asked.dir, false)])
    {
      var after := libraries + [Library(name, asked.dir, false)];
      var wider := required[name := asked];
      forall other | other in wider
        ensures exists i :: 0 <= i < |after| && after[i].name == other
      {
        if other == name {
          assert after[|libraries|].name == name;
        } else {
          var i :| 0 <= i < |libraries| && libraries[i].name == other;
          assert after[i].name == other;
        }
      }
    }

    /** A library is the standard one, or asked for by the workspace or by a library before it. */
    ghost predicate IsAskedBefore(libraries: seq<Library>, i: nat)
      requires i < |libraries|
    {
      exists asked: Asked {:trigger IsAsked(libraries[i].name, asked)} ::
        IsAsked(libraries[i].name, asked) && asked.dir == libraries[i].dir
        && Follows(libraries, i, asked.asker)
    }

    lemma ListIsInOrder(required: map<string, Asked>, libraries: seq<Library>, i: nat)
      requires IsListed(required, libraries) && IsInOrder(required, libraries) && AreRead(required) && i < |libraries|
      ensures IsAskedBefore(libraries, i) && IsRead(libraries[i].name, libraries[i].dir)
    {
      var asked := required[libraries[i].name];
      assert IsAsked(libraries[i].name, asked);
      AskedIsRead(libraries[i].name, asked);
    }

    lemma RegisteredIsInOrder(required: map<string, Asked>, libraries: seq<Library>, name: string, asked: Asked)
      requires IsListed(required, libraries) && IsInOrder(required, libraries) && name !in required
      requires asked.asker.AnotherLibrary? ==> asked.asker.name in required
      ensures IsInOrder(required[name := asked], libraries + [Library(name, asked.dir, false)])
    {
      var wider, after := required[name := asked], libraries + [Library(name, asked.dir, false)];
      forall i | 0 <= i < |after| && after[i].name in wider
        ensures Follows(after, i, wider[after[i].name].asker)
      {
        var asker := wider[after[i].name].asker;
        if asker.AnotherLibrary? && i < |libraries| {
          assert Follows(libraries, i, required[libraries[i].name].asker);
          var j :| 0 <= j < i && libraries[j].name == asker.name;
          assert after[j].name == libraries[j].name;
        } else if asker.AnotherLibrary? {
          var j :| 0 <= j < |libraries| && libraries[j].name == asker.name;
          assert after[j].name == libraries[j].name;
        }
      }
    }

    lemma StepIsNamed(place: Place, entry: Entry, to: Place)
      requires Step(place, entry) == Success(to)
      ensures entry.name in Names()
    {
      assert to.dir in configs && configs[to.dir].Config? && configs[to.dir].name == entry.name;
    }

    lemma FewerNames(required: map<string, Asked>, name: string, asked: Asked)
      requires name in Names() && name !in required
      ensures |Names() - required[name := asked].Keys| < |Names() - required.Keys|
    {
      assert Names() - required[name := asked].Keys == Names() - required.Keys - {name};
    }

    lemma NoMoreNames(before: map<string, Asked>, after: map<string, Asked>)
      requires Grows(before, after)
      ensures |Names() - after.Keys| <= |Names() - before.Keys|
    {
      FewerIn(Names() - after.Keys, Names() - before.Keys);
    }

    lemma AnsweredIsSettled(place: Place, entries: seq<Entry>, state: State, entry: Entry)
      requires AreAnswered(place, entries, state) && entry in entries && state.problems == []
      ensures IsSettledEntry(place, entry, state.required)
    {
      var i :| 0 <= i < |entries| && entries[i] == entry;
      assert IsAnswered(place, entries[i], state);
    }

    /** Without a problem, with the entries of the workspace answered and every library but the standard
        one closed, what is reached is listed. */
    lemma {:induction false} ReachedIsListed(place: Place, steps: nat, state: State)
      requires ReachesIn(place, steps) && place.owner.Some? && state.problems == []
      requires AreDone(Root(), dependencies, AtFirst(), state)
      requires standard.Some? ==> standard.value.name in state.required
      ensures place.owner.value in state.required && state.required[place.owner.value].dir == place.dir
      decreases steps
    {
      var from: Place, entry: Entry :| ReachesIn(from, steps - 1) && Leads(from, entry, place);
      if from.owner.None? {
        assert from == Root();
        AnsweredIsSettled(from, EntriesAt(from), state, entry);
      } else {
        ReachedIsListed(from, steps - 1, state);
        var first := ClosedPlace(from.owner.value, state);
        AnsweredIsSettled(first, EntriesAt(first), state, entry);
        OneFolder(entry, first, from);
      }
    }

    /** The place at which the entries of a listed library are answered. */
    lemma ClosedPlace(name: string, state: State) returns (place: Place)
      requires AreDone(Root(), dependencies, AtFirst(), state) && name in state.required
      requires standard.None? || name != standard.value.name
      ensures place.owner == Some(name) && place.dir == state.required[name].dir
      ensures AreAnswered(place, EntriesAt(place), state)
    {
      assert name in state.required.Keys - AtFirst().required.Keys;
      assert IsClosed(name, state);
      var dir := state.required[name].dir;
      var hashed: Option<Dir> :|
        AreAnswered(Place(dir, hashed, Some(name)), EntriesAt(Place(dir, hashed, Some(name))), state);
      place := Place(dir, hashed, Some(name));
    }

    /** The folder of each name, once everything is read. */
    ghost function AllRequired(): map<string, Asked> {
      Registered(AtFirst().required, AllVisits())
    }

    /** Every entry that is read leads to the folder that its name is listed with. */
    ghost predicate AllLead(libraries: seq<Library>) {
      forall visit: Visit {:trigger Step(visit.place, visit.entry)} :: visit in AllVisits() ==>
        var to := Step(visit.place, visit.entry);
        to.Success? && Lists(libraries, visit.entry.name, to.value.dir)
    }

    /** There is no problem if and only if every entry that is read leads to a listed folder. */
    lemma ProblemsAreExact(state: State)
      requires IsListed(state.required, state.libraries)
      requires IsTold(AllVisits(), AtFirst(), state)
      ensures state.problems == ProblemsOf(AllVisits(), AllRequired())
      ensures SortByStart(state.problems) == [] <==> AllLead(state.libraries)
    {
      var visits := AllVisits();
      assert AtFirst().problems + ProblemsOf(visits, state.required) == ProblemsOf(visits, state.required);
      RegisteredKeys(AtFirst().required, visits);
      NoProblemIsSettled(visits, state.required);
      SortKeeps(state.problems);
      forall visit | visit in visits
        ensures IsSettledEntry(visit.place, visit.entry, state.required)
           <==> var to := Step(visit.place, visit.entry);
                to.Success? && Lists(state.libraries, visit.entry.name, to.value.dir)
      {
        if visit.entry.name in state.required {
          RequiredIsListed(visit.entry.name, state.required, state.libraries);
        }
      }
    }

    /** What is read before anything is walked: the standard library. */
    function AtFirst(): State {
      match standard
      case None => State(map[], [], [])
      case Some(library) => State(map[library.name := Asked(library.dir, Compiler)], [library], [])
    }

    /** Every entry of the place leads to a library that is listed, or what is wrong with it is said. */
    ghost predicate HasItsOwn(place: Place, libraries: seq<Library>, problems: seq<Problem>) {
      forall entry {:trigger Step(place, entry)} :: entry in EntriesAt(place) ==>
        || (Step(place, entry).Success? && Lists(libraries, entry.name, Step(place, entry).value.dir))
        || IsReported(place, entry, problems)
    }

    ghost predicate HasAllItUses(library: Library, libraries: seq<Library>, problems: seq<Problem>) {
      exists hashed: Option<Dir> {:trigger Place(library.dir, hashed, Some(library.name))} ::
        HasItsOwn(Place(library.dir, hashed, Some(library.name)), libraries, problems)
    }

    lemma RequiredIsListed(name: string, required: map<string, Asked>, libraries: seq<Library>)
      requires IsListed(required, libraries) && name in required
      ensures Lists(libraries, name, required[name].dir)
    {
      var i :| 0 <= i < |libraries| && libraries[i].name == name;
      assert libraries[i].dir == required[name].dir;
    }

    lemma AnsweredHasItsOwn(place: Place, state: State, problems: seq<Problem>)
      requires IsListed(state.required, state.libraries) && AreAnswered(place, EntriesAt(place), state)
      requires forall problem :: problem in state.problems ==> problem in problems
      ensures HasItsOwn(place, state.libraries, problems)
    {
      var entries := EntriesAt(place);
      forall entry | entry in entries
        ensures || (Step(place, entry).Success? && Lists(state.libraries, entry.name, Step(place, entry).value.dir))
                || IsReported(place, entry, problems)
      {
        var i :| 0 <= i < |entries| && entries[i] == entry;
        assert IsAnswered(place, entries[i], state);
        if IsReported(place, entry, state.problems) {
          var problem :| problem in state.problems && IsDueAt(place, entry, problem);
          assert problem in problems;
        } else {
          RequiredIsListed(entry.name, state.required, state.libraries);
        }
      }
    }

    /** Without a problem, a library's folder is read when it is listed, and only then. */
    lemma ListIsExact(name: string, dir: Dir, state: State)
      requires IsListed(state.required, state.libraries) && AreRead(state.required) && state.problems == []
      requires AreDone(Root(), dependencies, AtFirst(), state)
      ensures IsRead(name, dir) <==> Lists(state.libraries, name, dir)
    {
      if IsRead(name, dir) {
        if standard.Some? && standard.value.name == name && standard.value.dir == dir {
          assert state.libraries[0].name == name;
        } else {
          var hashed: Option<Dir> :| Reaches(Place(dir, hashed, Some(name)));
          var steps: nat :| ReachesIn(Place(dir, hashed, Some(name)), steps);
          assert standard.Some? ==> state.libraries[0].name in state.required;
          ReachedIsListed(Place(dir, hashed, Some(name)), steps, state);
          RequiredIsListed(name, state.required, state.libraries);
        }
      }
      if Lists(state.libraries, name, dir) {
        assert name in state.required && state.required[name].dir == dir;
        AskedIsRead(name, state.required[name]);
      }
    }

    /** What is read is what is listed. */
    ghost predicate IsExact(libraries: seq<Library>) {
      forall name, dir :: IsRead(name, dir) <==> Lists(libraries, name, dir)
    }

    lemma ListsAreExact(state: State)
      requires IsListed(state.required, state.libraries) && AreRead(state.required)
      requires AreDone(Root(), dependencies, AtFirst(), state)
      ensures SortByStart(state.problems) == [] ==> IsExact(state.libraries)
    {
      SortKeeps(state.problems);
      if state.problems == [] {
        forall name, dir
          ensures IsRead(name, dir) <==> Lists(state.libraries, name, dir)
        {
          ListIsExact(name, dir, state);
        }
      }
    }

    /** The workspace and every listed library but the standard one have all they use, but for what is
        said to be wrong. */
    lemma ListIsWhole(state: State, problems: seq<Problem>)
      requires IsListed(state.required, state.libraries) && AreDone(Root(), dependencies, AtFirst(), state)
      requires forall problem :: problem in state.problems ==> problem in problems
      ensures HasItsOwn(Root(), state.libraries, problems)
      ensures forall i :: |AtFirst().libraries| <= i < |state.libraries| ==>
                HasAllItUses(state.libraries[i], state.libraries, problems)
    {
      AnsweredHasItsOwn(Root(), state, problems);
      forall i | |AtFirst().libraries| <= i < |state.libraries|
        ensures HasAllItUses(state.libraries[i], state.libraries, problems)
      {
        var library := state.libraries[i];
        assert library.name in state.required && state.required[library.name].dir == library.dir;
        assert standard.Some? ==> state.libraries[0].name != library.name;
        var place := ClosedPlace(library.name, state);
        AnsweredHasItsOwn(place, state, problems);
        assert place == Place(library.dir, place.hashed, Some(library.name));
      }
    }

    lemma ListIsRight(required: map<string, Asked>, libraries: seq<Library>)
      requires IsListed(required, libraries) && IsInOrder(required, libraries) && AreRead(required)
      ensures forall i :: 0 <= i < |libraries| ==>
                IsAskedBefore(libraries, i) && IsRead(libraries[i].name, libraries[i].dir)
    {
      forall i | 0 <= i < |libraries|
        ensures IsAskedBefore(libraries, i) && IsRead(libraries[i].name, libraries[i].dir)
      {
        ListIsInOrder(required, libraries, i);
      }
    }

    lemma ProblemsAreRight(problems: seq<Problem>)
      requires AreDue(problems)
      ensures var sorted := SortByStart(problems);
              && InOrder(sorted) && (forall problem :: problem in sorted ==> IsDue(problem))
              && (forall problem :: problem in problems <==> problem in sorted)
              && (IsConsistent() ==> sorted == [])
    {
      SortIsStable(problems, 0);
      SortKeeps(problems);
      if IsConsistent() && problems != [] {
        ConsistentHasNoProblem(problems[0]);
      }
    }
  }

  lemma FewerIn<T>(a: set<T>, b: set<T>)
    requires a <= b
    ensures |a| <= |b|
  {
    assert b == a + (b - a);
  }

  // ----- The order of the problems

  ghost predicate InOrder(problems: seq<Problem>) {
    forall i, j :: 0 <= i < j < |problems| ==> problems[i].span.start <= problems[j].span.start
  }

  /** The problems that start at one point, in the order they have. */
  function StartingAt(problems: seq<Problem>, start: nat): seq<Problem> {
    if problems == [] then []
    else (if problems[0].span.start == start then [problems[0]] else []) + StartingAt(problems[1..], start)
  }

  function Inserted(problem: Problem, problems: seq<Problem>): seq<Problem> {
    if problems == [] || problem.span.start <= problems[0].span.start then [problem] + problems
    else [problems[0]] + Inserted(problem, problems[1..])
  }

  /** The problems by where they start; those that start together keep their order. */
  function SortByStart(problems: seq<Problem>): seq<Problem> {
    if problems == [] then [] else Inserted(problems[0], SortByStart(problems[1..]))
  }

  lemma {:induction false} InsertedIsOrdered(problem: Problem, problems: seq<Problem>)
    requires InOrder(problems)
    ensures InOrder(Inserted(problem, problems))
    ensures multiset(Inserted(problem, problems)) == multiset{problem} + multiset(problems)
  {
    if problems != [] && problem.span.start > problems[0].span.start {
      var rest := problems[1..];
      assert problems == [problems[0]] + rest;
      InsertedIsOrdered(problem, rest);
      FirstStaysFirst(problems[0], problem, rest);
    }
  }

  lemma FirstStaysFirst(first: Problem, problem: Problem, rest: seq<Problem>)
    requires InOrder([first] + rest) && first.span.start <= problem.span.start
    requires var r := Inserted(problem, rest); InOrder(r) && multiset(r) == multiset{problem} + multiset(rest)
    ensures InOrder([first] + Inserted(problem, rest))
  {
    var r := Inserted(problem, rest);
    forall j | 0 <= j < |r|
      ensures first.span.start <= r[j].span.start
    {
      assert r[j] in multiset(r);
      if r[j] != problem {
        assert r[j] in multiset(rest);
        var i :| 0 <= i < |rest| && rest[i] == r[j];
        assert ([first] + rest)[0] == first && ([first] + rest)[i + 1] == r[j];
      }
    }
  }

  lemma {:induction false} InsertedIsStable(problem: Problem, problems: seq<Problem>, start: nat)
    ensures StartingAt(Inserted(problem, problems), start) == StartingAt([problem] + problems, start)
  {
    assert ([problem] + problems)[1..] == problems;
    if problems != [] && problem.span.start > problems[0].span.start {
      var rest := problems[1..];
      InsertedIsStable(problem, rest, start);
      assert ([problem] + rest)[1..] == rest;
      assert Inserted(problem, problems)[1..] == Inserted(problem, rest);
    }
  }

  lemma {:induction false} SortIsStable(problems: seq<Problem>, start: nat)
    ensures var r := SortByStart(problems);
            && InOrder(r) && multiset(r) == multiset(problems) && StartingAt(r, start) == StartingAt(problems, start)
  {
    if problems != [] {
      var sorted := SortByStart(problems[1..]);
      SortIsStable(problems[1..], start);
      InsertedIsOrdered(problems[0], sorted);
      InsertedIsStable(problems[0], sorted, start);
      assert problems == [problems[0]] + problems[1..];
      assert ([problems[0]] + sorted)[1..] == sorted;
    }
  }

  lemma SortKeeps(problems: seq<Problem>)
    ensures |SortByStart(problems)| == |problems|
    ensures forall problem :: problem in SortByStart(problems) <==> problem in problems
  {
    SortIsStable(problems, 0);
    var r := SortByStart(problems);
    assert |multiset(r)| == |r| && |multiset(problems)| == |problems|;
    forall problem
      ensures problem in r <==> problem in problems
    {
      assert problem in r <==> problem in multiset(r);
      assert problem in problems <==> problem in multiset(problems);
    }
  }

  // ----- The walk

  class Resolver {
    const world: World
    /** Each library read so far: its folder, and who asked for it first. */
    var required: map<string, Asked>
    var libraries: seq<Library>
    var problems: seq<Problem>

    ghost function Now(): State
      reads this
    {
      State(required, libraries, problems)
    }

    ghost predicate Valid()
      reads this
    {
      && world.IsListed(required, libraries) && world.IsInOrder(required, libraries)
      && world.AreRead(required) && world.AreDue(problems)
    }

    /** The library a place is of is listed. */
    ghost predicate IsOwned(place: Place)
      reads this
    {
      place.owner.Some? ==> place.owner.value in required
    }

    constructor (world: World)
      requires world.standard.Some? ==> world.standard.value.standard
      ensures this.world == world && Valid()
      ensures Now() == world.AtFirst()
    {
      this.world := world;
      required := map[];
      libraries := [];
      problems := [];
      if world.standard.Some? {
        required := map[world.standard.value.name := Asked(world.standard.value.dir, Compiler)];
        libraries := [world.standard.value];
      }
      new;
      assert world.standard.Some? ==> libraries[0].name == world.standard.value.name;
    }

    /** Read the entries of a place, and those of each library they name that was not read before. */
    method Walk(place: Place, led: Option<Span>)
      requires Valid() && world.Reaches(place) && world.IsWalked(place) && IsOwned(place)
      requires if led.None? then place == world.Root() else world.IsOwnSpan(led.value)
      modifies this
      ensures Valid() && world.Reads(led, place, world.EntriesAt(place), old(Now()), Now())
      decreases world.Left(required), 3
    {
      var entries := world.EntriesAt(place);
      ghost var now := Now();
      ghost var turns := [now];
      for n := 0 to |entries|
        invariant Valid() && now == Now()
        invariant |turns| == n + 1 && turns[0] == old(Now()) && turns[n] == now
        invariant world.AreTurns(led, place, entries, turns)
        invariant world.Left(required) <= old(world.Left(required)) && IsOwned(place)
      {
        ghost var before := now;
        var entry := entries[n];
        WalkEntry(place, entry, world.SpanOf(led, entry));
        now := Now();
        world.OneMoreTurn(led, place, entries, turns, n, before, now);
        turns := turns + [now];
      }
      world.TurnsAreRead(led, place, entries, turns);
    }

    /** One turn of the walk. */
    method WalkEntry(place: Place, entry: Entry, span: Span)
      requires Valid() && world.Reaches(place) && world.IsWalked(place) && IsOwned(place)
      requires entry in world.EntriesAt(place)
      requires world.IsOwnSpan(span)
      modifies this
      ensures Valid() && world.Reads(Some(span), place, [entry], old(Now()), Now())
      ensures world.Left(required) <= old(world.Left(required)) && IsOwned(place)
      decreases world.Left(required), 2
    {
      match world.Locate(entry.dependency, place.dir, place.hashed) {
        case Failure(cause) =>
          var problem := Problem(span, entry.name, place.owner, cause);
          world.FailureIsDue(place, entry, problem);
          world.ProblemIsSaid(place, entry, Now(), problem);
          Report(problem);
        case Success((dir, hashed)) =>
          var problem := Read(place, entry, dir, hashed, span);
          if problem.Some? {
            world.ProblemIsSaid(place, entry, Now(), problem.value);
            Report(problem.value);
          } else {
            world.NoMoreNames(old(required), required);
          }
      }
    }

    method Report(problem: Problem)
      requires Valid() && world.IsDue(problem)
      modifies this`problems
      ensures Valid() && problems == old(problems) + [problem]
    {
      problems := problems + [problem];
    }

    /** Read the library at `dir` and the libraries it depends on. */
    method Read(place: Place, entry: Entry, dir: Dir, hashed: Option<Dir>, span: Span)
      returns (problem: Option<Problem>)
      requires Valid() && world.Reaches(place) && world.IsWalked(place) && IsOwned(place)
      requires entry in world.EntriesAt(place)
      requires world.Locate(entry.dependency, place.dir, place.hashed) == Success((dir, hashed))
      requires world.IsOwnSpan(span)
      modifies this
      ensures Valid()
      ensures problem.Some? ==> world.IsDueAt(place, entry, problem.value) && problem.value.span == span
      ensures problem.Some? ==> world.ProblemOf(Visit(span, place, entry), required) == problem
      ensures problem.Some? ==> Now() == old(Now()) && (world.Step(place, entry).Success? ==> entry.name in required)
      ensures problem.None? ==> world.Reads(Some(span), place, [entry], old(Now()), Now())
      decreases world.Left(required), 1
    {
      var to := Place(dir, hashed, Some(entry.name));
      var isNew;
      problem, isNew := Refuse(place, entry, to, span);
      if isNew {
        ReadNew(place, entry, to, span);
      }
    }

    /** List a library that was not read before, and walk it. */
    method ReadNew(place: Place, entry: Entry, to: Place, span: Span)
      requires Valid() && world.Step(place, entry) == Success(to) && world.Reaches(to)
      requires to.owner == Some(entry.name) && entry.name !in required && IsOwned(place) && world.IsOwnSpan(span)
      requires world.IsAsked(entry.name, Asked(to.dir, world.AskerOf(place)))
      modifies this
      ensures Valid() && world.Reads(Some(span), place, [entry], old(Now()), Now())
      decreases world.Left(required), 0
    {
      world.StepIsNamed(place, entry, to);
      world.FewerNames(required, entry.name, Asked(to.dir, world.AskerOf(place)));
      Register(entry.name, to, world.AskerOf(place));
      Walk(to, Some(span));
      world.LibraryIsRead(span, place, entry, to, old(Now()), Now());
    }

    /** What is wrong with a library, and whether there is nothing wrong and it was not read before. */
    method Refuse(place: Place, entry: Entry, to: Place, span: Span) returns (problem: Option<Problem>, isNew: bool)
      requires Valid() && world.Reaches(place) && world.IsWalked(place) && IsOwned(place)
      requires entry in world.EntriesAt(place)
      requires world.Locate(entry.dependency, place.dir, place.hashed) == Success((to.dir, to.hashed))
      requires to.owner == Some(entry.name) && world.IsOwnSpan(span)
      ensures problem.Some? ==> !isNew && world.IsDueAt(place, entry, problem.value) && problem.value.span == span
      ensures problem.Some? ==> world.ProblemOf(Visit(span, place, entry), required) == problem
      ensures problem.Some? ==> (world.Step(place, entry).Success? ==> entry.name in required)
      ensures isNew ==> entry.name !in required && world.Step(place, entry) == Success(to) && world.Reaches(to)
      ensures isNew ==> world.IsAsked(entry.name, Asked(to.dir, world.AskerOf(place)))
      ensures problem.None? && !isNew ==> world.Reads(Some(span), place, [entry], Now(), Now())
    {
      var refused := world.Refused(entry.name, to.dir);
      if refused.Some? {
        problem := Some(Problem(span, entry.name, place.owner, refused.value));
        world.FailureIsDue(place, entry, problem.value);
        return problem, false;
      }
      world.EntryLeads(place, entry, to);
      if entry.name !in required {
        return None, true;
      }
      var first := required[entry.name];
      if first.dir == to.dir {
        world.OneIsTold(Visit(span, place, entry), Now(), Now());
        return None, false;
      }
      var cause := TwoPlaces(first.dir, first.asker, to.dir, world.AskerOf(place));
      problem := Some(Problem(span, entry.name, place.owner, cause));
      return problem, false;
    }

    /** List a library. */
    method Register(name: string, to: Place, asker: Asker)
      requires Valid() && name !in required && world.IsAsked(name, Asked(to.dir, asker))
      requires asker.AnotherLibrary? ==> asker.name in required
      modifies this`required, this`libraries
      ensures Valid() && Now() == old(Now()).With(name, Asked(to.dir, asker))
    {
      world.RegisteredIsListed(required, libraries, name, Asked(to.dir, asker));
      world.RegisteredIsInOrder(required, libraries, name, Asked(to.dir, asker));
      required := required[name := Asked(to.dir, asker)];
      libraries := libraries + [Library(name, to.dir, false)];
    }
  }

  /** The libraries a workspace depends on, and what is wrong with its dependencies.

      Each name is listed once, at one folder, the standard library first; every other one is reached
      from the workspace, after the one that asked for it. Every entry of the workspace and of a listed
      library leads to a listed library or to a problem, and every problem is one of an entry that is
      reached. The problems are those of the entries read, in depth-first order, that lead to no library
      or not to the folder their name is listed with: there is none if and only if every entry read leads
      to its listed folder, and then what is listed is what is reached. */
  method Resolve(world: World) returns (libraries: seq<Library>, problems: seq<Problem>)
    requires world.standard.Some? ==> world.standard.value.standard
    ensures forall i, j :: 0 <= i < j < |libraries| ==> libraries[i].name != libraries[j].name
    ensures world.standard.Some? ==> libraries != [] && libraries[0] == world.standard.value
    ensures forall i :: 0 <= i < |libraries| ==> world.IsRead(libraries[i].name, libraries[i].dir)
    ensures forall i :: 0 <= i < |libraries| && libraries[i].standard ==> i == 0 && world.standard.Some?
    ensures forall i :: 0 <= i < |libraries| ==> world.IsAskedBefore(libraries, i)
    ensures libraries
         == world.AtFirst().libraries + world.Listing(world.AllVisits(), world.AtFirst().required.Keys)
    ensures problems == SortByStart(world.ProblemsOf(world.AllVisits(), world.AllRequired()))
    ensures problems == [] <==> world.AllLead(libraries)
    ensures InOrder(problems) && forall problem :: problem in problems ==> world.IsDue(problem)
    ensures world.HasItsOwn(world.Root(), libraries, problems)
    ensures forall i :: |world.AtFirst().libraries| <= i < |libraries| ==>
              world.HasAllItUses(libraries[i], libraries, problems)
    ensures problems == [] ==> world.IsExact(libraries)
    ensures world.IsConsistent() ==> problems == []
  {
    var resolver := new Resolver(world);
    assert world.ReachesIn(world.Root(), 0);
    resolver.Walk(world.Root(), None);
    libraries, problems := resolver.libraries, SortByStart(resolver.problems);
    world.ListIsRight(resolver.required, libraries);
    world.ProblemsAreRight(resolver.problems);
    world.ListIsWhole(resolver.Now(), problems);
    world.ProblemsAreExact(resolver.Now());
    world.ListsAreExact(resolver.Now());
  }
}
