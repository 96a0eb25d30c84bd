/** Marks woven into highlighted HTML: at every bound the open spans are closed and the marks adjusted,
    and each span opens again at the next character that needs it. */
module Marks {
  import opened Texts
  import opened Wrappers

  /** A range of the source to mark, in bytes, with what to say about it. */
  datatype Mark = Mark(start: nat, end: nat, class_: string, title: string, popup: string)

  // ----- What highlighted HTML is made of

  /** A tag, or a piece of text with the bytes it takes in the source. */
  datatype Token = Open(tag: string) | Close | Piece(text: string, width: nat)

  /** How many bytes UTF-8 takes for a character. */
  function Utf8Width(c: char): nat {
    if c < '\U{0080}' then 1 else if c < '\U{0800}' then 2 else if c < '\U{10000}' then 3 else 4
  }

  /** The first token of some HTML; none for a tag or an entity that does not end. */
  function TokenOf(html: string): (r: Option<Parsed<Token>>)
    requires html != ""
    ensures r.Some? ==> 0 < r.value.next <= |html| && Spell(r.value.value) == html[..r.value.next]
    ensures r.Some? && r.value.value.Piece? ==> r.value.value.width > 0
  {
    if html[0] == '<' then
      var end :- Find(html, '>');
      var tag := html[..end + 1];
      Some(Parsed(if tag == "</span>" then Close else Open(tag), end + 1))
    else if html[0] == '&' then
      var end :- Find(html, ';');
      Some(Parsed(Piece(html[..end + 1], 1), end + 1))
    else Some(Parsed(Piece(html[..1], Utf8Width(html[0])), 1))
  }

  function Spell(token: Token): string {
    match token
    case Open(tag) => tag
    case Close => "</span>"
    case Piece(text, _) => text
  }

  function Tokens(html: string): Option<seq<Token>> {
    if html == "" then Some([])
    else
      var first :- TokenOf(html);
      var rest :- Tokens(html[first.next..]);
      Some([first.value] + rest)
  }

  const POPUP: string := "<span class=\"diag-popup\">"

  /** A tag that opens a span, other than that of a popup. */
  ghost predicate IsSpanTag(tag: string) {
    "<span " <= tag && tag[|tag| - 1] == '>' && '>' !in tag[..|tag| - 1] && tag != POPUP
  }

  ghost predicate AreSpanTags(tags: seq<string>) {
    forall i :: 0 <= i < |tags| ==> IsSpanTag(tags[i])
  }

  /** Whether the tags of some HTML are those of spans alone. */
  ghost predicate OpensSpans(tokens: seq<Token>) {
    forall i :: 0 <= i < |tokens| && tokens[i].Open? ==> IsSpanTag(tokens[i].tag)
  }

  // ----- What is shown

  /** An element around a piece of text: a mark, by its place in the list, or a span. */
  datatype Element = InMark(mark: nat) | InSpan(tag: string)

  /** A piece of text and the elements around it, outermost first. */
  datatype Shown = Shown(text: string, around: seq<Element>)

  /** The marks that cover the byte at `at`, from the `i`th mark on. */
  function CoveringFrom(marks: seq<Mark>, at: int, i: nat): (covering: seq<nat>)
    decreases |marks| - i
    ensures forall k :: 0 <= k < |covering| ==> covering[k] < |marks|
  {
    if i >= |marks| then []
    else (if marks[i].start <= at < marks[i].end then [i] else []) + CoveringFrom(marks, at, i + 1)
  }

  function Covering(marks: seq<Mark>, at: int): (covering: seq<nat>)
    ensures forall i :: 0 <= i < |covering| ==> covering[i] < |marks|
  {
    CoveringFrom(marks, at, 0)
  }

  ghost predicate Covers(marks: seq<Mark>, at: int, k: nat) {
    k < |marks| && marks[k].start <= at && at < marks[k].end
  }

  /** They are those that start at or before it and end after it, in the order they were given. */
  lemma {:induction false} CoveringIsExact(marks: seq<Mark>, at: int, i: nat) returns (covering: seq<nat>)
    ensures covering == CoveringFrom(marks, at, i)
    ensures forall k: nat :: k in covering <==> i <= k && Covers(marks, at, k)
    ensures forall a, b :: 0 <= a < b < |covering| ==> covering[a] < covering[b]
    decreases |marks| - i
  {
    if i >= |marks| {
      covering := [];
    } else {
      var rest := CoveringIsExact(marks, at, i + 1);
      assert forall b :: 0 <= b < |rest| ==> rest[b] in rest;
      covering := (if Covers(marks, at, i) then [i] else []) + rest;
    }
  }

  function Around(active: seq<nat>, spans: seq<string>): (around: seq<Element>)
    ensures |around| == |active| + |spans|
  {
    seq(|active|, i requires 0 <= i < |active| => InMark(active[i]))
    + seq(|spans|, i requires 0 <= i < |spans| => InSpan(spans[i]))
  }

  /** A piece of the input, where it is in the source, and the spans around it. */
  datatype Fragment = Fragment(text: string, offset: nat, width: nat, spans: seq<string>)

  /** Where a reader of the input is: the open spans, the offset in the source, and the pieces so far. */
  datatype Reading = Reading(spans: seq<string>, offset: nat, fragments: seq<Fragment>)

  function ReadToken(r: Reading, token: Token): Option<Reading> {
    match token
    case Open(tag) => Some(r.(spans := r.spans + [tag]))
    case Close => if r.spans == [] then None else Some(r.(spans := r.spans[..|r.spans| - 1]))
    case Piece(text, width) =>
      Some(Reading(r.spans, r.offset + width, r.fragments + [Fragment(text, r.offset, width, r.spans)]))
  }

  /** The rest of the input read; `None` when it closes a span that is not open. */
  function ReadFrom(r: Reading, tokens: seq<Token>): Option<Reading>
    decreases |tokens|
  {
    if tokens == [] then Some(r)
    else
      var next :- ReadToken(r, tokens[0]);
      ReadFrom(next, tokens[1..])
  }

  function Read(tokens: seq<Token>): Option<Reading> {
    ReadFrom(Reading([], 0, []), tokens)
  }

  lemma {:induction false} ReadKeeps(r: Reading, tokens: seq<Token>)
    requires ReadFrom(r, tokens).Some?
    ensures r.fragments <= ReadFrom(r, tokens).value.fragments
    decreases |tokens|
  {
    if tokens != [] {
      ReadKeeps(ReadToken(r, tokens[0]).value, tokens[1..]);
    }
  }

  /** The token at the head of some HTML that can be read. */
  lemma FirstToken(html: string, r: Reading, last: Reading)
    requires html != "" && Tokens(html).Some? && ReadFrom(r, Tokens(html).value) == Some(last)
    ensures TokenOf(html).Some? && ReadToken(r, TokenOf(html).value.value).Some?
    ensures var first := TokenOf(html).value;
            var next := ReadToken(r, first.value).value;
            && Tokens(html[first.next..]).Some? && ReadFrom(next, Tokens(html[first.next..]).value) == Some(last)
            && next.fragments <= last.fragments
  {
    var first := TokenOf(html).value;
    var more := Tokens(html[first.next..]).value;
    assert Tokens(html).value[1..] == more;
    ReadKeeps(ReadToken(r, first.value).value, more);
  }

  lemma FirstOpens(html: string)
    requires html != "" && Tokens(html).Some? && OpensSpans(Tokens(html).value)
    ensures var first := TokenOf(html).value;
            OpensSpans([first.value]) && OpensSpans(Tokens(html[first.next..]).value)
  {
    var tokens, more := Tokens(html).value, Tokens(html[TokenOf(html).value.next..]).value;
    assert forall i :: 0 <= i < |more| ==> more[i] == tokens[i + 1];
    assert tokens[0] == TokenOf(html).value.value;
  }

  /** The pieces follow each other, from the start of the source. */
  ghost predicate FollowEachOther(fragments: seq<Fragment>) {
    forall i :: 0 <= i < |fragments| ==> fragments[i].offset == EndOf(fragments[..i])
  }

  function EndOf(fragments: seq<Fragment>): nat {
    if fragments == [] then 0 else fragments[|fragments| - 1].offset + fragments[|fragments| - 1].width
  }

  lemma OneMoreFollows(fragments: seq<Fragment>, fragment: Fragment)
    requires FollowEachOther(fragments) && fragment.offset == EndOf(fragments)
    ensures var more := fragments + [fragment];
            FollowEachOther(more) && EndOf(more) == fragment.offset + fragment.width
  {
    var more := fragments + [fragment];
    forall i | 0 <= i < |more|
      ensures more[i].offset == EndOf(more[..i])
    {
      assert more[..i] == fragments[..i];
    }
  }

  lemma {:induction false} ReadFollows(r: Reading, tokens: seq<Token>)
    requires FollowEachOther(r.fragments) && r.offset == EndOf(r.fragments) && ReadFrom(r, tokens).Some?
    ensures FollowEachOther(ReadFrom(r, tokens).value.fragments)
    decreases |tokens|
  {
    if tokens != [] {
      var next := ReadToken(r, tokens[0]).value;
      if tokens[0].Piece? {
        OneMoreFollows(r.fragments, next.fragments[|r.fragments|]);
      }
      ReadFollows(next, tokens[1..]);
    }
  }

  // ----- Where the marks are adjusted

  /** How many bounds were met, and the last offset the marks were adjusted at. */
  datatype Adjusted = Adjusted(next: nat, at: int)

  /** The marks are adjusted at the bound that is next, when the offset comes to it. */
  function Adjust(bounds: seq<nat>, a: Adjusted, offset: nat): Adjusted {
    if a.next < |bounds| && bounds[a.next] == offset then Adjusted(a.next + 1, offset) else a
  }

  /** The marks after some pieces, adjusted at the start of each. */
  function AdjustedBy(bounds: seq<nat>, fragments: seq<Fragment>): Adjusted {
    if fragments == [] then Adjusted(0, -1)
    else Adjust(bounds, AdjustedBy(bounds, fragments[..|fragments| - 1]), fragments[|fragments| - 1].offset)
  }

  /** Where the marks around a piece were adjusted last. */
  function LastBound(marks: seq<Mark>, fragments: seq<Fragment>, i: nat): int
    requires i < |fragments|
  {
    AdjustedBy(Bounds(marks), fragments[..i + 1]).at
  }

  /** How a piece is shown: in the marks that cover the last bound that was met, and in its spans. */
  function ShownOf(fragments: seq<Fragment>, i: nat, marks: seq<Mark>): Shown
    requires i < |fragments|
  {
    Shown(fragments[i].text, Around(Covering(marks, LastBound(marks, fragments, i)), fragments[i].spans))
  }

  function AllShown(fragments: seq<Fragment>, marks: seq<Mark>): seq<Shown> {
    seq(|fragments|, i requires 0 <= i < |fragments| => ShownOf(fragments, i, marks))
  }

  // ----- Bounds

  function Inserted(b: nat, bounds: seq<nat>): seq<nat> {
    if bounds == [] || b < bounds[0] then [b] + bounds
    else if b == bounds[0] then bounds
    else [bounds[0]] + Inserted(b, bounds[1..])
  }

  /** Where the marks start and end, in order, each once. */
  function Bounds(marks: seq<Mark>): seq<nat> {
    if marks == [] then [] else Inserted(marks[0].start, Inserted(marks[0].end, Bounds(marks[1..])))
  }

  ghost predicate Increases(bounds: seq<nat>) {
    forall i, j :: 0 <= i < j < |bounds| ==> bounds[i] < bounds[j]
  }

  lemma {:induction false} InsertedIncreases(b: nat, bounds: seq<nat>)
    requires Increases(bounds)
    ensures Increases(Inserted(b, bounds))
    ensures forall x :: x in Inserted(b, bounds) <==> x == b || x in bounds
  {
    if bounds == [] || b < bounds[0] || b == bounds[0] {
    } else {
      InsertedIncreases(b, bounds[1..]);
      var rest := Inserted(b, bounds[1..]);
      assert bounds == [bounds[0]] + bounds[1..];
      forall j | 0 <= j < |rest|
        ensures bounds[0] < rest[j]
      {
        assert rest[j] in rest;
      }
    }
  }

  ghost predicate IsBound(marks: seq<Mark>, b: nat) {
    exists i :: 0 <= i < |marks| && (b == marks[i].start || b == marks[i].end)
  }

  lemma {:induction false} BoundsAreAll(marks: seq<Mark>)
    ensures Increases(Bounds(marks)) && forall b :: b in Bounds(marks) <==> IsBound(marks, b)
  {
    if marks != [] {
      var rest := marks[1..];
      BoundsAreAll(rest);
      InsertedIncreases(marks[0].end, Bounds(rest));
      InsertedIncreases(marks[0].start, Inserted(marks[0].end, Bounds(rest)));
      forall b
        ensures b in Bounds(marks) <==> IsBound(marks, b)
      {
        if b in Bounds(rest) {
          var i :| 0 <= i < |rest| && (b == rest[i].start || b == rest[i].end);
          assert marks[i + 1] == rest[i];
        }
        if IsBound(marks, b) {
          var i :| 0 <= i < |marks| && (b == marks[i].start || b == marks[i].end);
          if i > 0 {
            assert rest[i - 1] == marks[i];
          }
        }
      }
    }
  }

  /** Between two bounds the same marks cover. */
  lemma {:induction false} CoveringStays(marks: seq<Mark>, a: int, b: int, i: nat)
    requires a <= b && forall bound: nat :: IsBound(marks, bound) ==> !(a < bound <= b)
    ensures CoveringFrom(marks, a, i) == CoveringFrom(marks, b, i)
    decreases |marks| - i
  {
    if i < |marks| {
      CoveringStays(marks, a, b, i + 1);
      assert IsBound(marks, marks[i].start) && IsBound(marks, marks[i].end);
    }
  }

  // ----- The output

  /** What is written: tags, marks with their popups, and text. */
  datatype Event = OpenSpan(tag: string) | CloseSpan | OpenMark(mark: nat) | CloseMark | Text(text: string)

  function MarkTag(m: Mark): string {
    "<mark class=\"diag " + m.class_ + "\" title=\"" + m.title + "\"><span class=\"diag-popup\">" + m.popup + "</span>"
  }

  function RenderEvent(event: Event, marks: seq<Mark>): string {
    match event
    case OpenSpan(tag) => tag
    case CloseSpan => "</span>"
    case OpenMark(m) => if m < |marks| then MarkTag(marks[m]) else ""
    case CloseMark => "</mark>"
    case Text(text) => text
  }

  function Render(events: seq<Event>, marks: seq<Mark>): string {
    if events == [] then "" else Render(events[..|events| - 1], marks) + RenderEvent(events[|events| - 1], marks)
  }

  /** Where a reader of the output is: the open elements, and the pieces so far. */
  datatype Screen = Screen(open: seq<Element>, shown: seq<Shown>)

  function ShowEvent(s: Screen, event: Event): Option<Screen> {
    match event
    case OpenSpan(tag) => Some(s.(open := s.open + [InSpan(tag)]))
    case OpenMark(m) => Some(s.(open := s.open + [InMark(m)]))
    case CloseSpan =>
      if s.open != [] && s.open[|s.open| - 1].InSpan? then Some(s.(open := s.open[..|s.open| - 1])) else None
    case CloseMark =>
      if s.open != [] && s.open[|s.open| - 1].InMark? then Some(s.(open := s.open[..|s.open| - 1])) else None
    case Text(text) => Some(s.(shown := s.shown + [Shown(text, s.open)]))
  }

  /** The output shown; `None` when an element is closed that is not the innermost. */
  function Show(events: seq<Event>): Option<Screen> {
    if events == [] then Some(Screen([], []))
    else
      var s :- Show(events[..|events| - 1]);
      ShowEvent(s, events[|events| - 1])
  }

  /** Spans open with the tag of a span, and there are no marks but those given. */
  ghost predicate IsProper(event: Event, marks: seq<Mark>) {
    match event
    case OpenSpan(tag) => IsSpanTag(tag)
    case OpenMark(m) => m < |marks|
    case _ => true
  }

  /** Some events have been written, and show that. */
  ghost predicate Shows(events: seq<Event>, marks: seq<Mark>, out: string, screen: Screen) {
    && out == Render(events, marks) && Show(events) == Some(screen)
    && forall i :: 0 <= i < |events| ==> IsProper(events[i], marks)
  }

  lemma Written(events: seq<Event>, marks: seq<Mark>, out: string, screen: Screen, event: Event)
    requires Shows(events, marks, out, screen) && ShowEvent(screen, event).Some?
    requires IsProper(event, marks)
    ensures Shows(events + [event], marks, out + RenderEvent(event, marks), ShowEvent(screen, event).value)
  {
    assert (events + [event])[..|events|] == events;
  }

  // ----- Weaving

  /** Every span that is opened is closed, and no other, every tag and entity ends, and there is no other tag. */
  ghost predicate IsHighlighted(html: string) {
    && Tokens(html).Some? && OpensSpans(Tokens(html).value)
    && Read(Tokens(html).value).Some? && Read(Tokens(html).value).value.spans == []
  }

  /** The output is well nested, and shows the pieces of the input, in order, so. */
  ghost predicate IsWoven(html: string, marks: seq<Mark>, out: string)
    requires IsHighlighted(html)
  {
    exists events ::
      Shows(events, marks, out, Screen([], AllShown(Read(Tokens(html).value).value.fragments, marks)))
  }

  /** Close what is open, and open the marks that cover `offset`, unless they are open already. */
  method Sync(marks: seq<Mark>, out: string, written: nat, active: seq<nat>, offset: nat,
      ghost spans: seq<string>, ghost shown: seq<Shown>, ghost events: seq<Event>)
    returns (out': string, written': nat, active': seq<nat>, ghost events': seq<Event>)
    requires written <= |spans| && Shows(events, marks, out, Screen(Around(active, spans[..written]), shown))
    ensures active' == Covering(marks, offset) && written' <= written
    ensures Shows(events', marks, out', Screen(Around(active', spans[..written']), shown))
  {
    out', written', active', events' := out, written, active, events;
    var wanted := Covering(marks, offset);
    if active == wanted {
      return;
    }
    out', events' := CloseSpans(marks, out, written, active, spans[..written], shown, events);
    out', events' := CloseMarks(marks, out', active, shown, events');
    out', events' := OpenMarks(marks, out', wanted, shown, events');
    written', active' := 0, wanted;
    assert spans[..0] == [];
  }

  method CloseSpans(marks: seq<Mark>, out: string, written: nat, active: seq<nat>, ghost spans: seq<string>,
      ghost shown: seq<Shown>, ghost events: seq<Event>)
    returns (out': string, ghost events': seq<Event>)
    requires written == |spans| && Shows(events, marks, out, Screen(Around(active, spans), shown))
    ensures Shows(events', marks, out', Screen(Around(active, []), shown))
  {
    out', events' := out, events;
    assert spans[..|spans|] == spans;
    for n := 0 to written
      invariant Shows(events', marks, out', Screen(Around(active, spans[..written - n]), shown))
    {
      SpanCloses(events', marks, out', active, spans, written - n, shown);
      out', events' := out' + "</span>", events' + [CloseSpan];
    }
  }

  method OpenMarks(marks: seq<Mark>, out: string, wanted: seq<nat>, ghost shown: seq<Shown>, ghost events: seq<Event>)
    returns (out': string, ghost events': seq<Event>)
    requires forall i :: 0 <= i < |wanted| ==> wanted[i] < |marks|
    requires Shows(events, marks, out, Screen([], shown))
    ensures Shows(events', marks, out', Screen(Around(wanted, []), shown))
  {
    out', events' := out, events;
    assert Around(wanted[..0], []) == [];
    for n := 0 to |wanted|
      invariant Shows(events', marks, out', Screen(Around(wanted[..n], []), shown))
    {
      MarkOpens(events', marks, out', wanted, n, shown);
      out', events' := out' + MarkTag(marks[wanted[n]]), events' + [OpenMark(wanted[n])];
    }
    assert wanted[..|wanted|] == wanted;
  }

  lemma NothingShows(marks: seq<Mark>)
    ensures Shows([], marks, "", Screen(Around([], []), AllShown([], marks)))
  {
    assert Around([], []) == [] && AllShown([], marks) == [];
  }

  lemma SpanCloses(events: seq<Event>, marks: seq<Mark>, out: string, active: seq<nat>, spans: seq<string>,
      n: nat, shown: seq<Shown>)
    requires 0 < n <= |spans| && Shows(events, marks, out, Screen(Around(active, spans[..n]), shown))
    ensures Shows(events + [CloseSpan], marks, out + "</span>", Screen(Around(active, spans[..n - 1]), shown))
  {
    AroundWithoutSpan(active, spans[..n]);
    assert spans[..n][..n - 1] == spans[..n - 1];
    Written(events, marks, out, Screen(Around(active, spans[..n]), shown), CloseSpan);
  }

  lemma SpanOpens(events: seq<Event>, marks: seq<Mark>, out: string, active: seq<nat>, spans: seq<string>,
      n: nat, shown: seq<Shown>)
    requires n < |spans| && IsSpanTag(spans[n])
    requires Shows(events, marks, out, Screen(Around(active, spans[..n]), shown))
    ensures Shows(events + [OpenSpan(spans[n])], marks, out + spans[n], Screen(Around(active, spans[..n + 1]), shown))
  {
    AroundWithSpan(active, spans[..n], spans[n]);
    assert spans[..n] + [spans[n]] == spans[..n + 1];
    Written(events, marks, out, Screen(Around(active, spans[..n]), shown), OpenSpan(spans[n]));
  }

  lemma MarkCloses(events: seq<Event>, marks: seq<Mark>, out: string, active: seq<nat>, n: nat, shown: seq<Shown>)
    requires 0 < n <= |active| && Shows(events, marks, out, Screen(Around(active[..n], []), shown))
    ensures Shows(events + [CloseMark], marks, out + "</mark>", Screen(Around(active[..n - 1], []), shown))
  {
    AroundWithoutMark(active[..n]);
    assert active[..n][..n - 1] == active[..n - 1];
    Written(events, marks, out, Screen(Around(active[..n], []), shown), CloseMark);
  }

  lemma MarkOpens(events: seq<Event>, marks: seq<Mark>, out: string, wanted: seq<nat>, n: nat, shown: seq<Shown>)
    requires n < |wanted| && wanted[n] < |marks| && Shows(events, marks, out, Screen(Around(wanted[..n], []), shown))
    ensures Shows(events + [OpenMark(wanted[n])], marks, out + MarkTag(marks[wanted[n]]),
              Screen(Around(wanted[..n + 1], []), shown))
  {
    AroundWithMark(wanted[..n], wanted[n]);
    assert wanted[..n] + [wanted[n]] == wanted[..n + 1];
    Written(events, marks, out, Screen(Around(wanted[..n], []), shown), OpenMark(wanted[n]));
  }

  lemma TextShows(events: seq<Event>, marks: seq<Mark>, out: string, open: seq<Element>, text: string,
      shown: seq<Shown>)
    requires Shows(events, marks, out, Screen(open, shown))
    ensures Shows(events + [Text(text)], marks, out + text, Screen(open, shown + [Shown(text, open)]))
  {
    Written(events, marks, out, Screen(open, shown), Text(text));
  }

  lemma AroundWithoutSpan(active: seq<nat>, spans: seq<string>)
    requires spans != []
    ensures var a := Around(active, spans);
            a[|a| - 1] == InSpan(spans[|spans| - 1]) && a[..|a| - 1] == Around(active, spans[..|spans| - 1])
  {
  }

  lemma AroundWithSpan(active: seq<nat>, spans: seq<string>, tag: string)
    ensures Around(active, spans + [tag]) == Around(active, spans) + [InSpan(tag)]
  {
  }

  lemma AroundWithoutMark(active: seq<nat>)
    requires active != []
    ensures var a := Around(active, []);
            a[|a| - 1] == InMark(active[|active| - 1]) && a[..|a| - 1] == Around(active[..|active| - 1], [])
  {
  }

  lemma AroundWithMark(active: seq<nat>, mark: nat)
    ensures Around(active + [mark], []) == Around(active, []) + [InMark(mark)]
  {
  }

  lemma AdjustTwice(bounds: seq<nat>, a: Adjusted, offset: nat)
    requires Increases(bounds)
    ensures Adjust(bounds, Adjust(bounds, a, offset), offset) == Adjust(bounds, a, offset)
  {
  }

  lemma TokenCopied(token: Token, marks: seq<Mark>, events: seq<Event>, out: string, r: Reading)
    returns (event: Event)
    requires marks == [] && ReadToken(r, token).Some? && OpensSpans([token])
    requires Shows(events, marks, out, Screen(Around([], r.spans), AllShown(r.fragments, marks)))
    ensures var next := ReadToken(r, token).value;
            Shows(events + [event], marks, out + Spell(token),
              Screen(Around([], next.spans), AllShown(next.fragments, marks)))
  {
    var shown := AllShown(r.fragments, marks);
    assert r.spans[..|r.spans|] == r.spans;
    match token
    case Open(tag) =>
      var spans := r.spans + [tag];
      assert [token][0] == token;
      assert spans[..|r.spans|] == r.spans && spans[..|r.spans| + 1] == spans;
      SpanOpens(events, marks, out, [], spans, |r.spans|, shown);
      event := OpenSpan(tag);
    case Close =>
      SpanCloses(events, marks, out, [], r.spans, |r.spans|, shown);
      event := CloseSpan;
    case Piece(text, width) =>
      TextShows(events, marks, out, Around([], r.spans), text, shown);
      AllShownSnoc(r.fragments, Fragment(text, r.offset, width, r.spans), marks);
      assert forall at :: Covering(marks, at) == [];
      event := Text(text);
  }

  lemma {:induction false} FirstCopied(html: string, marks: seq<Mark>, events: seq<Event>, out: string, whole: string,
                                       r: Reading, last: Reading)
    returns (more: seq<Event>, longer: string, rest: string, next: Reading)
    requires marks == [] && html != "" && whole == out + html
    requires Tokens(html).Some? && OpensSpans(Tokens(html).value) && ReadFrom(r, Tokens(html).value) == Some(last)
    requires Shows(events, marks, out, Screen(Around([], r.spans), AllShown(r.fragments, marks)))
    ensures |rest| < |html| && whole == longer + rest
    ensures Tokens(rest).Some? && OpensSpans(Tokens(rest).value) && ReadFrom(next, Tokens(rest).value) == Some(last)
    ensures Shows(more, marks, longer, Screen(Around([], next.spans), AllShown(next.fragments, marks)))
  {
    FirstToken(html, r, last);
    FirstOpens(html);
    var first := TokenOf(html).value;
    rest, next := html[first.next..], ReadToken(r, first.value).value;
    var event := TokenCopied(first.value, marks, events, out, r);
    more, longer := events + [event], out + Spell(first.value);
    assert html == Spell(first.value) + rest;
    Joined(out, Spell(first.value), rest);
  }

  /** With no marks the rest of the input is written as it is. */
  lemma {:induction false} RestCopied(html: string, marks: seq<Mark>, events: seq<Event>, out: string, whole: string,
                                      r: Reading, last: Reading)
    returns (all: seq<Event>)
    requires marks == [] && Tokens(html).Some? && OpensSpans(Tokens(html).value)
    requires ReadFrom(r, Tokens(html).value) == Some(last) && whole == out + html
    requires Shows(events, marks, out, Screen(Around([], r.spans), AllShown(r.fragments, marks)))
    ensures Shows(all, marks, whole, Screen(Around([], last.spans), AllShown(last.fragments, marks)))
    decreases |html|
  {
    if html == "" {
      assert out + html == out;
      all := events;
    } else {
      var more, longer, rest, next := FirstCopied(html, marks, events, out, whole, r, last);
      all := RestCopied(rest, marks, more, longer, whole, next, last);
    }
  }

  lemma NoMarks(html: string, marks: seq<Mark>)
    requires marks == [] && IsHighlighted(html)
    ensures IsWoven(html, marks, html)
  {
    NothingShows(marks);
    assert "" + html == html && Around([], []) == [];
    var all := RestCopied(html, marks, [], "", html, Reading([], 0, []), Read(Tokens(html).value).value);
  }

  lemma LastBoundStays(marks: seq<Mark>, fragments: seq<Fragment>, fragment: Fragment, i: nat)
    requires i < |fragments|
    ensures LastBound(marks, fragments + [fragment], i) == LastBound(marks, fragments, i)
  {
    assert (fragments + [fragment])[..i + 1] == fragments[..i + 1];
  }

  lemma LastBoundOfNext(marks: seq<Mark>, fragments: seq<Fragment>, fragment: Fragment)
    ensures LastBound(marks, fragments + [fragment], |fragments|)
         == Adjust(Bounds(marks), AdjustedBy(Bounds(marks), fragments), fragment.offset).at
  {
    var more := fragments + [fragment];
    assert more[..|fragments| + 1] == more && more[..|fragments|] == fragments;
  }

  lemma AllShownSnoc(fragments: seq<Fragment>, fragment: Fragment, marks: seq<Mark>)
    ensures AllShown(fragments + [fragment], marks)
         == AllShown(fragments, marks) + [ShownOf(fragments + [fragment], |fragments|, marks)]
  {
    var more := fragments + [fragment];
    var shown, before := AllShown(more, marks), AllShown(fragments, marks);
    forall i | 0 <= i < |fragments|
      ensures shown[i] == before[i]
    {
      LastBoundStays(marks, fragments, fragment, i);
    }
    assert shown == before + [ShownOf(more, |fragments|, marks)];
  }

  /** Open the spans that are not written, and write a piece of text in them. */
  method Put(marks: seq<Mark>, out: string, written: nat, active: seq<nat>, spans: seq<string>, piece: string,
      ghost shown: seq<Shown>, ghost events: seq<Event>)
    returns (out': string, ghost events': seq<Event>)
    requires written <= |spans| && AreSpanTags(spans)
    requires Shows(events, marks, out, Screen(Around(active, spans[..written]), shown))
    ensures Shows(events', marks, out', Screen(Around(active, spans), shown + [Shown(piece, Around(active, spans))]))
  {
    out', events' := out, events;
    for n := written to |spans|
      invariant Shows(events', marks, out', Screen(Around(active, spans[..n]), shown))
    {
      SpanOpens(events', marks, out', active, spans, n, shown);
      out', events' := out' + spans[n], events' + [OpenSpan(spans[n])];
    }
    assert spans[..|spans|] == spans;
    TextShows(events', marks, out', Around(active, spans), piece, shown);
    out', events' := out' + piece, events' + [Text(piece)];
  }

  /** Close a span, if it is written: the marks may have closed it already. */
  method CloseOne(marks: seq<Mark>, out: string, written: nat, active: seq<nat>, spans: seq<string>,
      ghost shown: seq<Shown>, ghost events: seq<Event>)
    returns (out': string, written': nat, ghost events': seq<Event>)
    requires spans != [] && written <= |spans|
    requires Shows(events, marks, out, Screen(Around(active, spans[..written]), shown))
    ensures written' <= |spans| - 1
    ensures Shows(events', marks, out', Screen(Around(active, spans[..|spans| - 1][..written']), shown))
  {
    if written > |spans| - 1 {
      SpanCloses(events, marks, out, active, spans, written, shown);
      assert spans[..written - 1] == spans[..|spans| - 1][..written - 1];
      return out + "</span>", written - 1, events + [CloseSpan];
    }
    assert spans[..written] == spans[..|spans| - 1][..written];
    return out, written, events;
  }

  /** Close the marks that are left. */
  method CloseMarks(marks: seq<Mark>, out: string, active: seq<nat>, ghost shown: seq<Shown>, ghost events: seq<Event>)
    returns (out': string, ghost events': seq<Event>)
    requires Shows(events, marks, out, Screen(Around(active, []), shown))
    ensures Shows(events', marks, out', Screen([], shown))
  {
    out', events' := out, events;
    assert active[..|active|] == active && Around([], []) == [];
    for n := |active| downto 0
      invariant Shows(events', marks, out', Screen(Around(active[..n], []), shown))
    {
      MarkCloses(events', marks, out', active, n + 1, shown);
      out', events' := out' + "</mark>", events' + [CloseMark];
    }
  }

  /** One token: a span that opens is written with the next piece of text. */
  method Take(marks: seq<Mark>, token: Token, out: string, written: nat, active: seq<nat>, spans: seq<string>,
      ghost reading: Reading, ghost events: seq<Event>)
    returns (out': string, written': nat, spans': seq<string>, consumed: nat, ghost events': seq<Event>)
    requires ReadToken(reading, token).Some? && reading.spans == spans && written <= |spans|
    requires OpensSpans([token]) && AreSpanTags(spans)
    requires active
          == Covering(marks, Adjust(Bounds(marks), AdjustedBy(Bounds(marks), reading.fragments), reading.offset).at)
    requires Shows(events, marks, out, Screen(Around(active, spans[..written]), AllShown(reading.fragments, marks)))
    ensures var next := ReadToken(reading, token).value;
            && spans' == next.spans && AreSpanTags(spans') && written' <= |spans'|
            && reading.offset + consumed == next.offset
            && Shows(events', marks, out', Screen(Around(active, spans'[..written']), AllShown(next.fragments, marks)))
  {
    ghost var shown := AllShown(reading.fragments, marks);
    out', written', spans', consumed, events' := out, written, spans, 0, events;
    match token {
      case Open(tag) =>
        spans' := spans + [tag];
        assert [token][0] == token;
        assert spans'[..written] == spans[..written];
      case Close =>
        out', written', events' := CloseOne(marks, out, written, active, spans, shown, events);
        spans' := spans[..|spans| - 1];
      case Piece(piece, width) =>
        AllShownSnoc(reading.fragments, Fragment(piece, reading.offset, width, spans), marks);
        LastBoundOfNext(marks, reading.fragments, Fragment(piece, reading.offset, width, spans));
        out', events' := Put(marks, out, written, active, spans, piece, shown, events);
        written', consumed := |spans|, width;
        assert spans[..|spans|] == spans;
    }
  }

  /** Wrap ranges of highlighted HTML in marks without breaking its spans. The output is well nested and
      shows each piece of the input in the marks that cover the last bound that was met before it, which
      are those that cover the piece when the cuts of the marks do no harm. */
  method MarkHtml(html: string, marks: seq<Mark>) returns (out: string)
    requires IsHighlighted(html)
    ensures IsWoven(html, marks, out)
    ensures CutsAreHarmless(marks, Read(Tokens(html).value).value.fragments) ==> IsMarked(html, marks, out)
  {
    if marks == [] {
      NoMarks(html, marks);
      out := html;
    } else {
      out := Weave(html, marks);
    }
    ReadFollows(Reading([], 0, []), Tokens(html).value);
    AllShownIsCovered(marks, Read(Tokens(html).value).value.fragments);
  }

  method Weave(html: string, marks: seq<Mark>) returns (out: string)
    requires IsHighlighted(html)
    ensures IsWoven(html, marks, out)
  {
    var bounds := Bounds(marks);
    out := "";
    var spans: seq<string>, written: nat, active: seq<nat> := [], 0, [];
    var offset: nat, next: nat, rest := 0, 0, html;
    ghost var events: seq<Event>, reading := [], Reading([], 0, []);
    ghost var last, at := Read(Tokens(html).value).value, Adjusted(0, -1).at;
    BoundsAreAll(marks);
    NothingCovers(marks, 0);
    NothingShows(marks);
    while rest != ""
      invariant Tokens(rest).Some? && ReadFrom(reading, Tokens(rest).value) == Some(last)
      invariant OpensSpans(Tokens(rest).value) && AreSpanTags(spans)
      invariant reading.spans == spans && reading.offset == offset
      invariant written <= |spans| && active == Covering(marks, at)
      invariant Shows(events, marks, out, Screen(Around(active, spans[..written]), AllShown(reading.fragments, marks)))
      invariant Adjust(bounds, Adjusted(next, at), offset)
             == Adjust(bounds, AdjustedBy(bounds, reading.fragments), offset)
      decreases |rest|
    {
      ghost var shown := AllShown(reading.fragments, marks);
      ghost var before := Adjusted(next, at);
      if next < |bounds| && bounds[next] == offset {
        next, at := next + 1, offset;
        out, written, active, events := Sync(marks, out, written, active, offset, spans, shown, events);
      }
      FirstToken(rest, reading, last);
      FirstOpens(rest);
      var first := TokenOf(rest).value;
      AdjustedOn(bounds, reading, first.value, before, Adjusted(next, at));
      var consumed;
      out, written, spans, consumed, events := Take(marks, first.value, out, written, active, spans, reading, events);
      offset := offset + consumed;
      rest := rest[first.next..];
      reading := ReadToken(reading, first.value).value;
    }
    out, written, active, events :=
      Sync(marks, out, written, active, offset, spans, AllShown(reading.fragments, marks), events);
    out, events := CloseMarks(marks, out, active, AllShown(reading.fragments, marks), events);
  }

  /** What the marks are adjusted to by one more token. */
  lemma AdjustedOn(bounds: seq<nat>, r: Reading, token: Token, before: Adjusted, now: Adjusted)
    requires Increases(bounds) && ReadToken(r, token).Some? && now == Adjust(bounds, before, r.offset)
    requires now == Adjust(bounds, AdjustedBy(bounds, r.fragments), r.offset)
    ensures var next := ReadToken(r, token).value;
            Adjust(bounds, now, next.offset) == Adjust(bounds, AdjustedBy(bounds, next.fragments), next.offset)
  {
    if token.Piece? {
      var fragments := ReadToken(r, token).value.fragments;
      assert fragments[..|fragments| - 1] == r.fragments;
    } else {
      AdjustTwice(bounds, before, r.offset);
    }
  }

  lemma {:induction false} NothingCovers(marks: seq<Mark>, i: nat)
    ensures CoveringFrom(marks, -1, i) == []
    decreases |marks| - i
  {
    if i < |marks| {
      NothingCovers(marks, i + 1);
    }
  }

  // ----- What marks a piece is shown in

  /** Whether a mark starts or ends inside a piece of text. */
  predicate IsCut(marks: seq<Mark>, fragment: Fragment) {
    exists b :: b in Bounds(marks) && fragment.offset < b < fragment.offset + fragment.width
  }

  ghost predicate AreOnPieces(marks: seq<Mark>, fragments: seq<Fragment>) {
    forall i {:trigger IsCut(marks, fragments[i])} :: 0 <= i < |fragments| ==> !IsCut(marks, fragments[i])
  }

  /** The first piece a mark cuts; the number of pieces when none does. */
  function FirstCut(marks: seq<Mark>, fragments: seq<Fragment>): (k: nat)
    ensures k <= |fragments| && AreOnPieces(marks, fragments[..k])
    ensures k < |fragments| ==> IsCut(marks, fragments[k])
  {
    if fragments == [] then 0
    else
      var init := fragments[..|fragments| - 1];
      var k := FirstCut(marks, init);
      assert k < |init| ==> fragments[..k] == init[..k] && fragments[k] == init[k];
      assert init[..|init|] == init && fragments[..|fragments|] == fragments;
      if k < |init| then k
      else if IsCut(marks, fragments[|init|]) then |init|
      else
        assert AreOnPieces(marks, fragments) by {
          forall i | 0 <= i < |fragments|
            ensures !IsCut(marks, fragments[i])
          {
            if i < |init| {
              assert !IsCut(marks, init[i]);
            }
          }
        }
        |fragments|
  }

  /** The pieces after the first that is cut are covered by the marks that cover it. */
  predicate CutsAreHarmless(marks: seq<Mark>, fragments: seq<Fragment>) {
    var k := FirstCut(marks, fragments);
    forall i :: k < i < |fragments| ==> Covering(marks, fragments[i].offset) == Covering(marks, fragments[k].offset)
  }

  /** The pieces of the input, each in exactly the marks that cover it and, inside them, the spans that
      were around it. */
  function AllCovered(fragments: seq<Fragment>, marks: seq<Mark>): seq<Shown> {
    seq(|fragments|, i requires 0 <= i < |fragments| =>
      Shown(fragments[i].text, Around(Covering(marks, fragments[i].offset), fragments[i].spans)))
  }

  /** The output is well nested, and shows those pieces in order. */
  ghost predicate IsMarked(html: string, marks: seq<Mark>, out: string)
    requires IsHighlighted(html)
  {
    exists events ::
      Shows(events, marks, out, Screen([], AllCovered(Read(Tokens(html).value).value.fragments, marks)))
  }

  /** The bounds up to `at` are those that were met, and no other is before `offset`. */
  ghost predicate ArePassed(bounds: seq<nat>, a: Adjusted, offset: nat) {
    && a.next <= |bounds| && a.at <= offset
    && (forall i :: 0 <= i < a.next ==> bounds[i] <= a.at)
    && (forall i :: a.next <= i < |bounds| ==> a.at < bounds[i] && offset <= bounds[i])
  }

  lemma BoundPasses(marks: seq<Mark>, a: Adjusted, offset: nat)
    requires ArePassed(Bounds(marks), a, offset)
    ensures var b := Adjust(Bounds(marks), a, offset);
            && ArePassed(Bounds(marks), b, offset) && Covering(marks, b.at) == Covering(marks, offset)
            && forall i :: b.next <= i < |Bounds(marks)| ==> Bounds(marks)[i] > offset
  {
    var bounds := Bounds(marks);
    BoundsAreAll(marks);
    if a.next < |bounds| {
      assert forall i :: a.next < i < |bounds| ==> bounds[a.next] < bounds[i];
    }
    if !(a.next < |bounds| && bounds[a.next] == offset) {
      forall b: nat | IsBound(marks, b)
        ensures !(a.at < b <= offset)
      {
        assert b in bounds;
      }
      CoveringStays(marks, a.at, offset, 0);
    }
  }

  lemma {:induction false} BoundsArePassed(marks: seq<Mark>, fragments: seq<Fragment>)
    requires AreOnPieces(marks, fragments) && FollowEachOther(fragments)
    ensures ArePassed(Bounds(marks), AdjustedBy(Bounds(marks), fragments), EndOf(fragments))
  {
    if fragments != [] {
      var init, last := fragments[..|fragments| - 1], fragments[|fragments| - 1];
      assert forall i :: 0 <= i < |init| ==> init[..i] == fragments[..i] && init[i] == fragments[i];
      BoundsArePassed(marks, init);
      assert last.offset == EndOf(init);
      BoundPasses(marks, AdjustedBy(Bounds(marks), init), last.offset);
      BoundsAreAll(marks);
      var bounds, b := Bounds(marks), AdjustedBy(Bounds(marks), fragments);
      forall i | b.next <= i < |bounds|
        ensures bounds[i] >= EndOf(fragments)
      {
        assert bounds[i] in bounds && !IsCut(marks, fragments[|fragments| - 1]);
      }
    }
  }

  lemma FirstFollow(fragments: seq<Fragment>, i: nat)
    requires FollowEachOther(fragments) && i < |fragments|
    ensures FollowEachOther(fragments[..i]) && EndOf(fragments[..i]) == fragments[i].offset
  {
    var before := fragments[..i];
    assert forall j :: 0 <= j < i ==> before[..j] == fragments[..j] && before[j] == fragments[j];
  }

  /** Up to the first piece that is cut, the last bound that was met is covered by the marks that cover the
      piece; and a bound inside that one is next. */
  lemma LastBoundIsCovered(marks: seq<Mark>, fragments: seq<Fragment>, i: nat)
    requires FollowEachOther(fragments) && i < |fragments| && AreOnPieces(marks, fragments[..i])
    ensures Covering(marks, LastBound(marks, fragments, i)) == Covering(marks, fragments[i].offset)
    ensures var a := AdjustedBy(Bounds(marks), fragments[..i + 1]);
            IsCut(marks, fragments[i]) ==>
              a.next < |Bounds(marks)| && Bounds(marks)[a.next] < fragments[i].offset + fragments[i].width
  {
    var before, upTo := fragments[..i], fragments[..i + 1];
    FirstFollow(fragments, i);
    BoundsArePassed(marks, before);
    assert upTo[..|upTo| - 1] == before && upTo[|upTo| - 1] == fragments[i];
    BoundPasses(marks, AdjustedBy(Bounds(marks), before), fragments[i].offset);
    if IsCut(marks, fragments[i]) {
      NextIsInside(marks, AdjustedBy(Bounds(marks), fragments[..i + 1]), fragments[i]);
    }
  }

  lemma NextIsInside(marks: seq<Mark>, a: Adjusted, fragment: Fragment)
    requires ArePassed(Bounds(marks), a, fragment.offset) && IsCut(marks, fragment)
    ensures a.next < |Bounds(marks)| && Bounds(marks)[a.next] < fragment.offset + fragment.width
  {
    var bounds := Bounds(marks);
    assert Increases(bounds) by {
      BoundsAreAll(marks);
    }
    var b :| b in bounds && fragment.offset < b < fragment.offset + fragment.width;
    var j :| 0 <= j < |bounds| && bounds[j] == b;
    assert a.next <= j;
    if a.next < j {
      assert bounds[a.next] < bounds[j];
    }
  }

  /** The marks a piece is shown in, before and after the first piece that is cut. */
  lemma LastBoundFreezes(marks: seq<Mark>, fragments: seq<Fragment>, i: nat)
    requires FollowEachOther(fragments) && i < |fragments|
    ensures var k := FirstCut(marks, fragments);
            Covering(marks, LastBound(marks, fragments, i))
            == Covering(marks, fragments[if i <= k then i else k].offset)
  {
    var k := FirstCut(marks, fragments);
    if i <= k {
      assert fragments[..i] == fragments[..k][..i];
      LastBoundIsCovered(marks, fragments, i);
    } else {
      LastBoundIsCovered(marks, fragments, k);
      StaysBehind(marks, fragments, k, i);
    }
  }

  lemma AroundIsInjective(a: seq<nat>, b: seq<nat>, spans: seq<string>)
    requires Around(a, spans) == Around(b, spans)
    ensures a == b
  {
    forall i | 0 <= i < |a|
      ensures a[i] == b[i]
    {
      assert Around(a, spans)[i] == InMark(a[i]) && Around(b, spans)[i] == InMark(b[i]);
    }
  }

  /** Each piece is shown in exactly the marks that cover it if and only if the pieces after the first one
      that a mark cuts are covered by the marks that cover that one. */
  lemma AllShownIsCovered(marks: seq<Mark>, fragments: seq<Fragment>)
    requires FollowEachOther(fragments)
    ensures AllShown(fragments, marks) == AllCovered(fragments, marks) <==> CutsAreHarmless(marks, fragments)
  {
    var k, shown, covered := FirstCut(marks, fragments), AllShown(fragments, marks), AllCovered(fragments, marks);
    forall i | 0 <= i < |fragments|
      ensures shown[i] == covered[i]
         <==> (i > k ==> Covering(marks, fragments[i].offset) == Covering(marks, fragments[k].offset))
    {
      LastBoundFreezes(marks, fragments, i);
      if shown[i] == covered[i] {
        AroundIsInjective(Covering(marks, LastBound(marks, fragments, i)), Covering(marks, fragments[i].offset),
          fragments[i].spans);
      }
    }
    if CutsAreHarmless(marks, fragments) {
      assert shown == covered;
    }
  }

  /** Once a bound that is not met is behind, no other is met: every piece from there on is shown in the
      same marks. */
  lemma {:induction false} StaysBehind(marks: seq<Mark>, fragments: seq<Fragment>, k: nat, i: nat)
    requires FollowEachOther(fragments) && k <= i < |fragments|
    requires var a := AdjustedBy(Bounds(marks), fragments[..k + 1]);
             a.next < |Bounds(marks)| && Bounds(marks)[a.next] < fragments[k].offset + fragments[k].width
    ensures AdjustedBy(Bounds(marks), fragments[..i + 1]) == AdjustedBy(Bounds(marks), fragments[..k + 1])
    decreases i
  {
    if i > k {
      StaysBehind(marks, fragments, k, i - 1);
      OffsetsGrow(fragments, k, i);
      var more, before := fragments[..i + 1], fragments[..i - 1 + 1];
      assert more[..|more| - 1] == before && more[|more| - 1] == fragments[i];
      assert AdjustedBy(Bounds(marks), more)
          == Adjust(Bounds(marks), AdjustedBy(Bounds(marks), before), fragments[i].offset);
    }
  }

  lemma {:induction false} OffsetsGrow(fragments: seq<Fragment>, k: nat, i: nat)
    requires FollowEachOther(fragments) && k < i < |fragments|
    ensures fragments[k].offset + fragments[k].width <= fragments[i].offset
    decreases i
  {
    assert fragments[i].offset == EndOf(fragments[..i]);
    if k < i - 1 {
      OffsetsGrow(fragments, k, i - 1);
    }
  }

  /** A mark that starts inside a character of two bytes and covers the one after it: that one is shown
      in no mark. */
  lemma MissedMark(mark: Mark)
    requires mark.start == 1 && mark.end == 3
    ensures Tokens("\U{00E9}x").Some? && Read(Tokens("\U{00E9}x").value).Some?
    ensures var fragments := Read(Tokens("\U{00E9}x").value).value.fragments;
            && |fragments| == 2
            && Covering([mark], fragments[1].offset) == [0]
            && Covering([mark], LastBound([mark], fragments, 1)) == []
  {
    TwoPieces("\U{00E9}x");
    var fragments := Read(Tokens("\U{00E9}x").value).value.fragments;
    assert Bounds([mark][1..]) == [];
    assert Bounds([mark]) == [1, 3];
    assert AdjustedBy([1, 3], fragments[..1]) == Adjusted(0, -1) by {
      assert fragments[..1][..0] == [];
    }
    assert fragments[..2][..1] == fragments[..1];
    assert LastBound([mark], fragments, 1) == -1;
    NothingCovers([mark], 0);
    assert CoveringFrom([mark], 2, 1) == [];
  }

  lemma TwoPieces(html: string)
    requires |html| == 2 && html[0] == '\U{00E9}' && html[1] == 'x'
    ensures Tokens(html).Some? && Read(Tokens(html).value).Some?
    ensures Read(Tokens(html).value).value.fragments
         == [Fragment(html[..1], 0, 2, []), Fragment(html[1..], 2, 1, [])]
  {
    var rest := html[1..];
    assert rest[..1] == rest && rest[1..] == "";
    assert Tokens(rest[1..]) == Some([]) && TokenOf(rest) == Some(Parsed(Piece(rest, 1), 1));
    assert [Piece(rest, 1)] + [] == [Piece(rest, 1)];
    assert Tokens(rest) == Some([Piece(rest, 1)]);
    assert TokenOf(html) == Some(Parsed(Piece(html[..1], 2), 1));
    var tokens := Tokens(html).value;
    assert tokens == [Piece(html[..1], 2), Piece(rest, 1)];
    assert tokens[1..] == [Piece(rest, 1)] && tokens[1..][1..] == [];
    var first := Reading([], 2, [Fragment(html[..1], 0, 2, [])]);
    assert [] + [Fragment(html[..1], 0, 2, [])] == first.fragments;
    assert ReadToken(Reading([], 0, []), tokens[0]) == Some(first);
    assert ReadFrom(Reading([], 0, []), tokens) == ReadFrom(first, tokens[1..]);
    var second := ReadToken(first, tokens[1]).value;
    assert ReadFrom(first, tokens[1..]) == ReadFrom(second, tokens[1..][1..]);
  }
}
