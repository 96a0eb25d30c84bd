/** What a reader of HTML sees of marked code: the pieces of the source in the marks that cover them, and the
    popups beside. */
module MarkPages {
  import opened Marks
  import opened Texts
  import opened Wrappers

  // ----- A reader of HTML

  /** Where it is: the elements that are open, outermost first, and the texts so far, each in its elements. */
  datatype Page = Page(open: seq<string>, texts: seq<(string, seq<string>)>)

  /** A `</mark>` closes a `<mark>` and a `</span>` a `<span>`, each the innermost element. */
  ghost function PageStep(p: Page, token: Token): Option<Page> {
    match token
    case Open(tag) =>
      if tag != "</mark>" then Some(p.(open := p.open + [tag]))
      else if p.open != [] && "<mark " <= p.open[|p.open| - 1] then Some(p.(open := p.open[..|p.open| - 1]))
      else None
    case Close =>
      if p.open != [] && "<span " <= p.open[|p.open| - 1] then Some(p.(open := p.open[..|p.open| - 1])) else None
    case Piece(text, _) => Some(p.(texts := p.texts + [(text, p.open)]))
  }

  ghost function PageFrom(p: Page, tokens: seq<Token>): Option<Page>
    decreases |tokens|
  {
    if tokens == [] then Some(p)
    else
      var next :- PageStep(p, tokens[0]);
      PageFrom(next, tokens[1..])
  }

  /** What is read of some HTML, from `p` on. */
  ghost function PageOf(p: Page, html: string): Option<Page> {
    var tokens :- Tokens(html);
    PageFrom(p, tokens)
  }

  /** The texts that are in no popup. */
  ghost function InCode(texts: seq<(string, seq<string>)>): seq<(string, seq<string>)> {
    if texts == [] then []
    else
      var last := texts[|texts| - 1];
      InCode(texts[..|texts| - 1]) + if POPUP in last.1 then [] else [last]
  }

  // ----- HTML after HTML

  lemma {:induction false} FindInBoth(a: string, b: string, c: char)
    requires Find(a, c).Some?
    ensures Find(a + b, c) == Find(a, c)
    decreases |a|
  {
    assert (a + b)[1..] == a[1..] + b;
    if a[0] != c {
      FindInBoth(a[1..], b, c);
    }
  }

  lemma TokenOfBoth(a: string, b: string)
    requires a != "" && TokenOf(a).Some?
    ensures TokenOf(a + b) == TokenOf(a)
  {
    if a[0] == '<' {
      FindInBoth(a, b, '>');
      assert (a + b)[..Find(a, '>').value + 1] == a[..Find(a, '>').value + 1];
    } else if a[0] == '&' {
      FindInBoth(a, b, ';');
      assert (a + b)[..Find(a, ';').value + 1] == a[..Find(a, ';').value + 1];
    } else {
      assert (a + b)[..1] == a[..1];
    }
  }

  lemma TokensStep(html: string, token: Token, rest: string)
    requires html != "" && TokenOf(html).Some? && TokenOf(html).value.value == token
    requires rest == html[TokenOf(html).value.next..] && Tokens(rest).Some?
    ensures Tokens(html) == Some([token] + Tokens(rest).value)
  {
  }

  lemma FirstOfBoth(a: string, b: string) returns (token: Token, rest: string)
    requires a != "" && Tokens(a).Some?
    ensures |rest| < |a| && Tokens(rest).Some? && Tokens(a) == Some([token] + Tokens(rest).value)
    ensures Tokens(rest + b).Some? ==> Tokens(a + b) == Some([token] + Tokens(rest + b).value)
  {
    TokenOfBoth(a, b);
    var first := TokenOf(a).value;
    token, rest := first.value, a[first.next..];
    assert (a + b)[first.next..] == rest + b;
    TokensStep(a, token, rest);
    if Tokens(rest + b).Some? {
      TokensStep(a + b, token, rest + b);
    }
  }

  lemma {:induction false} TokensOfBoth(a: string, b: string)
    requires Tokens(a).Some? && Tokens(b).Some?
    ensures Tokens(a + b) == Some(Tokens(a).value + Tokens(b).value)
    decreases |a|
  {
    if a == "" {
      assert a + b == b && [] + Tokens(b).value == Tokens(b).value;
    } else {
      var token, rest := FirstOfBoth(a, b);
      TokensOfBoth(rest, b);
      TokenThenBoth(token, Tokens(rest).value, Tokens(b).value);
    }
  }

  lemma TokensAre(a: string, b: string, first: seq<Token>, second: seq<Token>)
    requires Tokens(a) == Some(first) && Tokens(b) == Some(second)
    ensures Tokens(a + b) == Some(first + second)
  {
    TokensOfBoth(a, b);
  }

  lemma TokenThenBoth(token: Token, a: seq<Token>, b: seq<Token>)
    ensures [token] + (a + b) == ([token] + a) + b
  {
  }

  lemma {:induction false} PageOfBoth(p: Page, a: seq<Token>, b: seq<Token>)
    requires PageFrom(p, a).Some?
    ensures PageFrom(p, a + b) == PageFrom(PageFrom(p, a).value, b)
    decreases |a|
  {
    if a == [] {
      assert a + b == b;
    } else {
      assert (a + b)[1..] == a[1..] + b;
      PageOfBoth(PageStep(p, a[0]).value, a[1..], b);
    }
  }

  lemma ReadOn(p: Page, a: string, middle: Page, b: string, last: Page)
    requires PageOf(p, a) == Some(middle) && PageOf(middle, b) == Some(last)
    ensures PageOf(p, a + b) == Some(last)
  {
    TokensOfBoth(a, b);
    PageOfBoth(p, Tokens(a).value, Tokens(b).value);
  }

  lemma NothingIsRead(html: string)
    requires html == ""
    ensures Tokens(html) == Some([])
  {
  }

  lemma LastToken(html: string, token: Token, rest: string)
    requires html != "" && TokenOf(html) == Some(Parsed(token, |html|)) && rest == html[|html|..]
    requires Tokens(rest) == Some([])
    ensures Tokens(html) == Some([token] + [])
  {
  }

  lemma OneTokenAlone(html: string, token: Token)
    requires html != "" && TokenOf(html) == Some(Parsed(token, |html|))
    ensures Tokens(html) == Some([token])
  {
    var rest := html[|html|..];
    NothingIsRead(rest);
    LastToken(html, token, rest);
    assert [token] + [] == [token];
  }

  lemma OneToken(html: string, token: Token, p: Page)
    requires html != "" && TokenOf(html) == Some(Parsed(token, |html|))
    ensures PageOf(p, html) == PageStep(p, token)
  {
    var tokens := [token];
    OneTokenAlone(html, token);
    assert tokens[1..] == [];
    assert PageFrom(p, tokens) == PageStep(p, token);
  }

  lemma FindAtEnd(s: string, c: char)
    requires s != "" && s[|s| - 1] == c && c !in s[..|s| - 1]
    ensures Find(s, c) == Some(|s| - 1)
  {
    var head := s[..|s| - 1];
    FindAfter(head, c, "");
    assert s == head + [c] + "";
  }

  /** A tag is one token. */
  lemma TagIsOneToken(tag: string)
    requires |tag| > 1 && tag[0] == '<' && tag[|tag| - 1] == '>' && '>' !in tag[..|tag| - 1]
    ensures Tokens(tag) == Some([if tag == "</span>" then Close else Open(tag)])
  {
    FindAtEnd(tag, '>');
    assert tag[..|tag|] == tag;
    OneTokenAlone(tag, if tag == "</span>" then Close else Open(tag));
  }

  lemma TagIsRead(tag: string, p: Page)
    requires |tag| > 1 && tag[0] == '<' && tag[|tag| - 1] == '>' && '>' !in tag[..|tag| - 1]
    ensures PageOf(p, tag) == PageStep(p, if tag == "</span>" then Close else Open(tag))
  {
    var token := if tag == "</span>" then Close else Open(tag);
    TagIsOneToken(tag);
    assert [token][1..] == [];
    assert PageFrom(p, [token]) == PageStep(p, token);
  }

  // ----- The input, as it is read

  /** The pieces of highlighted code as a reader of HTML has them, in some elements. */
  ghost function PiecesIn(fragments: seq<Fragment>, outer: seq<string>): (texts: seq<(string, seq<string>)>)
    ensures |texts| == |fragments|
  {
    seq(|fragments|, i requires 0 <= i < |fragments| => (fragments[i].text, outer + fragments[i].spans))
  }

  lemma PieceInSpans(r: Reading, token: Token, outer: seq<string>, before: seq<(string, seq<string>)>)
    requires token.Piece?
    ensures var next := ReadToken(r, token).value;
            before + PiecesIn(next.fragments, outer)
            == before + PiecesIn(r.fragments, outer) + [(token.text, outer + r.spans)]
  {
    var next := ReadToken(r, token).value;
    assert PiecesIn(next.fragments, outer) == PiecesIn(r.fragments, outer) + [(token.text, outer + r.spans)];
  }

  lemma StepInSpans(r: Reading, token: Token, outer: seq<string>, before: seq<(string, seq<string>)>)
    requires ReadToken(r, token).Some? && OpensSpans([token]) && AreSpanTags(r.spans)
    ensures var next := ReadToken(r, token).value;
            && AreSpanTags(next.spans)
            && PageStep(Page(outer + r.spans, before + PiecesIn(r.fragments, outer)), token)
               == Some(Page(outer + next.spans, before + PiecesIn(next.fragments, outer)))
  {
    var next := ReadToken(r, token).value;
    var open := outer + r.spans;
    match token
    case Open(tag) =>
      assert [token][0] == token;
      assert tag[1] == 's' && "</mark>"[1] == '/';
      assert open + [tag] == outer + next.spans;
    case Close =>
      assert open[|open| - 1] == r.spans[|r.spans| - 1];
      assert open[..|open| - 1] == outer + next.spans;
    case Piece(_, _) => PieceInSpans(r, token, outer, before);
  }

  lemma {:induction false} SpansAreRead(r: Reading, tokens: seq<Token>, outer: seq<string>,
                                        before: seq<(string, seq<string>)>)
    requires ReadFrom(r, tokens).Some? && OpensSpans(tokens) && AreSpanTags(r.spans)
    ensures var last := ReadFrom(r, tokens).value;
            PageFrom(Page(outer + r.spans, before + PiecesIn(r.fragments, outer)), tokens)
            == Some(Page(outer + last.spans, before + PiecesIn(last.fragments, outer)))
    decreases |tokens|
  {
    if tokens != [] {
      assert OpensSpans([tokens[0]]) && OpensSpans(tokens[1..]);
      StepInSpans(r, tokens[0], outer, before);
      SpansAreRead(ReadToken(r, tokens[0]).value, tokens[1..], outer, before);
    }
  }

  ghost function PiecesOf(html: string): seq<Fragment>
    requires IsHighlighted(html)
  {
    Read(Tokens(html).value).value.fragments
  }

  /** Highlighted code is read in some elements as its pieces, and leaves the elements as they were. */
  lemma HighlightedIsRead(html: string, outer: seq<string>, before: seq<(string, seq<string>)>)
    requires IsHighlighted(html)
    ensures PageOf(Page(outer, before), html)
         == Some(Page(outer, before + PiecesIn(PiecesOf(html), outer)))
  {
    var start := Reading([], 0, []);
    SpansAreRead(start, Tokens(html).value, outer, before);
    assert outer + start.spans == outer && PiecesIn(start.fragments, outer) == [] && before + [] == before;
    assert outer + [] == outer;
  }

  // ----- The output

  /** Whether a mark can be written: its class and title end no tag, and its popup is highlighted text. */
  ghost predicate IsClean(mark: Mark) {
    '>' !in mark.class_ && '>' !in mark.title && IsHighlighted(mark.popup)
  }

  ghost predicate AreClean(marks: seq<Mark>) {
    forall k :: 0 <= k < |marks| ==> IsClean(marks[k])
  }

  /** The tag of an element around a piece. */
  ghost function TagOf(element: Element, marks: seq<Mark>): string {
    match element
    case InSpan(tag) => tag
    case InMark(k) => if k < |marks| then ElementOf(marks[k]) else ""
  }

  ghost function ElementOf(mark: Mark): string {
    "<mark class=\"diag " + mark.class_ + "\" title=\"" + mark.title + "\">"
  }

  ghost function TagsOf(open: seq<Element>, marks: seq<Mark>): (tags: seq<string>)
    ensures |tags| == |open|
  {
    seq(|open|, i requires 0 <= i < |open| => TagOf(open[i], marks))
  }

  ghost function TextsOf(shown: seq<Shown>, marks: seq<Mark>): (texts: seq<(string, seq<string>)>)
    ensures |texts| == |shown|
  {
    seq(|shown|, i requires 0 <= i < |shown| => (shown[i].text, TagsOf(shown[i].around, marks)))
  }

  ghost predicate AreInMarks(open: seq<Element>, marks: seq<Mark>) {
    forall i :: 0 <= i < |open| ==>
      match open[i] case InMark(k) => k < |marks| case InSpan(tag) => IsSpanTag(tag)
  }

  ghost predicate IsPiece(text: string) {
    text != "" && TokenOf(text).Some? && TokenOf(text).value.next == |text| && TokenOf(text).value.value.Piece?
  }

  /** Texts in popups, alone. */
  ghost predicate AreInPopups(texts: seq<(string, seq<string>)>) {
    forall i :: 0 <= i < |texts| ==> POPUP in texts[i].1
  }

  lemma {:induction false} PopupsAreLeftOut(texts: seq<(string, seq<string>)>, popups: seq<(string, seq<string>)>)
    requires AreInPopups(popups)
    ensures InCode(texts + popups) == InCode(texts)
    decreases |popups|
  {
    if popups == [] {
      assert texts + popups == texts;
    } else {
      var n := |popups| - 1;
      assert (texts + popups)[..|texts| + n] == texts + popups[..n];
      PopupsAreLeftOut(texts, popups[..n]);
    }
  }

  lemma ElementIsTag(mark: Mark, p: Page)
    requires IsClean(mark)
    ensures "<mark " <= ElementOf(mark) && ElementOf(mark) != POPUP
    ensures PageOf(p, ElementOf(mark)) == Some(p.(open := p.open + [ElementOf(mark)]))
  {
    var tag := ElementOf(mark);
    var head, middle := "<mark class=\"diag ", "\" title=\"";
    var inner := head + mark.class_ + middle + mark.title + "\"";
    assert tag == inner + ">" && tag[..|tag| - 1] == inner;
    assert '>' !in head && '>' !in middle && '>' !in inner;
    assert "<mark " == head[..6] == tag[..6];
    assert tag[1] == 'm' && "</span>"[1] == '/' && "</mark>"[1] == '/' && POPUP[1] == 's';
    TagIsRead(tag, p);
  }

  lemma PopupOpens(p: Page)
    ensures PageOf(p, POPUP) == Some(p.(open := p.open + [POPUP]))
  {
    TagIsRead(POPUP, p);
  }

  lemma SpanEnds(p: Page, open: seq<string>, tag: string)
    requires p.open == open + [tag] && "<span " <= tag
    ensures PageOf(p, "</span>") == Some(p.(open := open))
  {
    TagIsRead("</span>", p);
    assert p.open[..|p.open| - 1] == open;
  }

  /** What opens a mark is read as an element of its class and title, with its popup in a span of its own. */
  lemma MarkIsRead(mark: Mark, p: Page) returns (popups: seq<(string, seq<string>)>)
    requires IsClean(mark)
    ensures PageOf(p, MarkTag(mark)) == Some(Page(p.open + [ElementOf(mark)], p.texts + popups))
    ensures popups == PiecesIn(PiecesOf(mark.popup), p.open + [ElementOf(mark)] + [POPUP])
  {
    var tag := ElementOf(mark);
    var open := p.open + [tag];
    ElementIsTag(mark, p);
    PopupOpens(Page(open, p.texts));
    ReadOn(p, tag, Page(open, p.texts), POPUP, Page(open + [POPUP], p.texts));
    HighlightedIsRead(mark.popup, open + [POPUP], p.texts);
    popups := PiecesIn(PiecesOf(mark.popup), open + [POPUP]);
    var after := Page(open + [POPUP], p.texts + popups);
    ReadOn(p, tag + POPUP, Page(open + [POPUP], p.texts), mark.popup, after);
    SpanEnds(after, open, POPUP);
    ReadOn(p, tag + POPUP + mark.popup, after, "</span>", Page(open, after.texts));
    MarkTagIs(mark);
  }

  lemma MarkTagIs(mark: Mark)
    ensures MarkTag(mark) == ElementOf(mark) + POPUP + mark.popup + "</span>"
  {
    assert "\"><span class=\"diag-popup\">" == "\">" + POPUP;
  }

  // ----- The output, as it is read

  /** Whether a page is what a screen shows, with popups beside. */
  ghost predicate IsPageOf(page: Page, screen: Screen, marks: seq<Mark>) {
    && page.open == TagsOf(screen.open, marks)
    && InCode(page.texts) == TextsOf(screen.shown, marks)
    && AreInMarks(screen.open, marks)
  }

  lemma TagsOfMore(open: seq<Element>, element: Element, marks: seq<Mark>)
    ensures TagsOf(open + [element], marks) == TagsOf(open, marks) + [TagOf(element, marks)]
  {
  }

  lemma TagsOfFewer(open: seq<Element>, marks: seq<Mark>)
    requires open != []
    ensures var n := |open| - 1;
            TagsOf(open, marks) == TagsOf(open[..n], marks) + [TagOf(open[n], marks)]
  {
  }

  /** Nothing that is open is a popup. */
  lemma NoPopupIsOpen(open: seq<Element>, marks: seq<Mark>)
    requires AreInMarks(open, marks) && AreClean(marks)
    ensures POPUP !in TagsOf(open, marks)
  {
    forall i | 0 <= i < |open|
      ensures TagOf(open[i], marks) != POPUP
    {
      if open[i].InMark? {
        ElementIsTag(marks[open[i].mark], Page([], []));
      }
    }
  }

  lemma SpanIsRead(page: Page, before: Screen, event: Event, marks: seq<Mark>)
    requires IsPageOf(page, before, marks) && event.OpenSpan? && IsProper(event, marks)
    ensures ShowEvent(before, event).Some?
    ensures var next := page.(open := page.open + [event.tag]);
            && PageOf(page, RenderEvent(event, marks)) == Some(next)
            && IsPageOf(next, ShowEvent(before, event).value, marks)
  {
    TagsOfMore(before.open, InSpan(event.tag), marks);
    assert event.tag[0] == "<span "[0] && event.tag[1] == "<span "[1] && "</span>"[1] == '/' && "</mark>"[1] == '/';
    TagIsRead(event.tag, page);
  }

  lemma SpanCloseIsRead(page: Page, before: Screen, marks: seq<Mark>) returns (next: Page)
    requires IsPageOf(page, before, marks) && ShowEvent(before, CloseSpan).Some?
    ensures PageOf(page, "</span>") == Some(next) && IsPageOf(next, ShowEvent(before, CloseSpan).value, marks)
  {
    var n := |before.open| - 1;
    TagsOfFewer(before.open, marks);
    next := page.(open := TagsOf(before.open[..n], marks));
    SpanEnds(page, next.open, before.open[n].tag);
  }

  lemma MarkEnds(p: Page, open: seq<string>, tag: string)
    requires p.open == open + [tag] && "<mark " <= tag
    ensures PageOf(p, "</mark>") == Some(p.(open := open))
  {
    TagIsRead("</mark>", p);
    assert p.open[..|p.open| - 1] == open;
  }

  lemma MarkCloseIsRead(page: Page, before: Screen, marks: seq<Mark>) returns (next: Page)
    requires IsPageOf(page, before, marks) && ShowEvent(before, CloseMark).Some? && AreClean(marks)
    ensures PageOf(page, "</mark>") == Some(next) && IsPageOf(next, ShowEvent(before, CloseMark).value, marks)
  {
    var n := |before.open| - 1;
    TagsOfFewer(before.open, marks);
    next := page.(open := TagsOf(before.open[..n], marks));
    ElementIsTag(marks[before.open[n].mark], page);
    MarkEnds(page, next.open, TagOf(before.open[n], marks));
  }

  lemma MarkOpenIsRead(page: Page, before: Screen, m: nat, marks: seq<Mark>) returns (next: Page)
    requires IsPageOf(page, before, marks) && m < |marks| && AreClean(marks)
    ensures PageOf(page, MarkTag(marks[m])) == Some(next)
    ensures IsPageOf(next, Screen(before.open + [InMark(m)], before.shown), marks)
  {
    var popups := MarkIsRead(marks[m], page);
    TagsOfMore(before.open, InMark(m), marks);
    PopupsAreLeftOut(page.texts, popups);
    next := Page(page.open + [ElementOf(marks[m])], page.texts + popups);
  }

  lemma TextIsRead(page: Page, before: Screen, text: string, marks: seq<Mark>) returns (next: Page)
    requires IsPageOf(page, before, marks) && IsPiece(text) && AreClean(marks)
    ensures PageOf(page, text) == Some(next)
    ensures IsPageOf(next, Screen(before.open, before.shown + [Shown(text, before.open)]), marks)
  {
    NoPopupIsOpen(before.open, marks);
    OneToken(text, TokenOf(text).value.value, page);
    assert text[..|text|] == text;
    next := page.(texts := page.texts + [(text, page.open)]);
    assert next.texts[..|page.texts|] == page.texts;
    var shown := before.shown + [Shown(text, before.open)];
    assert TextsOf(shown, marks) == TextsOf(before.shown, marks) + [(text, page.open)];
  }

  lemma EventIsRead(page: Page, before: Screen, event: Event, marks: seq<Mark>) returns (next: Page)
    requires IsPageOf(page, before, marks) && AreClean(marks) && IsProper(event, marks)
    requires ShowEvent(before, event).Some? && (event.Text? ==> IsPiece(event.text))
    ensures PageOf(page, RenderEvent(event, marks)) == Some(next)
    ensures IsPageOf(next, ShowEvent(before, event).value, marks)
  {
    match event
    case OpenSpan(tag) =>
      SpanIsRead(page, before, event, marks);
      next := page.(open := page.open + [tag]);
    case CloseSpan => next := SpanCloseIsRead(page, before, marks);
    case OpenMark(m) => next := MarkOpenIsRead(page, before, m, marks);
    case CloseMark => next := MarkCloseIsRead(page, before, marks);
    case Text(text) => next := TextIsRead(page, before, text, marks);
  }

  lemma {:induction false} EventsAreRead(events: seq<Event>, marks: seq<Mark>, screen: Screen) returns (page: Page)
    requires Shows(events, marks, Render(events, marks), screen) && AreClean(marks)
    requires forall i :: 0 <= i < |screen.shown| ==> IsPiece(screen.shown[i].text)
    ensures PageOf(Page([], []), Render(events, marks)) == Some(page) && IsPageOf(page, screen, marks)
    decreases |events|
  {
    if events == [] {
      page := Page([], []);
      assert Tokens("") == Some([]);
    } else {
      var first, last := events[..|events| - 1], events[|events| - 1];
      var before := Show(first).value;
      assert forall i :: 0 <= i < |first| ==> first[i] == events[i];
      assert forall i :: 0 <= i < |before.shown| ==> before.shown[i] == screen.shown[i];
      var middle := EventsAreRead(first, marks, before);
      assert last.Text? ==> screen.shown[|before.shown|].text == last.text;
      page := EventIsRead(middle, before, last, marks);
      ReadOn(Page([], []), Render(first, marks), middle, RenderEvent(last, marks), page);
    }
  }

  lemma {:induction false} FragmentsArePieces(r: Reading, html: string)
    requires Tokens(html).Some? && ReadFrom(r, Tokens(html).value).Some?
    requires forall i :: 0 <= i < |r.fragments| ==> IsPiece(r.fragments[i].text)
    ensures var last := ReadFrom(r, Tokens(html).value).value;
            forall i :: 0 <= i < |last.fragments| ==> IsPiece(last.fragments[i].text)
    decreases |html|
  {
    if html != "" {
      FirstToken(html, r, ReadFrom(r, Tokens(html).value).value);
      var first := TokenOf(html).value;
      if first.value.Piece? {
        PieceIsPiece(html);
      }
      FragmentsArePieces(ReadToken(r, first.value).value, html[first.next..]);
    }
  }

  lemma PieceIsPiece(html: string)
    requires html != "" && TokenOf(html).Some? && TokenOf(html).value.value.Piece?
    ensures IsPiece(TokenOf(html).value.value.text)
  {
    var text := TokenOf(html).value.value.text;
    if html[0] == '&' {
      assert text[..|text| - 1] == html[..|text| - 1];
      FindAtEnd(text, ';');
    }
    assert text[..|text|] == text;
  }

  /** Whether the texts of a page are those of another one, in order and in their elements, each in the marks that
      cover the last bound met before its piece. */
  ghost predicate AreInTheirMarks(seen: seq<(string, seq<string>)>, texts: seq<(string, seq<string>)>,
                                  fragments: seq<Fragment>, marks: seq<Mark>)
  {
    && |seen| == |texts| == |fragments|
    && forall i :: 0 <= i < |texts| ==>
         && seen[i].0 == texts[i].0
         && seen[i].1 == ElementsOf(marks, LastBound(marks, fragments, i)) + texts[i].1
  }

  lemma ShownAreInTheirMarks(fragments: seq<Fragment>, marks: seq<Mark>)
    ensures AreInTheirMarks(TextsOf(AllShown(fragments, marks), marks), PiecesIn(fragments, []), fragments, marks)
  {
    forall i | 0 <= i < |fragments|
      ensures TextsOf(AllShown(fragments, marks), marks)[i]
           == (PiecesIn(fragments, [])[i].0,
               ElementsOf(marks, LastBound(marks, fragments, i)) + PiecesIn(fragments, [])[i].1)
    {
      ShownIsRead(fragments, marks, i);
      assert [] + fragments[i].spans == fragments[i].spans;
    }
  }

  /** Marked code is read to its end with nothing left open. The popups aside, it is the pieces of the input, in
      their order and in the spans they were in, each in the marks that cover the last bound met before it. */
  lemma MarkedIsRead(html: string, marks: seq<Mark>, out: string) returns (code: Page, marked: Page)
    requires IsHighlighted(html) && IsWoven(html, marks, out) && AreClean(marks)
    ensures PageOf(Page([], []), html) == Some(code) && code.open == []
    ensures PageOf(Page([], []), out) == Some(marked) && marked.open == []
    ensures AreInTheirMarks(InCode(marked.texts), code.texts, PiecesOf(html), marks)
  {
    var fragments := PiecesOf(html);
    var screen := Screen([], AllShown(fragments, marks));
    var events :| Shows(events, marks, out, screen);
    FragmentsArePieces(Reading([], 0, []), html);
    marked := EventsAreRead(events, marks, screen);
    HighlightedIsRead(html, [], []);
    code := Page([], PiecesIn(fragments, []));
    assert [] + PiecesIn(fragments, []) == PiecesIn(fragments, []);
    ShownAreInTheirMarks(fragments, marks);
  }

  lemma ShownIsRead(fragments: seq<Fragment>, marks: seq<Mark>, i: nat)
    requires i < |fragments|
    ensures TextsOf(AllShown(fragments, marks), marks)[i]
         == (fragments[i].text, ElementsOf(marks, LastBound(marks, fragments, i)) + fragments[i].spans)
  {
    AroundIsRead(marks, LastBound(marks, fragments, i), fragments[i].spans);
  }

  /** The elements of the marks that cover the byte at `at`. */
  ghost function ElementsOf(marks: seq<Mark>, at: int): seq<string> {
    var covering := Covering(marks, at);
    seq(|covering|, i requires 0 <= i < |covering| => ElementOf(marks[covering[i]]))
  }

  lemma AroundIsRead(marks: seq<Mark>, at: int, spans: seq<string>)
    ensures TagsOf(Around(Covering(marks, at), spans), marks) == ElementsOf(marks, at) + spans
  {
  }

  // ----- The input, as it is written

  /** The bytes of a character in UTF-8: section 3 of RFC 3629. */
  ghost function Utf8(c: char): seq<nat> {
    var n := c as int;
    if n < 0x80 then [n]
    else if n < 0x800 then [0xC0 + n / 64, 0x80 + n % 64]
    else if n < 0x1_0000 then [0xE0 + n / 4096, 0x80 + n / 64 % 64, 0x80 + n % 64]
    else [0xF0 + n / 0x4_0000, 0x80 + n / 4096 % 64, 0x80 + n / 64 % 64, 0x80 + n % 64]
  }

  ghost function Utf8All(source: string): seq<nat> {
    if source == "" then [] else Utf8All(source[..|source| - 1]) + Utf8(source[|source| - 1])
  }

  /** A character as HTML. */
  ghost function Escaped(c: char): string {
    match c
    case '&' => "&amp;"
    case '<' => "&lt;"
    case '>' => "&gt;"
    case '"' => "&quot;"
    case _ => [c]
  }

  /** Highlighted code: characters of the source, and spans of a class that open and close among them. */
  datatype Bit = Letter(c: char) | Opens(class_: string) | Closes

  ghost function HtmlOf(bits: seq<Bit>): string {
    if bits == [] then "" else HtmlOf(bits[..|bits| - 1]) + BitAsHtml(bits[|bits| - 1])
  }

  ghost function BitAsHtml(bit: Bit): string {
    match bit
    case Letter(c) => Escaped(c)
    case Opens(class_) => "<span class=\"" + class_ + "\">"
    case Closes => "</span>"
  }

  /** The characters of the source. */
  ghost function SourceOf(bits: seq<Bit>): string {
    if bits == [] then ""
    else
      var last := bits[|bits| - 1];
      SourceOf(bits[..|bits| - 1]) + if last.Letter? then [last.c] else ""
  }

  ghost function TokenFor(bit: Bit): Token {
    match bit
    case Letter(c) => Piece(Escaped(c), |Utf8(c)|)
    case Opens(class_) => Open("<span class=\"" + class_ + "\">")
    case Closes => Close
  }

  ghost function TokensFor(bits: seq<Bit>): (tokens: seq<Token>)
    ensures |tokens| == |bits|
  {
    seq(|bits|, i requires 0 <= i < |bits| => TokenFor(bits[i]))
  }

  ghost predicate AreWritable(bits: seq<Bit>) {
    forall i :: 0 <= i < |bits| && bits[i].Opens? ==> '>' !in bits[i].class_
  }

  lemma EntityIsRead(html: string)
    requires |html| > 1 && html[0] == '&' && html[|html| - 1] == ';' && ';' !in html[..|html| - 1]
    ensures Tokens(html) == Some([Piece(html, 1)])
  {
    FindAtEnd(html, ';');
    assert html[..|html|] == html;
    OneTokenAlone(html, Piece(html, 1));
  }

  lemma CharIsRead(c: char)
    requires c != '&' && c != '<'
    ensures Tokens([c]) == Some([Piece([c], |Utf8(c)|)])
  {
    assert [c][..1] == [c];
    OneTokenAlone([c], Piece([c], |Utf8(c)|));
  }

  lemma LetterIsRead(c: char)
    ensures Tokens(Escaped(c)) == Some([TokenFor(Letter(c))])
  {
    if c == '&' || c == '<' || c == '>' || c == '"' {
      EntityIsRead(Escaped(c));
    } else {
      CharIsRead(c);
    }
  }

  lemma BitIsRead(bit: Bit)
    requires bit.Opens? ==> '>' !in bit.class_
    ensures Tokens(BitAsHtml(bit)) == Some([TokenFor(bit)])
  {
    match bit
    case Letter(c) => LetterIsRead(c);
    case Opens(class_) =>
      var inner := "<span class=\"" + class_ + "\"";
      var tag := BitAsHtml(bit);
      assert tag == inner + ">" && tag[..|tag| - 1] == inner && tag[1] == 's' && "</span>"[1] == '/';
      TagIsOneToken(tag);
    case Closes => TagIsOneToken("</span>");
  }

  lemma TokensForMore(bits: seq<Bit>)
    requires bits != []
    ensures TokensFor(bits) == TokensFor(bits[..|bits| - 1]) + [TokenFor(bits[|bits| - 1])]
  {
  }

  /** Highlighted code is read as what was written: each character with the bytes it takes in the source. */
  lemma {:induction false} HtmlIsRead(bits: seq<Bit>)
    requires AreWritable(bits)
    ensures Tokens(HtmlOf(bits)) == Some(TokensFor(bits))
    decreases |bits|
  {
    if bits == [] {
      assert Tokens("") == Some([]);
    } else {
      var first, last := bits[..|bits| - 1], bits[|bits| - 1];
      HtmlIsRead(first);
      BitIsRead(last);
      TokensAre(HtmlOf(first), BitAsHtml(last), TokensFor(first), [TokenFor(last)]);
      TokensForMore(bits);
    }
  }

  lemma {:induction false} ReadOneMore(r: Reading, tokens: seq<Token>, last: Token)
    requires ReadFrom(r, tokens + [last]).Some?
    ensures ReadFrom(r, tokens).Some? && ReadFrom(r, tokens + [last]) == ReadToken(ReadFrom(r, tokens).value, last)
    decreases |tokens|
  {
    var all := tokens + [last];
    if tokens == [] {
      assert all[0] == last && all[1..] == [];
    } else {
      assert all[0] == tokens[0] && all[1..] == tokens[1..] + [last];
      ReadOneMore(ReadToken(r, tokens[0]).value, tokens[1..], last);
    }
  }

  /** Whether some pieces are the characters of a source, each where its bytes are. */
  ghost predicate AreLettersOf(fragments: seq<Fragment>, source: string) {
    && |fragments| == |source|
    && forall i :: 0 <= i < |source| ==>
         && fragments[i].text == Escaped(source[i])
         && fragments[i].offset == |Utf8All(source[..i])| && fragments[i].width == |Utf8(source[i])|
  }

  lemma OneMoreLetter(fragments: seq<Fragment>, source: string, c: char, spans: seq<string>)
    requires AreLettersOf(fragments, source)
    ensures AreLettersOf(fragments + [Fragment(Escaped(c), |Utf8All(source)|, |Utf8(c)|, spans)], source + [c])
  {
    var more := source + [c];
    assert more[..|source|] == source;
    assert forall i :: 0 <= i < |source| ==> more[..i] == source[..i];
  }

  /** The pieces are the characters of the source, each where UTF-8 has it. */
  lemma {:induction false} LettersAreRead(bits: seq<Bit>)
    requires AreWritable(bits) && Read(TokensFor(bits)).Some?
    ensures AreLettersOf(Read(TokensFor(bits)).value.fragments, SourceOf(bits))
    ensures Read(TokensFor(bits)).value.offset == |Utf8All(SourceOf(bits))|
    decreases |bits|
  {
    if bits != [] {
      var first, last := bits[..|bits| - 1], bits[|bits| - 1];
      TokensForMore(bits);
      ReadOneMore(Reading([], 0, []), TokensFor(first), TokenFor(last));
      LettersAreRead(first);
      var r := Read(TokensFor(first)).value;
      if last.Letter? {
        OneMoreLetter(r.fragments, SourceOf(first), last.c, r.spans);
        var source := SourceOf(bits);
        assert source[..|source| - 1] == SourceOf(first);
      } else {
        assert SourceOf(first) + "" == SourceOf(first);
      }
    }
  }
}
