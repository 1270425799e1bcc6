/** The link scan of the tournament scout robot (`run_scout`). The browser
    session is replaced by what it observed: the page either failed to load,
    or it yielded the page's anchors in document order, each one either read
    successfully (its `href` attribute and its visible text) or not. */
module Scout {
  import opened Wrappers
  import opened PyStr

  /** The fixed search page the robot opens: local tournaments, all results. */
  const TargetUrl: string :=
    "https://pickleballtournaments.com/search?show_all=true&zoom_level=7&current_page=1&tournament_filter=local"

  /** A link is kept only if its URL contains this path fragment. */
  const DetailMarker: string := "tournament/detail"

  /** A link is kept only if its stripped text is longer than this. */
  const MinTextLength: nat := 3

  /** Placeholders the scan puts in every record's date and location. */
  const DateHint: string := "Check Link"
  const LocationHint: string := "Local Search"

  /** One `<a>` element as the scan sees it: `Read` when both the `href`
      attribute (possibly absent) and the visible text were read, `Unreadable`
      when reading either of them raised. */
  datatype Anchor = Read(href: Option<string>, text: string) | Unreadable

  /** One returned tournament. */
  datatype Tournament = Tournament(name: string, link: string, date: string, location: string)

  /** What navigating to the search page and listing its anchors produced. */
  datatype Page = Loaded(anchors: seq<Anchor>) | LoadFailed

  /** Python truthiness of the `href` value: neither `None` nor `""`. */
  predicate HasHref(href: Option<string>) {
    href.Some? && href.value != ""
  }

  /** The URL filter: a present `href` containing the detail marker. */
  predicate IsDetailLink(href: Option<string>) {
    HasHref(href) && Contains(href.value, DetailMarker)
  }

  /** An anchor that passes both filters (URL marker and text length). */
  predicate Qualifies(a: Anchor) {
    a.Read? && IsDetailLink(a.href) && |Strip(a.text)| > MinTextLength
  }

  /** The properties every returned record has, whatever the page held. */
  predicate WellFormed(t: Tournament) {
    Contains(t.link, DetailMarker)
    && t.name != [] && '\n' !in t.name
    && t.date == DateHint && t.location == LocationHint
  }

  /** The record a qualifying anchor produces: the first line of its stripped
      text as the name, its `href` as the link, and the two placeholders. It
      is well formed: the name is non-empty because the stripped text is
      longer than three characters and does not start with whitespace, so it
      does not start with a line feed. */
  function RecordOf(a: Anchor): (t: Tournament)
    requires Qualifies(a)
    ensures WellFormed(t)
  {
    FirstLineNonEmpty(Strip(a.text));
    Tournament(FirstLine(Strip(a.text)), a.href.value, DateHint, LocationHint)
  }

  /** What one anchor contributes before the duplicate test: its record when
      it passes both filters, nothing otherwise. */
  function Candidate(a: Anchor): (c: Option<Tournament>)
    ensures c.Some? ==> a.Read? && a.href.Some? && c.value.link == a.href.value && WellFormed(c.value)
  {
    if Qualifies(a) then Some(RecordOf(a)) else None
  }

  function Candidates(anchors: seq<Anchor>): (cs: seq<Option<Tournament>>)
    ensures |cs| == |anchors|
    ensures forall i :: 0 <= i < |anchors| ==> cs[i] == Candidate(anchors[i])
  {
    seq(|anchors|, i requires 0 <= i < |anchors| => Candidate(anchors[i]))
  }

  /** The links of the records found so far, in order. */
  function Links(found: seq<Tournament>): seq<string> {
    seq(|found|, k requires 0 <= k < |found| => found[k].link)
  }

  predicate UniqueLinks(found: seq<Tournament>) {
    forall i, j :: 0 <= i < j < |found| ==> found[i].link != found[j].link
  }

  /** One iteration of the loop: append the candidate record unless a record
      with its link has been found already. */
  function Step(found: seq<Tournament>, c: Option<Tournament>): (r: seq<Tournament>)
    ensures found <= r && |r| <= |found| + 1
  {
    if c.Some? && c.value.link !in Links(found) then found + [c.value] else found
  }

  /** The loop run over a sequence of candidates: first occurrence of each
      link wins. At most one record per candidate. */
  function Collect(cs: seq<Option<Tournament>>): (found: seq<Tournament>)
    ensures |found| <= |cs|
  {
    if cs == [] then [] else Step(Collect(cs[..|cs| - 1]), cs[|cs| - 1])
  }

  /** The records the scan returns for the anchors of a loaded page. */
  function Scan(anchors: seq<Anchor>): (found: seq<Tournament>)
    ensures |found| <= |anchors|
  {
    Collect(Candidates(anchors))
  }

  /** Scanning one more anchor is one more loop iteration. */
  lemma ScanSnoc(anchors: seq<Anchor>, a: Anchor)
    ensures Scan(anchors + [a]) == Step(Scan(anchors), Candidate(a))
  {
    var cs := Candidates(anchors + [a]);
    assert cs[..|anchors|] == Candidates(anchors);
  }

  /** The whole robot run once the browser exists: a page that failed to
      load or list its anchors gives the empty list, otherwise the scan. */
  function RunScout(page: Page): (r: seq<Tournament>)
    ensures page.LoadFailed? ==> r == []
    ensures page.Loaded? ==> |r| <= |page.anchors|
  {
    match page
    case LoadFailed => []
    case Loaded(anchors) => Scan(anchors)
  }

  /** The duplicate test `any(t['link'] == href for t in found)`. */
  method AlreadyFound(found: seq<Tournament>, href: string) returns (b: bool)
    ensures b <==> href in Links(found)
  {
    b := false;
    var k := 0;
    while k < |found|
      invariant 0 <= k <= |found|
      invariant b <==> exists m :: 0 <= m < k && found[m].link == href
    {
      if found[k].link == href {
        b := true;
      }
      k := k + 1;
    }
    assert forall m :: 0 <= m < |found| ==> Links(found)[m] == found[m].link;
  }

  /** The `for` loop over the page's anchors, with its nested filters. */
  method ScanLoop(anchors: seq<Anchor>) returns (found: seq<Tournament>)
    ensures found == Scan(anchors)
  {
    found := [];
    var i := 0;
    assert anchors[..i] == [];
    while i < |anchors|
      invariant 0 <= i <= |anchors|
      invariant found == Scan(anchors[..i])
    {
      ghost var next := Step(found, Candidate(anchors[i]));
      assert Scan(anchors[..i + 1]) == next by {
        assert anchors[..i + 1] == anchors[..i] + [anchors[i]];
        ScanSnoc(anchors[..i], anchors[i]);
      }
      match anchors[i] {
        case Unreadable =>
        case Read(href, rawText) =>
          var text := Strip(rawText);
          if HasHref(href) && Contains(href.value, DetailMarker) {
            if |text| > MinTextLength {
              var duplicate := AlreadyFound(found, href.value);
              if !duplicate {
                var name := FirstLine(text);
                found := found + [Tournament(name, href.value, DateHint, LocationHint)];
              }
            }
          }
      }
      assert found == next;
      i := i + 1;
    }
    assert anchors[..i] == anchors;
  }
}
