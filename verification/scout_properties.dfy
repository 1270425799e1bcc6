/** What the scan promises about the page's anchors: the returned links are
    exactly the links of the anchors passing both filters, each once, with
    the record of the first such anchor, in page order; anchors that fail a
    filter or cannot be read change nothing; an empty result means no anchor
    qualified (there is no placeholder record). */
module ScoutProperties {
  import opened Wrappers
  import opened PyStr
  import opened Scout
  import opened CollectProperties

  /** Anchor `i` passes both filters and no earlier anchor passes them with
      the same link. */
  predicate IsFirstAnchor(anchors: seq<Anchor>, i: int) {
    0 <= i < |anchors| && Qualifies(anchors[i])
    && forall j :: 0 <= j < i && Qualifies(anchors[j]) ==> anchors[j].href.value != anchors[i].href.value
  }

  /** Being first among the anchors is being first among their candidates. */
  lemma FirstAnchorIff(anchors: seq<Anchor>, i: int)
    requires 0 <= i < |anchors|
    ensures IsFirstAnchor(anchors, i) <==> IsFirst(Candidates(anchors), i)
  {
    var cs := Candidates(anchors);
    if Qualifies(anchors[i]) {
      SeenLinksIff(cs, i, anchors[i].href.value);
    }
  }

  /** No two returned records share a link, and every record is well formed:
      its link contains the detail marker, its name is a non-empty single
      line, and it carries the two placeholders. */
  lemma ScanInvariant(anchors: seq<Anchor>)
    ensures UniqueLinks(Scan(anchors))
    ensures forall k :: 0 <= k < |Scan(anchors)| ==> WellFormed(Scan(anchors)[k])
  {
    var cs := Candidates(anchors);
    CollectUnique(cs);
    forall k | 0 <= k < |Scan(anchors)|
      ensures WellFormed(Scan(anchors)[k])
    {
      CollectSound(cs, k);
      var i :| IsFirst(cs, i) && Collect(cs)[k] == cs[i].value;
    }
  }

  /** Soundness: every returned record is the record of an anchor that passed
      both filters and is the first anchor on the page with that link. */
  lemma ScanSound(anchors: seq<Anchor>, k: nat)
    requires k < |Scan(anchors)|
    ensures exists i :: IsFirstAnchor(anchors, i) && Scan(anchors)[k] == RecordOf(anchors[i])
  {
    var cs := Candidates(anchors);
    CollectSound(cs, k);
    var i :| IsFirst(cs, i) && Collect(cs)[k] == cs[i].value;
    FirstAnchorIff(anchors, i);
  }

  /** The returned links are exactly the links of the anchors that pass both
      filters: none is missing (completeness) and none is invented. */
  lemma ScanLinksIff(anchors: seq<Anchor>, h: string)
    ensures h in Links(Scan(anchors)) <==>
              exists j :: 0 <= j < |anchors| && Qualifies(anchors[j]) && anchors[j].href.value == h
  {
    var cs := Candidates(anchors);
    CollectLinksIff(cs, h);
    if exists j :: 0 <= j < |anchors| && Qualifies(anchors[j]) && anchors[j].href.value == h {
      var j :| 0 <= j < |anchors| && Qualifies(anchors[j]) && anchors[j].href.value == h;
      assert cs[j].Some? && cs[j].value.link == h;
    }
  }

  /** First occurrence wins: the record returned for a link is the one built
      from the first anchor that passed both filters with that link, whatever
      later anchors with the same link say. */
  lemma FirstOccurrenceWins(anchors: seq<Anchor>, i: nat, k: nat)
    requires IsFirstAnchor(anchors, i)
    requires k < |Scan(anchors)| && Scan(anchors)[k].link == anchors[i].href.value
    ensures Scan(anchors)[k] == RecordOf(anchors[i])
    ensures Scan(anchors)[k].name == FirstLine(Strip(anchors[i].text))
  {
    var cs := Candidates(anchors);
    FirstAnchorIff(anchors, i);
    var k' := FirstCollectedAt(cs, i);
    CollectUnique(cs);
    assert Scan(anchors)[k'].link == Scan(anchors)[k].link;
  }

  /** Order: the records appear in the page order of the first anchors they
      come from. */
  lemma ScanOrder(anchors: seq<Anchor>, k1: nat, k2: nat)
    requires k1 < k2 < |Scan(anchors)|
    ensures exists i1, i2 :: i1 < i2 && IsFirstAnchor(anchors, i1) && IsFirstAnchor(anchors, i2)
              && Scan(anchors)[k1] == RecordOf(anchors[i1]) && Scan(anchors)[k2] == RecordOf(anchors[i2])
  {
    var cs := Candidates(anchors);
    ScanSound(anchors, k1);
    ScanSound(anchors, k2);
    var i1 :| IsFirstAnchor(anchors, i1) && Scan(anchors)[k1] == RecordOf(anchors[i1]);
    var i2 :| IsFirstAnchor(anchors, i2) && Scan(anchors)[k2] == RecordOf(anchors[i2]);
    CollectUnique(cs);
    assert i1 != i2;
    if i2 < i1 {
      FirstAnchorIff(anchors, i1);
      FirstAnchorIff(anchors, i2);
      var p1 := FirstCollectedAt(cs, i1);
      var p2 := FirstCollectedAt(cs, i2);
      assert Scan(anchors)[p1].link == Scan(anchors)[k1].link;
      assert Scan(anchors)[p2].link == Scan(anchors)[k2].link;
      CollectOrder(cs, i2, i1);
      assert false;
    }
  }

  lemma CandidatesAppend(xs: seq<Anchor>, ys: seq<Anchor>)
    ensures Candidates(xs + ys) == Candidates(xs) + Candidates(ys)
  {
    var l := Candidates(xs + ys);
    var r := Candidates(xs) + Candidates(ys);
    assert |l| == |r|;
    forall i | 0 <= i < |l| ensures l[i] == r[i] {
      if i < |xs| { assert (xs + ys)[i] == xs[i]; } else { assert (xs + ys)[i] == ys[i - |xs|]; }
    }
  }

  /** Records found are never revised: scanning more anchors only appends. */
  lemma ScanExtends(anchors: seq<Anchor>, more: seq<Anchor>)
    ensures Scan(anchors) <= Scan(anchors + more)
  {
    CandidatesAppend(anchors, more);
    CollectExtends(Candidates(anchors), Candidates(more));
  }

  /** An anchor that fails a filter, or could not be read at all, has no
      effect on the records produced from the other anchors. */
  lemma NonQualifyingIgnored(before: seq<Anchor>, a: Anchor, after: seq<Anchor>)
    requires !Qualifies(a)
    ensures Scan(before + [a] + after) == Scan(before + after)
  {
    CandidatesAppend(before + [a], after);
    CandidatesAppend(before, [a]);
    CandidatesAppend(before, after);
    assert Candidates([a]) == [None];
    NoneIgnored(Candidates(before), Candidates(after));
  }

  /** Whole-run guarantees: a page that failed to load gives no records; a
      loaded page gives at most one record per anchor, with distinct links,
      each well formed. */
  lemma RunScoutInvariant(page: Page)
    ensures page.LoadFailed? ==> RunScout(page) == []
    ensures page.Loaded? ==> |RunScout(page)| <= |page.anchors|
    ensures UniqueLinks(RunScout(page))
    ensures forall k :: 0 <= k < |RunScout(page)| ==> WellFormed(RunScout(page)[k])
  {
    if page.Loaded? {
      ScanInvariant(page.anchors);
    }
  }

  /** There is no placeholder record: the run returns nothing exactly when the
      page failed to load or none of its anchors passes both filters. */
  lemma RunScoutEmptyIff(page: Page)
    ensures RunScout(page) == [] <==>
              page.LoadFailed? || forall j :: 0 <= j < |page.anchors| ==> !Qualifies(page.anchors[j])
  {
    if page.Loaded? {
      var anchors := page.anchors;
      if exists j :: 0 <= j < |anchors| && Qualifies(anchors[j]) {
        var j :| 0 <= j < |anchors| && Qualifies(anchors[j]);
        ScanLinksIff(anchors, anchors[j].href.value);
      } else if Scan(anchors) != [] {
        ScanSound(anchors, 0);
      }
    }
  }
}
