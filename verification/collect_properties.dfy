/** The first-seen collection behind the scan, studied on its own: given
    each anchor's candidate record (or none), `Collect` keeps one record per
    link, the first, in order. Compared here with a reference definition that
    decides from the candidates alone, never from the records built so far. */
module CollectProperties {
  import opened Wrappers
  import opened Scout

  /** The links of the candidates among the first `k`. */
  function SeenLinks(cs: seq<Option<Tournament>>, k: nat): set<string>
    requires k <= |cs|
  {
    if k == 0 then {}
    else SeenLinks(cs, k - 1) + (if cs[k - 1].Some? then {cs[k - 1].value.link} else {})
  }

  /** Candidate `i` exists and no earlier candidate has its link. */
  predicate IsFirst(cs: seq<Option<Tournament>>, i: int) {
    0 <= i < |cs| && cs[i].Some? && cs[i].value.link !in SeenLinks(cs, i)
  }

  /** The reference result for the first `k` candidates: every candidate that
      is first for its link, in order. */
  function Reference(cs: seq<Option<Tournament>>, k: nat): seq<Tournament>
    requires k <= |cs|
  {
    if k == 0 then []
    else Reference(cs, k - 1) + (if IsFirst(cs, k - 1) then [cs[k - 1].value] else [])
  }

  /** A link has been seen exactly when some earlier candidate carries it. */
  lemma {:induction false} SeenLinksIff(cs: seq<Option<Tournament>>, k: nat, h: string)
    requires k <= |cs|
    ensures h in SeenLinks(cs, k) <==> exists j :: 0 <= j < k && cs[j].Some? && cs[j].value.link == h
  {
    if k > 0 {
      SeenLinksIff(cs, k - 1, h);
      if cs[k - 1].Some? && cs[k - 1].value.link == h {
        assert 0 <= k - 1 < k && cs[k - 1].Some? && cs[k - 1].value.link == h;
      }
    }
  }

  lemma LinksSnoc(found: seq<Tournament>, t: Tournament)
    ensures Links(found + [t]) == Links(found) + [t.link]
  {
  }

  /** The reference result carries exactly the links seen. */
  lemma {:induction false} ReferenceLinks(cs: seq<Option<Tournament>>, k: nat, h: string)
    requires k <= |cs|
    ensures h in Links(Reference(cs, k)) <==> h in SeenLinks(cs, k)
  {
    if k > 0 {
      ReferenceLinks(cs, k - 1, h);
      var r := Reference(cs, k - 1);
      if IsFirst(cs, k - 1) {
        var t := cs[k - 1].value;
        LinksSnoc(r, t);
        assert Reference(cs, k) == r + [t];
        assert SeenLinks(cs, k) == SeenLinks(cs, k - 1) + {t.link};
        assert h in Links(r) + [t.link] <==> h in Links(r) || h == t.link;
      } else {
        assert Reference(cs, k) == r;
        assert SeenLinks(cs, k) == SeenLinks(cs, k - 1);
      }
    }
  }

  /** Collecting the first `k` candidates gives the reference result: testing
      a link against the records found so far is the same as asking whether an
      earlier candidate had it. */
  lemma {:induction false} CollectIsReference(cs: seq<Option<Tournament>>, k: nat)
    requires k <= |cs|
    ensures Collect(cs[..k]) == Reference(cs, k)
  {
    if k == 0 {
      assert cs[..k] == [];
    } else {
      CollectIsReference(cs, k - 1);
      assert cs[..k][..k - 1] == cs[..k - 1];
      if cs[k - 1].Some? {
        ReferenceLinks(cs, k - 1, cs[k - 1].value.link);
      }
    }
  }

  lemma CollectMatchesReference(cs: seq<Option<Tournament>>)
    ensures Collect(cs) == Reference(cs, |cs|)
  {
    CollectIsReference(cs, |cs|);
    assert cs[..|cs|] == cs;
  }

  /** Looking at more candidates only appends to the reference result. */
  lemma {:induction false} ReferenceExtends(cs: seq<Option<Tournament>>, k: nat, k': nat)
    requires k <= k' <= |cs|
    ensures Reference(cs, k) <= Reference(cs, k')
    decreases k' - k
  {
    if k < k' {
      ReferenceExtends(cs, k, k' - 1);
    }
  }

  /** Every record of the reference result is a first candidate. */
  lemma {:induction false} ReferenceSound(cs: seq<Option<Tournament>>, k: nat, m: nat)
    requires k <= |cs| && m < |Reference(cs, k)|
    ensures exists i :: 0 <= i < k && IsFirst(cs, i) && Reference(cs, k)[m] == cs[i].value
  {
    if m < |Reference(cs, k - 1)| {
      ReferenceSound(cs, k - 1, m);
      var i :| 0 <= i < k - 1 && IsFirst(cs, i) && Reference(cs, k - 1)[m] == cs[i].value;
      assert Reference(cs, k)[m] == cs[i].value;
    } else {
      assert Reference(cs, k)[m] == cs[k - 1].value;
    }
  }

  /** Every collected record is a first candidate. */
  lemma CollectSound(cs: seq<Option<Tournament>>, m: nat)
    requires m < |Collect(cs)|
    ensures exists i :: IsFirst(cs, i) && Collect(cs)[m] == cs[i].value
  {
    CollectMatchesReference(cs);
    ReferenceSound(cs, |cs|, m);
  }

  /** The collected links are exactly the links of the candidates. */
  lemma CollectLinksIff(cs: seq<Option<Tournament>>, h: string)
    ensures h in Links(Collect(cs)) <==> exists j :: 0 <= j < |cs| && cs[j].Some? && cs[j].value.link == h
  {
    CollectMatchesReference(cs);
    SeenLinksIff(cs, |cs|, h);
    ReferenceLinks(cs, |cs|, h);
  }

  /** A first candidate's record is collected, at the position given by the
      number of first candidates before it. */
  lemma FirstCollectedAt(cs: seq<Option<Tournament>>, i: nat) returns (k: nat)
    requires IsFirst(cs, i)
    ensures k == |Reference(cs, i)|
    ensures k < |Collect(cs)| && Collect(cs)[k] == cs[i].value
  {
    k := |Reference(cs, i)|;
    ReferenceExtends(cs, i + 1, |cs|);
    CollectMatchesReference(cs);
  }

  /** Links of collected records are pairwise distinct. */
  lemma {:induction false} CollectUnique(cs: seq<Option<Tournament>>)
    ensures UniqueLinks(Collect(cs))
  {
    if cs != [] {
      var before := Collect(cs[..|cs| - 1]);
      var c := cs[|cs| - 1];
      CollectUnique(cs[..|cs| - 1]);
      if c.Some? && c.value.link !in Links(before) {
        var found := before + [c.value];
        forall i, j | 0 <= i < j < |found|
          ensures found[i].link != found[j].link
        {
          if j == |before| {
            assert Links(before)[i] == before[i].link;
          }
        }
      }
    }
  }

  /** Of two first candidates, the earlier one's record is collected first. */
  lemma CollectOrder(cs: seq<Option<Tournament>>, i1: nat, i2: nat)
    requires IsFirst(cs, i1) && IsFirst(cs, i2) && i1 < i2
    ensures |Reference(cs, i1)| < |Reference(cs, i2)|
  {
    ReferenceExtends(cs, i1 + 1, i2);
  }

  /** Records collected are never revised: more candidates only append. */
  lemma {:induction false} CollectExtends(cs: seq<Option<Tournament>>, more: seq<Option<Tournament>>)
    ensures Collect(cs) <= Collect(cs + more)
    decreases |more|
  {
    if more == [] {
      assert cs + more == cs;
    } else {
      var more' := more[..|more| - 1];
      CollectExtends(cs, more');
      assert (cs + more)[..|cs + more| - 1] == cs + more';
    }
  }

  /** A missing candidate has no effect on the records the others produce. */
  lemma {:induction false} NoneIgnored(before: seq<Option<Tournament>>, after: seq<Option<Tournament>>)
    ensures Collect(before + [None] + after) == Collect(before + after)
    decreases |after|
  {
    if after == [] {
      assert before + [None] + after == before + [None];
      assert (before + [None])[..|before|] == before;
      assert before + after == before;
    } else {
      var after' := after[..|after| - 1];
      NoneIgnored(before, after');
      assert (before + [None] + after)[..|before| + |after|] == before + [None] + after';
      assert (before + after)[..|before| + |after| - 1] == before + after';
    }
  }
}
