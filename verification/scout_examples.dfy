/** Concrete pages run through the model. */
module ScoutExamples {
  import opened Wrappers
  import opened PyStr
  import opened Scout

  const Site: string := "https://pickleballtournaments.com/"
  const DetailUrl: string := Site + DetailMarker + "?id=1"
  const LoginUrl: string := Site + "login"

  /** A string without line feeds and without whitespace at either end is
      its own stripped text and its own first line. */
  lemma PlainText(s: string)
    requires s != [] && !IsSpace(s[0]) && !IsSpace(s[|s| - 1]) && '\n' !in s
    ensures Strip(s) == s
    ensures FirstLine(Strip(s)) == s
  {
    assert IsStripOf(s, 0, |s|, s) by {
      assert s[..0] == [] && s[|s|..] == [];
    }
    StripUnique(s, 0, |s|, s);
    FirstLineUnique(s, s);
  }

  /** The detail page's URL passes the URL filter. */
  lemma DetailUrlIsDetailLink()
    ensures IsDetailLink(Some(DetailUrl))
  {
    assert DetailUrl[|Site|..|Site| + |DetailMarker|] == DetailMarker;
    assert OccursAt(DetailUrl, DetailMarker, |Site|);
    ContainsIff(DetailUrl, DetailMarker);
  }

  /** The login URL fails it: it has no `d`, which the marker has. */
  lemma LoginUrlIsNotDetailLink()
    ensures !IsDetailLink(Some(LoginUrl))
  {
    assert 'd' !in LoginUrl;
    forall i | 0 <= i
      ensures !OccursAt(LoginUrl, DetailMarker, i)
    {
      if i + |DetailMarker| <= |LoginUrl| {
        assert LoginUrl[i..i + |DetailMarker|][11] == LoginUrl[i + 11];
      }
    }
    ContainsIff(LoginUrl, DetailMarker);
  }

  /** A detail link whose text is plain and longer than three characters
      yields a record named by that whole text. */
  lemma PlainAnchorCandidate(url: string, text: string)
    requires IsDetailLink(Some(url))
    requires |text| > MinTextLength && !IsSpace(text[0]) && !IsSpace(text[|text| - 1]) && '\n' !in text
    ensures Candidate(Read(Some(url), text)) == Some(Tournament(text, url, DateHint, LocationHint))
  {
    PlainText(text);
  }

  /** Two anchors to the same detail page: the second is dropped as a
      duplicate whatever its text. */
  lemma DuplicateDropped(url: string, text: string, mirrorText: string)
    requires IsDetailLink(Some(url))
    requires |text| > MinTextLength && !IsSpace(text[0]) && !IsSpace(text[|text| - 1]) && '\n' !in text
    ensures Scan([Read(Some(url), text), Read(Some(url), mirrorText)])
            == [Tournament(text, url, DateHint, LocationHint)]
  {
    var first := Read(Some(url), text);
    var mirror := Read(Some(url), mirrorText);
    var record := Tournament(text, url, DateHint, LocationHint);
    assert Scan([first]) == [record] by {
      PlainAnchorCandidate(url, text);
      ScanSnoc([], first);
      assert [first] == [] + [first];
    }
    ScanSnoc([first], mirror);
    assert [first, mirror] == [first] + [mirror];
    assert Links([record])[0] == url;
  }

  /** Two anchors to the same detail page followed by an anchor that fails a
      filter: one record, named after the first anchor's text; the second
      anchor is dropped as a duplicate whatever its text. */
  lemma DuplicateAndRejected(url: string, text: string, mirrorText: string, other: Anchor)
    requires IsDetailLink(Some(url))
    requires |text| > MinTextLength && !IsSpace(text[0]) && !IsSpace(text[|text| - 1]) && '\n' !in text
    requires !Qualifies(other)
    ensures Scan([Read(Some(url), text), Read(Some(url), mirrorText), other])
            == [Tournament(text, url, DateHint, LocationHint)]
  {
    var first := Read(Some(url), text);
    var mirror := Read(Some(url), mirrorText);
    DuplicateDropped(url, text, mirrorText);
    ScanSnoc([first, mirror], other);
    assert [first, mirror, other] == [first, mirror] + [other];
  }

  /** The same on a concrete page: two anchors to the same tournament and
      one to the login page give the single record "Spring Open". */
  lemma DuplicateAndLoginPage()
    ensures Scan([
              Read(Some(DetailUrl), "Spring Open"),
              Read(Some(DetailUrl), "Spring Open (mirror)"),
              Read(Some(LoginUrl), "Log In")])
            == [Tournament("Spring Open", DetailUrl, DateHint, LocationHint)]
  {
    DetailUrlIsDetailLink();
    LoginUrlIsNotDetailLink();
    DuplicateAndRejected(DetailUrl, "Spring Open", "Spring Open (mirror)", Read(Some(LoginUrl), "Log In"));
  }

  /** A detail link whose stripped text is three characters or fewer is
      dropped, however much whitespace pads it. */
  lemma ShortTextDropped(text: string)
    requires |Strip(text)| <= MinTextLength
    ensures Scan([Read(Some(DetailUrl), text)]) == []
  {
    ScanSnoc([], Read(Some(DetailUrl), text));
    assert [Read(Some(DetailUrl), text)] == [] + [Read(Some(DetailUrl), text)];
  }

  /** An anchor without an `href` produces nothing, whatever its text. */
  lemma MissingHrefDropped(text: string)
    ensures Scan([Read(None, text)]) == []
  {
    ScanSnoc([], Read(None, text));
    assert [Read(None, text)] == [] + [Read(None, text)];
  }
}
