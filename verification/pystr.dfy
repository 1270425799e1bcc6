/** The three Python `str` operations the scout relies on: `strip()`,
    `split('\n')[0]` and the `in` substring test. Strings are sequences of
    Unicode scalar values: Python's `str` is a sequence of code points, which
    may also include lone surrogates (U+D800 to U+DFFF), and those cannot be
    written as a `char`. */
module PyStr {

  /** The characters for which Python's `str.isspace()` holds, and hence the
      ones `str.strip()` with no argument removes. */
  const Whitespace: set<char> := {
    '\t', '\n', '\U{000B}', '\U{000C}', '\r',
    '\U{001C}', '\U{001D}', '\U{001E}', '\U{001F}', ' ',
    '\U{0085}', '\U{00A0}', '\U{1680}',
    '\U{2000}', '\U{2001}', '\U{2002}', '\U{2003}', '\U{2004}', '\U{2005}',
    '\U{2006}', '\U{2007}', '\U{2008}', '\U{2009}', '\U{200A}',
    '\U{2028}', '\U{2029}', '\U{202F}', '\U{205F}', '\U{3000}'
  }

  predicate IsSpace(c: char) {
    c in Whitespace
  }

  ghost predicate AllSpace(t: string) {
    forall k :: 0 <= k < |t| ==> IsSpace(t[k])
  }

  /** Drops leading whitespace: the result is a suffix of `s`, everything
      dropped is whitespace, and the result does not start with whitespace. */
  function TrimStart(s: string): (r: string)
    ensures |r| <= |s| && r == s[|s| - |r|..]
    ensures forall k :: 0 <= k < |s| - |r| ==> IsSpace(s[k])
    ensures r == [] || !IsSpace(r[0])
  {
    if |s| > 0 && IsSpace(s[0]) then TrimStart(s[1..]) else s
  }

  /** Drops trailing whitespace: the result is a prefix of `s`, everything
      dropped is whitespace, and the result does not end with whitespace. */
  function TrimEnd(s: string): (r: string)
    ensures |r| <= |s| && r == s[..|r|]
    ensures forall k :: |r| <= k < |s| ==> IsSpace(s[k])
    ensures r == [] || !IsSpace(r[|r| - 1])
  {
    if |s| > 0 && IsSpace(s[|s| - 1]) then TrimEnd(s[..|s| - 1]) else s
  }

  /** Python's `s.strip()`. */
  function Strip(s: string): (r: string)
    ensures |r| <= |s|
    ensures r == [] || (!IsSpace(r[0]) && !IsSpace(r[|r| - 1]))
  {
    TrimEnd(TrimStart(s))
  }

  /** `TrimStart` stops at the first non-space character: a cut at `i` that
      removes only whitespace and stops before a non-space character (or at
      the end) is the cut `TrimStart` makes. */
  lemma TrimStartAt(s: string, i: int)
    requires 0 <= i <= |s| && AllSpace(s[..i])
    requires i == |s| || !IsSpace(s[i])
    ensures TrimStart(s) == s[i..]
  {
    assert forall k :: 0 <= k < i ==> IsSpace(s[k]) by {
      forall k | 0 <= k < i ensures IsSpace(s[k]) {
        assert s[..i][k] == s[k];
      }
    }
    if |s| - |TrimStart(s)| < i {
      assert false;
    }
  }

  /** `TrimEnd` stops after the last non-space character. */
  lemma TrimEndAt(s: string, j: int)
    requires 0 <= j <= |s| && AllSpace(s[j..])
    requires j == 0 || !IsSpace(s[j - 1])
    ensures TrimEnd(s) == s[..j]
  {
  }

  /** `r` is what is left of `s` once the whitespace `s[..i]` and `s[j..]`
      is cut off, and `r` has no whitespace left at either end. */
  ghost predicate IsStripOf(s: string, i: int, j: int, r: string) {
    0 <= i <= j <= |s| && r == s[i..j] && AllSpace(s[..i]) && AllSpace(s[j..])
    && (r == [] || (!IsSpace(r[0]) && !IsSpace(r[|r| - 1])))
  }

  /** `Strip` cuts whitespace, and only whitespace, off both ends. */
  lemma StripIsSlice(s: string)
    ensures exists i, j :: IsStripOf(s, i, j, Strip(s))
  {
    var t := TrimStart(s);
    var i := |s| - |t|;
    var r := TrimEnd(t);
    var j := i + |r|;
    assert r == s[i..j];
    assert AllSpace(s[..i]) by {
      forall k | 0 <= k < i ensures IsSpace(s[..i][k]) {
        assert s[..i][k] == s[k];
      }
    }
    assert AllSpace(s[j..]) by {
      forall k | 0 <= k < |s| - j ensures IsSpace(s[j..][k]) {
        assert s[j..][k] == t[|r| + k];
      }
    }
    assert r == Strip(s);
    assert IsStripOf(s, i, j, r);
  }

  /** Any way of cutting whitespace off both ends that leaves no whitespace
      at either end gives exactly `Strip(s)`: `Strip` is the one such cut. */
  lemma StripUnique(s: string, i: int, j: int, r: string)
    requires IsStripOf(s, i, j, r)
    ensures r == Strip(s)
  {
    if r == [] {
      assert AllSpace(s) by {
        forall k | 0 <= k < |s| ensures IsSpace(s[k]) {
          if k < i { assert s[..i][k] == s[k]; } else { assert s[j..][k - j] == s[k]; }
        }
      }
      StripAllSpace(s);
    } else {
      StripAt(s, i, j);
    }
  }

  lemma StripAllSpace(s: string)
    requires AllSpace(s)
    ensures Strip(s) == []
  {
    assert s[..|s|] == s;
    TrimStartAt(s, |s|);
  }

  lemma StripAt(s: string, i: int, j: int)
    requires 0 <= i < j <= |s| && AllSpace(s[..i]) && AllSpace(s[j..])
    requires !IsSpace(s[i]) && !IsSpace(s[j - 1])
    ensures Strip(s) == s[i..j]
  {
    var t := s[i..];
    assert TrimStart(s) == t by {
      TrimStartAt(s, i);
    }
    assert TrimEnd(t) == s[i..j] by {
      assert t[j - i..] == s[j..];
      assert t[j - i - 1] == s[j - 1];
      TrimEndAt(t, j - i);
    }
  }

  /** Stripping twice is stripping once. */
  lemma StripIdempotent(s: string)
    ensures Strip(Strip(s)) == Strip(s)
  {
    var r := Strip(s);
    assert IsStripOf(r, 0, |r|, r) by {
      assert r[..0] == [];
      assert r[|r|..] == [];
    }
    StripUnique(r, 0, |r|, r);
  }

  /** Python's `s.split('\n')[0]`: the text before the first line feed, or
      all of `s` when it has none. */
  function FirstLine(s: string): (r: string)
    ensures |r| <= |s| && r == s[..|r|]
    ensures '\n' !in r
    ensures |r| == |s| || s[|r|] == '\n'
  {
    if s == [] || s[0] == '\n' then [] else [s[0]] + FirstLine(s[1..])
  }

  /** The three properties of `FirstLine` pin it down: any prefix of `s` free
      of line feeds that stops at the end or at a line feed is `FirstLine(s)`. */
  lemma {:induction false} FirstLineUnique(s: string, r: string)
    requires |r| <= |s| && r == s[..|r|]
    requires '\n' !in r
    requires |r| == |s| || s[|r|] == '\n'
    ensures r == FirstLine(s)
  {
    if s == [] || s[0] == '\n' {
    } else {
      assert r != [];
      assert r[0] == s[0];
      var r' := r[1..];
      assert r' == s[1..][..|r'|];
      assert forall c :: c in r' ==> c in r;
      FirstLineUnique(s[1..], r');
      assert r == [s[0]] + r';
    }
  }

  /** A non-empty text that does not open with a line feed has a non-empty
      first line. */
  lemma FirstLineNonEmpty(s: string)
    requires s != [] && s[0] != '\n'
    ensures FirstLine(s) != []
  {
  }

  /** `sub` occurs in `s` starting at position `i`. */
  ghost predicate OccursAt(s: string, sub: string, i: int) {
    0 <= i && i + |sub| <= |s| && s[i..i + |sub|] == sub
  }

  /** Python's `sub in s`. */
  predicate Contains(s: string, sub: string)
    decreases |s|
  {
    |sub| <= |s| && (s[..|sub|] == sub || Contains(s[1..], sub))
  }

  /** `Contains` holds exactly when `sub` occurs somewhere in `s`. */
  lemma {:induction false} ContainsIff(s: string, sub: string)
    ensures Contains(s, sub) <==> exists i :: OccursAt(s, sub, i)
    decreases |s|
  {
    if |sub| <= |s| {
      if s[..|sub|] == sub {
        assert OccursAt(s, sub, 0);
      } else {
        ContainsIff(s[1..], sub);
        if Contains(s[1..], sub) {
          var i :| OccursAt(s[1..], sub, i);
          assert s[1..][i..i + |sub|] == s[i + 1..i + 1 + |sub|];
          assert OccursAt(s, sub, i + 1);
        }
        if exists i :: OccursAt(s, sub, i) {
          var i :| OccursAt(s, sub, i);
          assert i != 0;
          assert s[1..][i - 1..i - 1 + |sub|] == s[i..i + |sub|];
          assert OccursAt(s[1..], sub, i - 1);
        }
      }
    }
  }
}
