/**
  The meaning of the slug: the alphanumeric words of the ASCII title,
  lower-cased and joined by single dashes.
 */
module SlugWords {
  import opened Text
  import opened Slug

  // ---------------------------------------------------------------------------
  // The slug as the dash-joined alphanumeric words of the title
  // ---------------------------------------------------------------------------

  /**
    Collapsing separator runs and stripping the end dashes is the same as
    joining the alphanumeric words with single dashes.
   */
  lemma {:induction false} TrimCollapseIsJoinedWords(s: string)
    ensures Trim(Collapse(s), IsDash) == Join(Words(s), "-")
    decreases |s|
  {
    if s == [] {
    } else if !IsAsciiAlnum(s[0]) {
      SeparatorHead(s);
      TrimCollapseIsJoinedWords(SkipSeparators(s));
      SeparatorCase(s);
    } else {
      AlnumHead(s);
      var rest := s[RunEnd(s, 0, IsSeparator)..];
      if rest != [] && SkipSeparators(rest) != [] {
        SeparatorHead(rest);
        TrimCollapseIsJoinedWords(SkipSeparators(rest));
      }
      AlnumCase(s);
    }
  }

  /** At a letter or digit, the three ways the first word can end. */
  lemma AlnumCase(s: string)
    requires s != [] && IsAsciiAlnum(s[0])
    requires var rest := s[RunEnd(s, 0, IsSeparator)..];
             rest != [] && SkipSeparators(rest) != [] ==>
               Trim(Collapse(SkipSeparators(rest)), IsDash) == Join(Words(SkipSeparators(rest)), "-")
    ensures Trim(Collapse(s), IsDash) == Join(Words(s), "-")
  {
    var rest := s[RunEnd(s, 0, IsSeparator)..];
    if rest == [] {
      LastWordCase(s);
    } else if SkipSeparators(rest) == [] {
      TrailingSeparatorCase(s);
    } else {
      InnerWordCase(s);
    }
  }

  lemma SeparatorCase(s: string)
    requires s != [] && !IsAsciiAlnum(s[0])
    requires Trim(Collapse(SkipSeparators(s)), IsDash) == Join(Words(SkipSeparators(s)), "-")
    ensures Trim(Collapse(s), IsDash) == Join(Words(s), "-")
  {
    SeparatorHead(s);
    TrimDashHead(Collapse(SkipSeparators(s)));
  }

  lemma LastWordCase(s: string)
    requires s != [] && IsAsciiAlnum(s[0])
    requires s[RunEnd(s, 0, IsSeparator)..] == []
    ensures Trim(Collapse(s), IsDash) == Join(Words(s), "-")
  {
    var e := RunEnd(s, 0, IsSeparator);
    AlnumHead(s);
    assert e == |s| && s[..e] == s;
    WordsEmpty();
    assert Words(s) == [s];
    assert Collapse(s) == s + [];
    TrimWord(s, []);
  }

  lemma WordsEmpty()
    ensures Words([]) == [] && Collapse([]) == []
  {
    assert SkipSeparators([]) == [];
  }

  lemma TrailingSeparatorCase(s: string)
    requires s != [] && IsAsciiAlnum(s[0])
    requires var rest := s[RunEnd(s, 0, IsSeparator)..];
             rest != [] && SkipSeparators(rest) == []
    ensures Trim(Collapse(s), IsDash) == Join(Words(s), "-")
  {
    var e := RunEnd(s, 0, IsSeparator);
    var w := s[..e];
    var rest := s[e..];
    var u := SkipSeparators(rest);
    AlnumHead(s);
    SeparatorHead(rest);
    assert Words(u) == [];
    assert Collapse(u) == [];
    assert Words(rest) == [];
    assert Collapse(rest) == "-";
    TrimWord(w, "-");
    assert Collapse(s) == w + "-";
    assert Words(s) == [w];
    assert Join([w], "-") == w;
  }

  lemma InnerWordCase(s: string)
    requires s != [] && IsAsciiAlnum(s[0])
    requires var rest := s[RunEnd(s, 0, IsSeparator)..];
             var u := SkipSeparators(rest);
             rest != [] && u != []
             && Trim(Collapse(u), IsDash) == Join(Words(u), "-")
    ensures Trim(Collapse(s), IsDash) == Join(Words(s), "-")
  {
    var e := RunEnd(s, 0, IsSeparator);
    var w := s[..e];
    var u := SkipSeparators(s[e..]);
    InnerWordSplit(s);
    TrimWordDashMore(w, Collapse(u));
    JoinCons(w, Words(u));
  }

  /** A word followed by a separator run and more text: both views split at the run. */
  lemma InnerWordSplit(s: string)
    requires s != [] && IsAsciiAlnum(s[0])
    requires var rest := s[RunEnd(s, 0, IsSeparator)..];
             rest != [] && SkipSeparators(rest) != []
    ensures var e := RunEnd(s, 0, IsSeparator);
            var u := SkipSeparators(s[e..]);
            e > 0 && IsAsciiAlnum(u[0]) && Words(u) != []
            && Collapse(s) == s[..e] + "-" + Collapse(u)
            && Words(s) == [s[..e]] + Words(u)
  {
    InnerCollapseSplit(s);
    InnerWordsSplit(s);
  }

  lemma InnerCollapseSplit(s: string)
    requires s != [] && IsAsciiAlnum(s[0])
    requires var rest := s[RunEnd(s, 0, IsSeparator)..];
             rest != [] && SkipSeparators(rest) != []
    ensures var e := RunEnd(s, 0, IsSeparator);
            var u := SkipSeparators(s[e..]);
            e > 0 && IsAsciiAlnum(u[0])
            && Collapse(s) == s[..e] + "-" + Collapse(u)
  {
    var e := RunEnd(s, 0, IsSeparator);
    var rest := s[e..];
    var u := SkipSeparators(rest);
    AlnumHeadCollapse(s);
    assert Collapse(s) == s[..e] + Collapse(rest);
    SeparatorHeadCollapse(rest);
    var c := Collapse(u);
    assert Collapse(rest) == "-" + c;
    assert s[..e] + ("-" + c) == s[..e] + "-" + c;
  }

  lemma InnerWordsSplit(s: string)
    requires s != [] && IsAsciiAlnum(s[0])
    requires var rest := s[RunEnd(s, 0, IsSeparator)..];
             rest != [] && SkipSeparators(rest) != []
    ensures var e := RunEnd(s, 0, IsSeparator);
            var u := SkipSeparators(s[e..]);
            Words(u) != [] && Words(s) == [s[..e]] + Words(u)
  {
    var e := RunEnd(s, 0, IsSeparator);
    var rest := s[e..];
    var u := SkipSeparators(rest);
    AlnumHead(s);
    SeparatorHead(rest);
    AlnumHead(u);
    assert Words(rest) == Words(u);
  }

  lemma JoinCons(w: string, ws: seq<string>)
    requires ws != []
    ensures Join([w] + ws, "-") == w + "-" + Join(ws, "-")
  {
    assert ([w] + ws)[1..] == ws;
  }

  /**
    The slug of a title with room enough is its ASCII words, lower-cased and
    joined by single dashes; a title without letters or digits gives
    `"issue"`, cut to the bound.
   */
  lemma SlugifyIsJoinedWords(text: string, maxLength: int)
    ensures var words := Lower(Join(Words(AsciiOnly(text)), "-"));
            (words == [] <==> !HasAlnum(text))
            && (words != [] && maxLength >= |words| ==> Slugify(text, maxLength) == words)
  {
    var a := AsciiOnly(text);
    CleanedIsJoinedWords(a);
    AsciiKeepsAlnum(text);
    var words := Lower(Join(Words(a), "-"));
    if words != [] && maxLength >= |words| {
      SlugifyRoomy(text, maxLength);
    }
  }

  /**
    The slug of any title with a letter or digit: its words, lower-cased and
    joined by single dashes, cut to `maxLength` characters, less the dash the
    cut may leave at the end.
   */
  lemma SlugifyCut(text: string, maxLength: int)
    requires maxLength >= 0 && HasAlnum(text)
    ensures Slugify(text, maxLength) == CutAtDash(Lower(Join(Words(AsciiOnly(text)), "-")), maxLength)
  {
    var a := AsciiOnly(text);
    SlugifyCleaned(text, maxLength);
    CleanedIsJoinedWords(a);
    SlugCut(Slugify(text, maxLength), Cleaned(a), maxLength);
  }

  /** The first `m` characters of `w`, less a dash that ends them. */
  function CutAtDash(w: string, m: nat): string {
    var k := if m < |w| then m else |w|;
    if k > 0 && w[k - 1] == '-' then w[..k - 1] else w[..k]
  }

  /** Cutting a slug `w` to `m >= 0` characters and stripping dashes drops at most the one dash at the cut. */
  lemma SlugCut(r: string, w: string, m: int)
    requires IsSlug(w) && m >= 0 && r == Trim(PySlicePrefix(w, m), IsDash)
    ensures r == CutAtDash(w, m)
  {
    var k := if m < |w| then m else |w|;
    assert PySlicePrefix(w, m) == w[..k];
    SlugCutTrim(w, k);
  }

  /** A title with a letter or digit is slugified by cutting and stripping its cleaned text. */
  lemma SlugifyCleaned(text: string, maxLength: int)
    requires HasAlnum(text)
    ensures Slugify(text, maxLength) == Trim(PySlicePrefix(Cleaned(AsciiOnly(text)), maxLength), IsDash)
  {
    AsciiKeepsAlnum(text);
  }

  /** Cutting a slug leaves at most one dash at the end, and stripping removes just that dash. */
  lemma SlugCutTrim(w: string, k: nat)
    requires IsSlug(w) && k <= |w|
    ensures Trim(w[..k], IsDash) == if k > 0 && w[k - 1] == '-' then w[..k - 1] else w[..k]
  {
    var p := w[..k];
    if k > 0 {
      assert p[0] == w[0];
      if w[k - 1] == '-' {
        assert !DashPair(w, k - 2);
        var q := w[..k - 1];
        assert q[0] == w[0] && q[|q| - 1] == w[k - 2];
        assert p[..|p| - 1] == q;
        assert TrimLeft(p, IsDash) == p;
        assert TrimRight(p, IsDash) == TrimRight(q, IsDash);
        TrimUnchanged(q, IsDash);
        assert TrimLeft(q, IsDash) == q;
      } else {
        TrimUnchanged(p, IsDash);
      }
    }
  }

  lemma CleanedIsJoinedWords(a: string)
    ensures Cleaned(a) == Lower(Join(Words(a), "-"))
  {
    TrimCollapseIsJoinedWords(a);
  }

  /** With room for the whole cleaned title, `slugify` returns it unchanged. */
  lemma SlugifyRoomy(text: string, maxLength: int)
    requires Cleaned(AsciiOnly(text)) != []
    requires maxLength >= |Cleaned(AsciiOnly(text))|
    ensures Slugify(text, maxLength) == Cleaned(AsciiOnly(text))
  {
    var c := Cleaned(AsciiOnly(text));
    assert PySlicePrefix(c, maxLength) == c;
    TrimUnchanged(c, IsDash);
  }

}
