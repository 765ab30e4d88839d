/**
  `slugify` (scripts/export_issues.py): turns an issue title into the part of a
  file name after the issue number.

  The source first applies Unicode NFKD normalisation. The decompositions it
  applies come from the Unicode database, which is a parameter here
  (`Decompositions`); `SlugifyText` is the whole of `slugify`, and `Slugify`
  is everything after the normalisation: non-ASCII characters are dropped, every maximal run
  of characters outside `[a-zA-Z0-9]` becomes one dash, dashes are stripped
  from both ends, the result is lower-cased, an empty result becomes
  `"issue"`, and that is cut to `max_length` characters and stripped of dashes
  again.
 */
module Slug {
  import opened Text

  /** The default `max_length`, the one `write_issues` uses. */
  const DefaultMaxLength: int := 60

  /** The word used when a title has no letter or digit. */
  const Fallback: string := "issue"

  predicate IsSeparator(c: char) {
    !IsAsciiAlnum(c)
  }

  predicate HasAlnum(s: string) {
    exists i :: 0 <= i < |s| && IsAsciiAlnum(s[i])
  }

  /** Characters a slug may hold: lower-case ASCII letters, digits and the dash. */
  predicate IsSlugChar(c: char) {
    ('a' <= c <= 'z') || ('0' <= c <= '9') || c == '-'
  }

  /** Positions `i` and `i + 1` both hold a dash. */
  predicate DashPair(s: string, i: nat)
    requires i + 1 < |s|
  {
    s[i] == '-' && s[i + 1] == '-'
  }

  predicate NoDoubleDash(s: string) {
    forall i :: 0 <= i < |s| - 1 ==> !DashPair(s, i)
  }

  /** Alphanumerics and dashes, with no two dashes in a row. */
  predicate IsDashed(s: string) {
    (forall i :: 0 <= i < |s| ==> IsAsciiAlnum(s[i]) || s[i] == '-') && NoDoubleDash(s)
  }

  /** Putting a letter or digit, or a dash before something that does not start with one, in front of a dashed string keeps it dashed. */
  lemma DashedCons(c: char, x: string)
    requires IsDashed(x)
    requires IsAsciiAlnum(c) || (c == '-' && (x == [] || x[0] != '-'))
    ensures IsDashed([c] + x)
  {
    var r := [c] + x;
    forall i | 0 <= i < |r| - 1 ensures !DashPair(r, i) {
      if i > 0 {
        assert DashPair(r, i) == DashPair(x, i - 1);
      }
    }
  }

  /** The shape every slug has. */
  predicate IsSlug(s: string) {
    && (forall i :: 0 <= i < |s| ==> IsSlugChar(s[i]))
    && NoDoubleDash(s)
    && (s == [] || (s[0] != '-' && s[|s| - 1] != '-'))
  }

  /** `text.encode("ascii", "ignore").decode("ascii")`. */
  function AsciiOnly(text: string): string {
    Filter(text, IsAscii)
  }

  /** Drops the leading separator run. */
  function SkipSeparators(s: string): string {
    TrimLeft(s, IsSeparator)
  }

  /**
    `re.sub(r"[^a-zA-Z0-9]+", "-", s)`: every maximal run of separators
    becomes a single dash, letters and digits are kept.
   */
  function Collapse(s: string): (r: string)
    ensures |r| <= |s| && (r == [] <==> s == [])
    ensures s != [] ==> r[0] == (if IsAsciiAlnum(s[0]) then s[0] else '-')
    decreases |s|
  {
    if s == [] then []
    else if IsAsciiAlnum(s[0]) then [s[0]] + Collapse(s[1..])
    else "-" + Collapse(SkipSeparators(s))
  }

  /** What comes out of `Collapse` is letters, digits and single dashes. */
  lemma {:induction false} CollapseDashed(s: string)
    ensures IsDashed(Collapse(s))
    decreases |s|
  {
    if s == [] {
    } else if IsAsciiAlnum(s[0]) {
      CollapseDashed(s[1..]);
      DashedCons(s[0], Collapse(s[1..]));
    } else {
      CollapseDashed(SkipSeparators(s));
      DashedCons('-', Collapse(SkipSeparators(s)));
    }
  }

  /** `Collapse` keeps a letter or digit exactly when there is one. */
  lemma {:induction false} CollapseHasAlnum(s: string)
    ensures HasAlnum(Collapse(s)) <==> HasAlnum(s)
    decreases |s|
  {
    if s == [] {
    } else if IsAsciiAlnum(s[0]) {
      assert IsAsciiAlnum(Collapse(s)[0]);
    } else {
      var t := SkipSeparators(s);
      var c := Collapse(t);
      var r := "-" + c;
      CollapseHasAlnum(t);
      assert Collapse(s) == r;
      SkipSeparatorsHasAlnum(s);
      assert HasAlnum(r) <==> HasAlnum(c) by {
        if HasAlnum(r) {
          var i :| 0 <= i < |r| && IsAsciiAlnum(r[i]);
          assert r[i] == c[i - 1];
        }
        if HasAlnum(c) {
          var i :| 0 <= i < |c| && IsAsciiAlnum(c[i]);
          assert r[i + 1] == c[i];
        }
      }
    }
  }

  lemma SkipSeparatorsHasAlnum(s: string)
    ensures HasAlnum(SkipSeparators(s)) <==> HasAlnum(s)
  {
    if HasAlnum(s) {
      SkipSeparatorsKeepsAlnum(s);
    }
    if HasAlnum(SkipSeparators(s)) {
      var t := SkipSeparators(s);
      var i :| 0 <= i < |t| && IsAsciiAlnum(t[i]);
      assert t[i] == s[i + |s| - |t|];
    }
  }

  lemma SkipSeparatorsKeepsAlnum(s: string)
    requires HasAlnum(s)
    ensures HasAlnum(SkipSeparators(s))
  {
    var t := SkipSeparators(s);
    var k := |s| - |t|;
    TrimLeftDropped(s, IsSeparator);
    var i :| 0 <= i < |s| && IsAsciiAlnum(s[i]);
    assert !IsSeparator(s[i]);
    assert i >= k;
    assert s[i] == t[i - k];
  }

  /**
    `re.sub(...).strip("-").lower()`: the alphanumeric runs of `s`, lower-cased
    and joined by single dashes; empty when `s` has no letter or digit.
   */
  function Cleaned(s: string): (r: string)
    ensures IsSlug(r)
    ensures r == [] <==> !HasAlnum(s)
  {
    var c := Collapse(s);
    CollapseDashed(s);
    CollapseHasAlnum(s);
    TrimDashes(c);
    LowerDashed(Trim(c, IsDash));
    Lower(Trim(c, IsDash))
  }

  // ---------------------------------------------------------------------------
  // NFKD normalisation
  // ---------------------------------------------------------------------------

  /**
    The compatibility decompositions of the Unicode database: each character
    that NFKD replaces, mapped to its full decomposition.
   */
  type Decompositions = map<char, string>

  /** What NFKD puts in place of one character. ASCII characters have no decomposition. */
  function Decompose(db: Decompositions, c: char): string {
    if IsAscii(c) || c !in db then [c] else db[c]
  }

  /**
    `unicodedata.normalize("NFKD", text)`, one character at a time. NFKD also
    sorts each run of combining marks into canonical order. That reordering
    never moves a character of combining class 0, which every ASCII character
    is, so the ASCII text that `slugify` goes on with is the same either way.
   */
  function Nfkd(db: Decompositions, text: string): string
    decreases |text|
  {
    if text == [] then [] else Decompose(db, text[0]) + Nfkd(db, text[1..])
  }

  /** `slugify(text, max_length)`: normalise, then build the slug. */
  function SlugifyText(db: Decompositions, text: string, maxLength: int): string {
    Slugify(Nfkd(db, text), maxLength)
  }

  /** The decomposition works character by character: the text of a concatenation is the concatenation of the texts. */
  lemma {:induction false} NfkdAppend(db: Decompositions, a: string, b: string)
    ensures Nfkd(db, a + b) == Nfkd(db, a) + Nfkd(db, b)
    decreases |a|
  {
    if a == [] {
      assert a + b == b;
    } else {
      assert (a + b)[0] == a[0];
      assert (a + b)[1..] == a[1..] + b;
      NfkdAppend(db, a[1..], b);
    }
  }

  /** The decomposition leaves a text without decomposable characters, ASCII text in particular, as it is. */
  lemma {:induction false} NfkdUnchanged(db: Decompositions, text: string)
    requires forall i :: 0 <= i < |text| ==> IsAscii(text[i]) || text[i] !in db
    ensures Nfkd(db, text) == text
    decreases |text|
  {
    if text != [] {
      NfkdUnchanged(db, text[1..]);
      assert [text[0]] + text[1..] == text;
    }
  }

  /** The slug of a title, after normalisation, cut to `maxLength` characters with Python's slice rule. */
  function Slugify(text: string, maxLength: int): (r: string)
    ensures IsSlug(r)
    ensures maxLength >= 0 ==> |r| <= maxLength
    ensures maxLength > 0 ==> r != []
    ensures !HasAlnum(text) ==> r == PySlicePrefix(Fallback, maxLength)
  {
    var cleaned := Cleaned(AsciiOnly(text));
    var base := if cleaned == [] then Fallback else cleaned;
    AsciiKeepsAlnum(text);
    FallbackPrefix(maxLength);
    SlugPrefix(base, maxLength);
    Trim(PySlicePrefix(base, maxLength), IsDash)
  }

  /** `"issue"` is a slug, and stripping dashes leaves every prefix of it alone. */
  lemma FallbackPrefix(m: int)
    ensures IsSlug(Fallback)
    ensures Trim(PySlicePrefix(Fallback, m), IsDash) == PySlicePrefix(Fallback, m)
  {
    FallbackLetters();
    FallbackIsSlug();
    var p := PySlicePrefix(Fallback, m);
    if p != [] {
      assert p[0] == Fallback[0];
      assert p[|p| - 1] == Fallback[|p| - 1];
    }
    TrimUnchanged(p, IsDash);
  }

  lemma FallbackIsSlug()
    ensures IsSlug(Fallback)
  {
    FallbackLetters();
    forall i | 0 <= i < |Fallback| - 1 ensures !DashPair(Fallback, i) {
    }
  }

  lemma FallbackLetters()
    ensures |Fallback| == 5 && forall i :: 0 <= i < |Fallback| ==> 'a' <= Fallback[i] <= 'z'
  {
    var f := Fallback;
    assert f[0] == 'i' && f[1] == 's' && f[2] == 's' && f[3] == 'u' && f[4] == 'e';
    forall i | 0 <= i < |f| ensures 'a' <= f[i] <= 'z' {
      if i == 0 {} else if i == 1 {} else if i == 2 {} else if i == 3 {} else {}
    }
  }

  // ---------------------------------------------------------------------------
  // Shape lemmas
  // ---------------------------------------------------------------------------

  /** Letters and digits are all ASCII, so dropping non-ASCII keeps them all. */
  lemma AsciiKeepsAlnum(text: string)
    ensures HasAlnum(AsciiOnly(text)) <==> HasAlnum(text)
  {
    var a := AsciiOnly(text);
    if HasAlnum(text) {
      var i :| 0 <= i < |text| && IsAsciiAlnum(text[i]);
      assert text[i] in a;
      var j :| 0 <= j < |a| && a[j] == text[i];
    }
    if HasAlnum(a) {
      var j :| 0 <= j < |a| && IsAsciiAlnum(a[j]);
      FilterFrom(text, IsAscii, j);
      var i :| 0 <= i < |text| && text[i] == a[j];
    }
  }

  lemma {:induction false} FilterFrom(s: string, keep: char -> bool, j: nat)
    requires j < |Filter(s, keep)|
    ensures exists i :: 0 <= i < |s| && s[i] == Filter(s, keep)[j]
    decreases |s|
  {
    var rest := Filter(s[1..], keep);
    if keep(s[0]) && j == 0 {
      assert s[0] == Filter(s, keep)[0];
    } else {
      var j' := if keep(s[0]) then j - 1 else j;
      assert Filter(s, keep)[j] == rest[j'];
      FilterFrom(s[1..], keep, j');
      var i :| 0 <= i < |s[1..]| && s[1..][i] == rest[j'];
      assert s[i + 1] == rest[j'];
    }
  }

  /** Stripping the dashes of a dashed string leaves it dashed, with no dash at either end. */
  lemma TrimDashes(c: string)
    requires IsDashed(c)
    ensures var t := Trim(c, IsDash);
            IsDashed(t) && (t == [] || (t[0] != '-' && t[|t| - 1] != '-'))
            && (t == [] <==> !HasAlnum(c))
  {
    TrimDashesInfix(c);
    TrimDashesEmpty(c);
    var l := TrimLeft(c, IsDash);
    var t := TrimRight(l, IsDash);
    if t != [] {
      assert t[0] == l[0];
    }
  }

  lemma TrimDashesInfix(c: string)
    requires IsDashed(c)
    ensures IsDashed(Trim(c, IsDash))
  {
    TrimIsSlice(c, IsDash);
    DashedInfix(c, |c| - |TrimLeft(c, IsDash)|, Trim(c, IsDash));
  }

  /** Any slice of a dashed string is dashed. */
  lemma DashedInfix(c: string, k: nat, t: string)
    requires IsDashed(c) && k + |t| <= |c| && t == c[k..k + |t|]
    ensures IsDashed(t)
  {
    forall i | 0 <= i < |t| - 1 ensures !DashPair(t, i) {
      assert DashPair(t, i) == DashPair(c, k + i);
    }
  }

  lemma TrimDashesEmpty(c: string)
    requires IsDashed(c)
    ensures Trim(c, IsDash) == [] <==> !HasAlnum(c)
  {
    var l := TrimLeft(c, IsDash);
    var t := TrimRight(l, IsDash);
    var k := |c| - |l|;
    assert l == c[k..];
    TrimLeftDropped(c, IsDash);
    TrimRightDropped(l, IsDash);
    if t == [] {
      assert l == [];
    } else {
      assert t[0] == l[0];
      assert IsAsciiAlnum(c[k]);
    }
  }

  lemma LowerCharSlug(c: char)
    requires IsAsciiAlnum(c) || c == '-'
    ensures IsSlugChar(LowerChar(c))
    ensures LowerChar(c) == '-' <==> c == '-'
  {
  }

  /** Lower-casing a dashed string with no dash at either end gives a slug. */
  lemma LowerDashed(t: string)
    requires IsDashed(t) && (t == [] || (t[0] != '-' && t[|t| - 1] != '-'))
    ensures IsSlug(Lower(t))
    ensures Lower(t) == [] <==> t == []
  {
    var r := Lower(t);
    forall i | 0 <= i < |t| ensures IsSlugChar(r[i]) && (r[i] == '-' <==> t[i] == '-') {
      LowerCharSlug(t[i]);
    }
    forall i | 0 <= i < |r| - 1 ensures !DashPair(r, i) {
      assert DashPair(r, i) == DashPair(t, i);
    }
  }

  /** Cutting a non-empty slug anywhere and stripping dashes again leaves a slug within the bound. */
  lemma SlugPrefix(base: string, m: int)
    requires IsSlug(base) && base != []
    ensures var r := Trim(PySlicePrefix(base, m), IsDash);
            IsSlug(r) && (m >= 0 ==> |r| <= m) && (m > 0 ==> r != [])
  {
    var p := PySlicePrefix(base, m);
    var r := Trim(p, IsDash);
    TrimIsSlice(p, IsDash);
    TrimShape(p, IsDash);
    var k := |p| - |TrimLeft(p, IsDash)|;
    assert r == base[k..k + |r|];
    SlugInfix(base, k, |r|);
    if m > 0 {
      assert p[0] == base[0];
    }
  }

  /** Any slice of a slug holds only slug characters and no two dashes in a row. */
  lemma SlugInfix(base: string, k: nat, n: nat)
    requires IsSlug(base) && k + n <= |base|
    ensures var t := base[k..k + n];
            (forall i :: 0 <= i < |t| ==> IsSlugChar(t[i])) && NoDoubleDash(t)
  {
    var t := base[k..k + n];
    forall i | 0 <= i < |t| - 1 ensures !DashPair(t, i) {
      assert DashPair(t, i) == DashPair(base, k + i);
    }
  }

  // ---------------------------------------------------------------------------
  // Alphanumeric words
  // ---------------------------------------------------------------------------

  /** The maximal runs of letters and digits of `s`, left to right. */
  function Words(s: string): seq<string>
    decreases |s|
  {
    var t := SkipSeparators(s);
    if t == [] then []
    else
      var e := RunEnd(t, 0, IsSeparator);
      assert e > 0 by {
        assert !IsSeparator(t[0]);
      }
      [t[..e]] + Words(t[e..])
  }

  /** Every word is a non-empty run of letters and digits. */
  lemma {:induction false} WordsAreWords(s: string)
    ensures forall i :: 0 <= i < |Words(s)| ==> IsWord(Words(s)[i])
    decreases |s|
  {
    var t := SkipSeparators(s);
    if t != [] {
      var e := RunEnd(t, 0, IsSeparator);
      var rest := Words(t[e..]);
      WordHead(t);
      WordsAreWords(t[e..]);
      assert Words(s) == [t[..e]] + rest;
      forall i | 0 <= i < |Words(s)| ensures IsWord(Words(s)[i]) {
        if i > 0 {
          assert Words(s)[i] == rest[i - 1];
        }
      }
    }
  }

  /** The run in front of a string that starts with a letter or digit is a word. */
  lemma WordHead(t: string)
    requires t != [] && !IsSeparator(t[0])
    ensures var e := RunEnd(t, 0, IsSeparator);
            0 < e && IsWord(t[..e])
  {
    RunEndRun(t, 0, IsSeparator);
  }

  /** A non-empty run of ASCII letters and digits. */
  predicate IsWord(w: string) {
    w != [] && forall k :: 0 <= k < |w| ==> IsAsciiAlnum(w[k])
  }

  /** The letter-and-digit run at the front of `t` passes through `Collapse` unchanged. */
  lemma CollapseWord(t: string, e: nat)
    requires 0 < e <= |t|
    requires forall k :: 0 <= k < e ==> IsAsciiAlnum(t[k])
    ensures Collapse(t) == t[..e] + Collapse(t[e..])
  {
    assert t == t[..e] + t[e..];
    CollapseAlnumAppend(t[..e], t[e..]);
  }

  lemma {:induction false} CollapseAlnumAppend(w: string, rest: string)
    requires forall k :: 0 <= k < |w| ==> IsAsciiAlnum(w[k])
    ensures Collapse(w + rest) == w + Collapse(rest)
    decreases |w|
  {
    if w == [] {
      assert w + rest == rest;
    } else {
      var v := w[1..];
      CollapseAlnumAppend(v, rest);
      assert w + rest == [w[0]] + (v + rest);
      CollapseAlnumCons(w[0], v + rest);
      assert [w[0]] + (v + Collapse(rest)) == w + Collapse(rest);
    }
  }

  lemma CollapseAlnumCons(c: char, rest: string)
    requires IsAsciiAlnum(c)
    ensures Collapse([c] + rest) == [c] + Collapse(rest)
  {
    assert ([c] + rest)[1..] == rest;
  }

  lemma {:induction false} TrimRightAppend(x: string, y: string, drop: char -> bool)
    requires TrimRight(y, drop) != []
    ensures TrimRight(x + y, drop) == x + TrimRight(y, drop)
    decreases |y|
  {
    var s := x + y;
    if drop(y[|y| - 1]) {
      assert s[..|s| - 1] == x + y[..|y| - 1];
      TrimRightAppend(x, y[..|y| - 1], drop);
    }
  }

  /** At a separator, `Collapse` emits one dash and `Words` skips the run. */
  lemma SeparatorHead(s: string)
    requires s != [] && !IsAsciiAlnum(s[0])
    ensures var t := SkipSeparators(s);
            |t| < |s| && (t == [] || IsAsciiAlnum(t[0]))
            && Collapse(s) == "-" + Collapse(t) && Words(s) == Words(t)
  {
    SeparatorHeadCollapse(s);
    var t := SkipSeparators(s);
    assert SkipSeparators(t) == t;
  }

  lemma SeparatorHeadCollapse(s: string)
    requires s != [] && !IsAsciiAlnum(s[0])
    ensures var t := SkipSeparators(s);
            |t| < |s| && (t == [] || IsAsciiAlnum(t[0])) && Collapse(s) == "-" + Collapse(t)
  {
  }

  /** At a letter or digit, `Collapse` and `Words` both take the whole alphanumeric run. */
  lemma AlnumHead(s: string)
    requires s != [] && IsAsciiAlnum(s[0])
    ensures var e := RunEnd(s, 0, IsSeparator);
            0 < e && IsWord(s[..e]) && Words(s) == [s[..e]] + Words(s[e..])
            && Collapse(s) == s[..e] + Collapse(s[e..])
            && (s[e..] == [] || !IsAsciiAlnum(s[e..][0]))
  {
    AlnumHeadCollapse(s);
    assert SkipSeparators(s) == s;
  }

  lemma AlnumHeadCollapse(s: string)
    requires s != [] && IsAsciiAlnum(s[0])
    ensures var e := RunEnd(s, 0, IsSeparator);
            0 < e && IsWord(s[..e])
            && Collapse(s) == s[..e] + Collapse(s[e..])
            && (s[e..] == [] || !IsAsciiAlnum(s[e..][0]))
  {
    var e := RunEnd(s, 0, IsSeparator);
    RunEndRun(s, 0, IsSeparator);
    CollapseWord(s, e);
  }

  lemma TrimDashHead(x: string)
    ensures Trim("-" + x, IsDash) == Trim(x, IsDash)
  {
    assert ("-" + x)[1..] == x;
  }

  /** A word followed by at most one dash strips to the word. */
  lemma TrimWord(w: string, d: string)
    requires IsWord(w)
    requires d == [] || d == "-"
    ensures Trim(w + d, IsDash) == w
  {
    var x := w + d;
    assert TrimLeft(x, IsDash) == x by {
      assert x[0] == w[0];
    }
    if d == "-" {
      assert x[..|x| - 1] == w;
      assert TrimRight(w, IsDash) == w;
    }
  }

  /** A word, a dash and something starting with a letter or digit: stripping touches only the far end. */
  lemma TrimWordDashMore(w: string, y: string)
    requires w != [] && IsAsciiAlnum(w[0])
    requires y != [] && IsAsciiAlnum(y[0])
    ensures Trim(w + "-" + y, IsDash) == w + "-" + Trim(y, IsDash)
  {
    var x := w + "-" + y;
    assert x[0] == w[0];
    assert TrimLeft(x, IsDash) == x;
    assert TrimLeft(y, IsDash) == y;
    TrimRightDropped(y, IsDash);
    TrimRightAppend(w + "-", y, IsDash);
  }

  // ---------------------------------------------------------------------------
  // Idempotence
  // ---------------------------------------------------------------------------

  lemma DashedTail(s: string)
    requires IsDashed(s) && s != []
    ensures IsDashed(s[1..])
  {
    var t := s[1..];
    forall i | 0 <= i < |t| - 1 ensures !DashPair(t, i) {
      assert DashPair(t, i) == DashPair(s, i + 1);
    }
  }

  lemma {:induction false} CollapseFixesDashed(s: string)
    requires IsDashed(s)
    ensures Collapse(s) == s
    decreases |s|
  {
    if s != [] {
      DashedTail(s);
      CollapseFixesDashed(s[1..]);
      if IsAsciiAlnum(s[0]) {
        assert [s[0]] + s[1..] == s;
      } else {
        DashedSkip(s);
        assert "-" + s[1..] == s;
      }
    }
  }

  /** In a dashed string a dash is a separator run of its own. */
  lemma DashedSkip(s: string)
    requires IsDashed(s) && s != [] && !IsAsciiAlnum(s[0])
    ensures s[0] == '-' && SkipSeparators(s) == s[1..]
  {
    if |s| > 1 {
      assert !DashPair(s, 0);
      assert IsAsciiAlnum(s[1]);
      assert TrimLeft(s[1..], IsSeparator) == s[1..];
    } else {
      assert s[1..] == [];
    }
  }

  /** A non-empty slug within the bound is its own slug. */
  lemma SlugifySlug(s: string, maxLength: int)
    requires IsSlug(s) && s != [] && |s| <= maxLength
    ensures Slugify(s, maxLength) == s
  {
    assert forall i :: 0 <= i < |s| ==> IsAscii(s[i]);
    FilterAll(s, IsAscii);
    assert AsciiOnly(s) == s;
    CleanedSlug(s);
    assert PySlicePrefix(s, maxLength) == s;
    TrimUnchanged(s, IsDash);
  }

  lemma CleanedSlug(s: string)
    requires IsSlug(s)
    ensures Cleaned(s) == s
  {
    assert IsDashed(s);
    CollapseFixesDashed(s);
    var c := Collapse(s);
    assert c == s;
    TrimUnchanged(s, IsDash);
    var t := Trim(c, IsDash);
    assert t == s;
    LowerSlug(s);
  }

  lemma LowerSlug(s: string)
    requires IsSlug(s)
    ensures Lower(s) == s
  {
    var r := Lower(s);
    forall i | 0 <= i < |s| ensures r[i] == s[i] {
      assert IsSlugChar(s[i]);
    }
  }

  lemma {:induction false} FilterAll(s: string, keep: char -> bool)
    requires forall i :: 0 <= i < |s| ==> keep(s[i])
    ensures Filter(s, keep) == s
    decreases |s|
  {
    if s != [] {
      FilterAll(s[1..], keep);
      assert [s[0]] + s[1..] == s;
    }
  }

  /** A title whose ASCII text is one word that fits is that word, lower-cased. */
  lemma SlugifyWord(text: string, m: int)
    requires IsWord(AsciiOnly(text)) && |AsciiOnly(text)| <= m
    ensures Slugify(text, m) == Lower(AsciiOnly(text))
  {
    var a := AsciiOnly(text);
    assert IsDashed(a) by {
      forall i | 0 <= i < |a| - 1 ensures !DashPair(a, i) {
        assert IsAsciiAlnum(a[i]);
      }
    }
    CollapseFixesDashed(a);
    assert IsAsciiAlnum(a[0]) && IsAsciiAlnum(a[|a| - 1]);
    TrimUnchanged(a, IsDash);
    var c := Lower(a);
    assert Cleaned(a) == c;
    assert HasAlnum(a) by {
      assert IsAsciiAlnum(a[0]);
    }
    assert PySlicePrefix(c, m) == c;
    TrimUnchanged(c, IsDash);
  }

  /**
    A word ending in a letter that NFKD splits into an ASCII letter and a
    combining mark keeps that letter: with `é` decomposing to `e` and an
    accent, `Café` gives `cafe`, where dropping the non-ASCII `é` itself
    would give `caf`.
   */
  lemma SlugifyDecomposed(db: Decompositions, word: string, c: char, base: char, mark: char)
    requires IsWord(word) && |word| < DefaultMaxLength
    requires !IsAscii(c) && IsAsciiAlnum(base) && !IsAscii(mark) && c in db && db[c] == [base, mark]
    ensures SlugifyText(db, word + [c], DefaultMaxLength) == Lower(word + [base])
  {
    var w := word + [base];
    assert forall i :: 0 <= i < |word| ==> IsAscii(word[i]) by {
      forall i | 0 <= i < |word| ensures IsAscii(word[i]) {
        assert IsAsciiAlnum(word[i]);
      }
    }
    DecomposedAscii(db, word, c, base, mark);
    assert IsWord(w) by {
      forall k | 0 <= k < |w| ensures IsAsciiAlnum(w[k]) {
        if k < |word| {
          assert w[k] == word[k];
        }
      }
    }
    SlugifyWord(w + [mark], DefaultMaxLength);
  }

  /** After an ASCII prefix, a letter that decomposes to an ASCII letter and a mark leaves the prefix and that letter. */
  lemma DecomposedAscii(db: Decompositions, pre: string, c: char, base: char, mark: char)
    requires forall i :: 0 <= i < |pre| ==> IsAscii(pre[i])
    requires !IsAscii(c) && IsAscii(base) && !IsAscii(mark) && c in db && db[c] == [base, mark]
    ensures Nfkd(db, pre + [c]) == pre + [base] + [mark]
    ensures AsciiOnly(pre + [base] + [mark]) == pre + [base]
  {
    NfkdUnchanged(db, pre);
    NfkdAppend(db, pre, [c]);
    assert Nfkd(db, [c]) == [base, mark] + Nfkd(db, []);
    AsciiThenMark(pre + [base], mark);
  }

  lemma AsciiThenMark(a: string, mark: char)
    requires forall i :: 0 <= i < |a| ==> IsAscii(a[i])
    requires !IsAscii(mark)
    ensures AsciiOnly(a + [mark]) == a
  {
    FilterAll(a, IsAscii);
    FilterAppend(a, [mark], IsAscii);
    assert Filter([mark], IsAscii) == [] + Filter([], IsAscii);
  }

  /** Slugifying a slug again changes nothing. */
  lemma SlugifyIdempotent(text: string, maxLength: int)
    requires maxLength >= 0
    ensures Slugify(Slugify(text, maxLength), maxLength) == Slugify(text, maxLength)
  {
    var r := Slugify(text, maxLength);
    if r == [] {
      assert maxLength == 0;
      assert !HasAlnum(r);
    } else {
      SlugifySlug(r, maxLength);
    }
  }

  /** With the default bound, a title without letters or digits gives exactly `"issue"`. */
  lemma SlugifyFallbackDefault(text: string)
    requires !HasAlnum(text)
    ensures Slugify(text, DefaultMaxLength) == "issue"
  {
  }
}
