/**
  The string primitives the exporter is built from, with Python's semantics:
  character classes, `strip`, `split`, `join`, `replace` and prefix slicing.
 */
module Text {

  // ---------------------------------------------------------------------------
  // Character classes
  // ---------------------------------------------------------------------------

  /** The regex class `[a-zA-Z0-9]`. */
  predicate IsAsciiAlnum(c: char) {
    ('a' <= c <= 'z') || ('A' <= c <= 'Z') || ('0' <= c <= '9')
  }

  /** Characters that survive `encode("ascii", "ignore")`. */
  predicate IsAscii(c: char) {
    c as int < 128
  }

  /**
    Python's `str.isspace`, the set `str.strip()` with no argument removes:
    U+0009..U+000D, U+001C..U+0020, U+0085, U+00A0, U+1680, U+2000..U+200A,
    U+2028, U+2029, U+202F, U+205F and U+3000.
   */
  predicate IsPySpace(c: char) {
    var n := c as int;
    (9 <= n <= 13) || (28 <= n <= 32) || n == 0x85 || n == 0xA0 || n == 0x1680
    || (0x2000 <= n <= 0x200A) || n == 0x2028 || n == 0x2029 || n == 0x202F
    || n == 0x205F || n == 0x3000
  }

  predicate IsDash(c: char) {
    c == '-'
  }

  predicate StartsWith(s: string, prefix: string) {
    |prefix| <= |s| && s[..|prefix|] == prefix
  }

  // ---------------------------------------------------------------------------
  // strip / lstrip / rstrip
  // ---------------------------------------------------------------------------

  /** `lstrip`: drops the longest prefix of characters satisfying `drop`. */
  function TrimLeft(s: string, drop: char -> bool): (r: string)
    ensures |r| <= |s| && r == s[|s| - |r|..]
    ensures r == [] || !drop(r[0])
    decreases |s|
  {
    if s != [] && drop(s[0]) then TrimLeft(s[1..], drop) else s
  }

  /** Everything `lstrip` removed satisfies `drop`. */
  lemma {:induction false} TrimLeftDropped(s: string, drop: char -> bool)
    ensures forall i :: 0 <= i < |s| - |TrimLeft(s, drop)| ==> drop(s[i])
    decreases |s|
  {
    if s != [] && drop(s[0]) {
      TrimLeftDropped(s[1..], drop);
    }
  }

  /** `rstrip`: drops the longest suffix of characters satisfying `drop`. */
  function TrimRight(s: string, drop: char -> bool): (r: string)
    ensures |r| <= |s| && r == s[..|r|]
    ensures r == [] || !drop(r[|r| - 1])
    decreases |s|
  {
    if s != [] && drop(s[|s| - 1]) then TrimRight(s[..|s| - 1], drop) else s
  }

  /** Everything `rstrip` removed satisfies `drop`. */
  lemma {:induction false} TrimRightDropped(s: string, drop: char -> bool)
    ensures forall i :: |TrimRight(s, drop)| <= i < |s| ==> drop(s[i])
    decreases |s|
  {
    if s != [] && drop(s[|s| - 1]) {
      TrimRightDropped(s[..|s| - 1], drop);
    }
  }

  /** `strip`: both ends. */
  function Trim(s: string, drop: char -> bool): string {
    TrimRight(TrimLeft(s, drop), drop)
  }

  /** Python's `s.strip()`. */
  function PyStrip(s: string): string {
    Trim(s, IsPySpace)
  }

  /** Python's `s.rstrip()`. */
  function PyRStrip(s: string): string {
    TrimRight(s, IsPySpace)
  }

  /** A string is its own strip exactly when neither end can be dropped. */
  lemma TrimUnchanged(s: string, drop: char -> bool)
    ensures Trim(s, drop) == s <==> (s == [] || (!drop(s[0]) && !drop(s[|s| - 1])))
  {
    if s != [] {
      var l := TrimLeft(s, drop);
      if drop(s[0]) {
        assert l == TrimLeft(s[1..], drop);
        assert |Trim(s, drop)| <= |l| < |s|;
      } else {
        assert l == s;
        if drop(s[|s| - 1]) {
          assert TrimRight(s, drop) == TrimRight(s[..|s| - 1], drop);
          assert |Trim(s, drop)| < |s|;
        } else {
          assert TrimRight(s, drop) == s;
        }
      }
    }
  }

  /** The strip is the slice of `s` that starts where `lstrip` stopped. */
  lemma TrimIsSlice(s: string, drop: char -> bool)
    ensures var k := |s| - |TrimLeft(s, drop)|;
            k + |Trim(s, drop)| <= |s| && Trim(s, drop) == s[k..k + |Trim(s, drop)|]
  {
    var l := TrimLeft(s, drop);
    var t := TrimRight(l, drop);
    var k := |s| - |l|;
    assert l == s[k..];
    assert t == l[..|t|];
  }

  /** The strip of anything is empty exactly when every character can be dropped; otherwise it starts and ends with a kept character. */
  lemma TrimShape(s: string, drop: char -> bool)
    ensures var r := Trim(s, drop);
            (r == [] || (!drop(r[0]) && !drop(r[|r| - 1])))
            && (r == [] <==> forall i :: 0 <= i < |s| ==> drop(s[i]))
  {
    TrimEnds(s, drop);
    TrimEmpty(s, drop);
  }

  lemma TrimEnds(s: string, drop: char -> bool)
    ensures var r := Trim(s, drop);
            r == [] || (!drop(r[0]) && !drop(r[|r| - 1]))
  {
    var l := TrimLeft(s, drop);
    var r := TrimRight(l, drop);
    if r != [] {
      assert r[0] == l[0];
    }
  }

  lemma TrimEmpty(s: string, drop: char -> bool)
    ensures Trim(s, drop) == [] <==> forall i :: 0 <= i < |s| ==> drop(s[i])
  {
    var l := TrimLeft(s, drop);
    var a := |s| - |l|;
    TrimLeftDropped(s, drop);
    TrimRightDropped(l, drop);
    if l != [] {
      assert l[0] == s[a];
    }
  }


  // ---------------------------------------------------------------------------
  // split / join
  // ---------------------------------------------------------------------------

  /** Python's `s.split(sep)` for a one-character separator: never empty. */
  function Split(s: string, sep: char): (r: seq<string>)
    ensures |r| >= 1
    ensures forall i :: 0 <= i < |r| ==> sep !in r[i]
    decreases |s|
  {
    if s == [] then [[]]
    else
      var rest := Split(s[1..], sep);
      if s[0] == sep then [[]] + rest
      else [[s[0]] + rest[0]] + rest[1..]
  }

  /** Python's `sep.join(parts)`. */
  function Join(parts: seq<string>, sep: string): string
    decreases |parts|
  {
    if |parts| == 0 then []
    else if |parts| == 1 then parts[0]
    else parts[0] + sep + Join(parts[1..], sep)
  }

  lemma JoinConsHead(x: string, y: string, ys: seq<string>, sep: string)
    ensures Join([x + y] + ys, sep) == x + Join([y] + ys, sep)
  {
    if |ys| > 0 {
      assert ([x + y] + ys)[1..] == ys;
      assert ([y] + ys)[1..] == ys;
    }
  }

  /** The last part of a join follows the join of the others and one separator. */
  lemma {:induction false} JoinLast(parts: seq<string>, sep: string)
    requires |parts| >= 2
    ensures Join(parts, sep) == Join(parts[..|parts| - 1], sep) + sep + parts[|parts| - 1]
    decreases |parts|
  {
    if |parts| > 2 {
      JoinLast(parts[1..], sep);
      assert parts[1..][..|parts| - 2] == parts[..|parts| - 1][1..];
    }
  }

  /** Joining the pieces of a split restores the string. */
  lemma {:induction false} JoinSplit(s: string, sep: char)
    ensures Join(Split(s, sep), [sep]) == s
    decreases |s|
  {
    if s != [] {
      var rest := Split(s[1..], sep);
      JoinSplit(s[1..], sep);
      if s[0] == sep {
        assert ([[]] + rest)[1..] == rest;
      } else {
        assert rest == [rest[0]] + rest[1..];
        JoinConsHead([s[0]], rest[0], rest[1..], [sep]);
      }
    }
  }

  lemma {:induction false} SplitNoSep(x: string, sep: char)
    requires sep !in x
    ensures Split(x, sep) == [x]
    decreases |x|
  {
    if x != [] {
      SplitNoSep(x[1..], sep);
      assert [x[0]] + x[1..] == x;
    }
  }

  lemma {:induction false} SplitAtSep(x: string, y: string, sep: char)
    requires sep !in x
    ensures Split(x + [sep] + y, sep) == [x] + Split(y, sep)
    decreases |x|
  {
    var s := x + [sep] + y;
    if x == [] {
      assert s[1..] == y;
    } else {
      assert s[1..] == x[1..] + [sep] + y;
      SplitAtSep(x[1..], y, sep);
      assert [x[0]] + x[1..] == x;
    }
  }

  /** Splitting a join of separator-free pieces gives the pieces back. */
  lemma {:induction false} SplitJoin(parts: seq<string>, sep: char)
    requires |parts| >= 1
    requires forall i :: 0 <= i < |parts| ==> sep !in parts[i]
    ensures Split(Join(parts, [sep]), sep) == parts
    decreases |parts|
  {
    if |parts| == 1 {
      SplitNoSep(parts[0], sep);
    } else {
      SplitJoin(parts[1..], sep);
      SplitAtSep(parts[0], Join(parts[1..], [sep]), sep);
      assert [parts[0]] + parts[1..] == parts;
    }
  }

  /** A character other than the separator occurs in a join only if some part holds it. */
  lemma {:induction false} JoinAvoids(parts: seq<string>, sep: string, c: char)
    requires c !in sep
    requires forall i :: 0 <= i < |parts| ==> c !in parts[i]
    ensures c !in Join(parts, sep)
    decreases |parts|
  {
    if |parts| > 1 {
      JoinAvoids(parts[1..], sep, c);
    }
  }

  // ---------------------------------------------------------------------------
  // replace
  // ---------------------------------------------------------------------------

  /** Python's `s.replace(c, by)` for a one-character pattern. */
  function ReplaceChar(s: string, c: char, rep: string): string
    decreases |s|
  {
    if s == [] then []
    else (if s[0] == c then rep else [s[0]]) + ReplaceChar(s[1..], c, rep)
  }

  lemma {:induction false} ReplaceCharAppend(a: string, b: string, c: char, rep: string)
    ensures ReplaceChar(a + b, c, rep) == ReplaceChar(a, c, rep) + ReplaceChar(b, c, rep)
    decreases |a|
  {
    if a != [] {
      assert (a + b)[0] == a[0];
      assert (a + b)[1..] == a[1..] + b;
      ReplaceCharAppend(a[1..], b, c, rep);
    } else {
      assert a + b == b;
    }
  }

  /** The characters of `s` other than `c`, in order. */
  function Without(s: string, c: char): (r: string)
    ensures c !in r
    decreases |s|
  {
    if s == [] then []
    else (if s[0] == c then [] else [s[0]]) + Without(s[1..], c)
  }

  /**
    Python's `s.replace("\r\n", "\n")`: left to right, non-overlapping, so a
    carriage return is removed only where a line feed follows it.
   */
  function ReplaceCrLf(s: string): (r: string)
    ensures |r| <= |s|
    ensures s != [] && s[0] != '\r' ==> r != [] && r[0] == s[0]
    decreases |s|
  {
    if |s| >= 2 && s[0] == '\r' && s[1] == '\n' then "\n" + ReplaceCrLf(s[2..])
    else if s == [] then []
    else [s[0]] + ReplaceCrLf(s[1..])
  }

  lemma {:induction false} WithoutAppend(a: string, b: string, c: char)
    ensures Without(a + b, c) == Without(a, c) + Without(b, c)
    decreases |a|
  {
    if a != [] {
      var h := if a[0] == c then [] else [a[0]];
      assert (a + b)[0] == a[0];
      assert (a + b)[1..] == a[1..] + b;
      WithoutAppend(a[1..], b, c);
      assert Without(a + b, c) == h + Without(a[1..] + b, c);
      assert Without(a, c) == h + Without(a[1..], c);
    } else {
      assert a + b == b;
    }
  }

  /** Only carriage returns are removed: everything else, line feeds included, is kept in order. */
  lemma {:induction false} ReplaceCrLfOnlyDropsCr(s: string)
    ensures Without(ReplaceCrLf(s), '\r') == Without(s, '\r')
    decreases |s|
  {
    if |s| >= 2 && s[0] == '\r' && s[1] == '\n' {
      ReplaceCrLfOnlyDropsCr(s[2..]);
      WithoutAppend("\n", ReplaceCrLf(s[2..]), '\r');
      assert s[1..][1..] == s[2..];
    } else if s != [] {
      ReplaceCrLfOnlyDropsCr(s[1..]);
      WithoutAppend([s[0]], ReplaceCrLf(s[1..]), '\r');
    }
  }

  /** Text without carriage returns is left alone. */
  lemma {:induction false} ReplaceCrLfNoCr(s: string)
    requires '\r' !in s
    ensures ReplaceCrLf(s) == s
    decreases |s|
  {
    if s != [] {
      ReplaceCrLfNoCr(s[1..]);
    }
  }

  predicate HasCrLf(s: string) {
    exists i :: 0 <= i < |s| - 1 && s[i] == '\r' && s[i + 1] == '\n'
  }

  /** Unless two carriage returns are adjacent, no CR LF pair survives the replacement. */
  lemma {:induction false} ReplaceCrLfRemovesPairs(s: string)
    requires forall i :: 0 <= i < |s| - 1 ==> !(s[i] == '\r' && s[i + 1] == '\r')
    ensures !HasCrLf(ReplaceCrLf(s))
    decreases |s|
  {
    var r := ReplaceCrLf(s);
    if |s| >= 2 && s[0] == '\r' && s[1] == '\n' {
      ReplaceCrLfRemovesPairs(s[2..]);
      var t := ReplaceCrLf(s[2..]);
      assert r == "\n" + t;
      forall i | 0 <= i < |r| - 1 ensures !(r[i] == '\r' && r[i + 1] == '\n') {
        if i > 0 {
          assert r[i] == t[i - 1] && r[i + 1] == t[i];
        }
      }
    } else if s != [] {
      ReplaceCrLfRemovesPairs(s[1..]);
      var t := ReplaceCrLf(s[1..]);
      assert r == [s[0]] + t;
      forall i | 0 <= i < |r| - 1 ensures !(r[i] == '\r' && r[i + 1] == '\n') {
        if i > 0 {
          assert r[i] == t[i - 1] && r[i + 1] == t[i];
        } else if s[0] == '\r' {
          assert s[1] != '\r' && s[1] != '\n';
          assert t[0] == s[1];
        }
      }
    }
  }

  // ---------------------------------------------------------------------------
  // lower, filtering, slicing, scanning
  // ---------------------------------------------------------------------------

  function LowerChar(c: char): char {
    if 'A' <= c <= 'Z' then (c as int + 32) as char else c
  }

  /** `str.lower()` on ASCII text. */
  function Lower(s: string): (r: string)
    ensures |r| == |s|
  {
    seq(|s|, i requires 0 <= i < |s| => LowerChar(s[i]))
  }

  /** The characters of `s` that satisfy `keep`, in order. */
  function Filter(s: string, keep: char -> bool): (r: string)
    ensures |r| <= |s|
    ensures forall i :: 0 <= i < |r| ==> keep(r[i])
    ensures forall i :: 0 <= i < |s| && keep(s[i]) ==> s[i] in r
    decreases |s|
  {
    if s == [] then []
    else (if keep(s[0]) then [s[0]] else []) + Filter(s[1..], keep)
  }

  /** Filtering works piece by piece. */
  lemma {:induction false} FilterAppend(a: string, b: string, keep: char -> bool)
    ensures Filter(a + b, keep) == Filter(a, keep) + Filter(b, keep)
    decreases |a|
  {
    if a == [] {
      assert a + b == b;
    } else {
      assert (a + b)[0] == a[0];
      assert (a + b)[1..] == a[1..] + b;
      FilterAppend(a[1..], b, keep);
    }
  }

  /** Python's prefix slice `s[:m]`, where a negative `m` counts from the end. */
  function PySlicePrefix(s: string, m: int): (r: string)
    ensures |r| <= |s| && r == s[..|r|]
    ensures m >= 0 ==> |r| == if m < |s| then m else |s|
    ensures m < 0 ==> |r| == if |s| + m > 0 then |s| + m else 0
  {
    if m >= 0 then (if m < |s| then s[..m] else s)
    else (if |s| + m > 0 then s[..|s| + m] else [])
  }

  /** The first index at or after `i` that holds a `stop` character, or `|s|` if there is none. */
  function RunEnd(s: string, i: nat, stop: char -> bool): (e: nat)
    requires i <= |s|
    ensures i <= e <= |s|
    ensures e < |s| ==> stop(s[e])
    decreases |s| - i
  {
    if i == |s| || stop(s[i]) then i else RunEnd(s, i + 1, stop)
  }

  /** No character before the end of the run is a stop character. */
  lemma {:induction false} RunEndRun(s: string, i: nat, stop: char -> bool)
    requires i <= |s|
    ensures forall k :: i <= k < RunEnd(s, i, stop) ==> !stop(s[k])
    decreases |s| - i
  {
    if i < |s| && !stop(s[i]) {
      RunEndRun(s, i + 1, stop);
    }
  }

  /** A run of non-stop characters that ends at a stop character (or the end) is what `RunEnd` finds. */
  lemma RunEndIs(s: string, i: nat, j: nat, stop: char -> bool)
    requires i <= j <= |s|
    requires forall k :: i <= k < j ==> !stop(s[k])
    requires j == |s| || stop(s[j])
    ensures RunEnd(s, i, stop) == j
    decreases j - i
  {
    if i < j {
      RunEndIs(s, i + 1, j, stop);
    }
  }
}
