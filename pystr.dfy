/**
 * The Python `str` operations the scan handler relies on: `str.isspace`
 * (which decides what `str.strip()` removes), `str.strip()`, `str.split(sep)`
 * with the `sep.join` that undoes it, and the substring test `pat in s`.
 */
module PyStr {

  /** The characters for which Python's `str.isspace()` holds; `strip()` removes exactly these. */
  predicate IsSpace(c: char) {
    || ('\t' <= c <= '\r')            // TAB, LF, VT, FF, CR
    || ('\U{1C}' <= c <= '\U{1F}')    // the four information separators
    || c == ' '
    || c == '\U{85}' || c == '\U{A0}' || c == '\U{1680}'
    || ('\U{2000}' <= c <= '\U{200A}')
    || c == '\U{2028}' || c == '\U{2029}' || c == '\U{202F}' || c == '\U{205F}' || c == '\U{3000}'
  }

  /** Every character of `s[lo..hi]` is whitespace. */
  predicate SpaceBetween(s: string, lo: int, hi: int)
    requires 0 <= lo <= hi <= |s|
  {
    forall i :: lo <= i < hi ==> IsSpace(s[i])
  }

  /** `r` starts at offset `k` of `s`, has no whitespace at either end, and everything around it is whitespace. */
  predicate StripAt(s: string, r: string, k: int) {
    && 0 <= k <= |s| - |r|
    && s[k..k + |r|] == r
    && SpaceBetween(s, 0, k)
    && SpaceBetween(s, k + |r|, |s|)
    && (r == [] || (!IsSpace(r[0]) && !IsSpace(r[|r| - 1])))
  }

  /** `r` is `s` with its surrounding whitespace taken off. */
  ghost predicate IsStripOf(s: string, r: string) {
    exists k :: StripAt(s, r, k)
  }

  /** `s.lstrip()`. */
  function LStrip(s: string): string {
    if s != [] && IsSpace(s[0]) then LStrip(s[1..]) else s
  }

  /** `s.rstrip()`. */
  function RStrip(s: string): string {
    if s != [] && IsSpace(s[|s| - 1]) then RStrip(s[..|s| - 1]) else s
  }

  /** `s.strip()`: leading and trailing whitespace removed. */
  function Strip(s: string): string {
    RStrip(LStrip(s))
  }

  /** `LStrip(s)` is what follows the leading whitespace of `s`. */
  lemma {:induction false} LStripSpec(s: string)
    ensures var r := LStrip(s);
      && |r| <= |s| && r == s[|s| - |r|..]
      && SpaceBetween(s, 0, |s| - |r|)
      && (r == [] || !IsSpace(r[0]))
    decreases |s|
  {
    if s != [] && IsSpace(s[0]) {
      LStripSpec(s[1..]);
      var r := LStrip(s);
      assert forall i :: 1 <= i < |s| - |r| ==> s[i] == s[1..][i - 1];
    }
  }

  /** `RStrip(s)` is what precedes the trailing whitespace of `s`. */
  lemma {:induction false} RStripSpec(s: string)
    ensures var r := RStrip(s);
      && |r| <= |s| && r == s[..|r|]
      && SpaceBetween(s, |r|, |s|)
      && (r == [] || !IsSpace(r[|r| - 1]))
    decreases |s|
  {
    if s != [] && IsSpace(s[|s| - 1]) {
      RStripSpec(s[..|s| - 1]);
      var r := RStrip(s);
      assert forall i :: |r| <= i < |s| - 1 ==> s[i] == s[..|s| - 1][i];
    }
  }

  /** `Strip(s)` is `s` with its surrounding whitespace taken off. */
  lemma StripSpec(s: string)
    ensures IsStripOf(s, Strip(s))
  {
    var l := LStrip(s);
    var r := RStrip(l);
    LStripSpec(s);
    RStripSpec(l);
    var k := |s| - |l|;
    assert s[k..k + |r|] == r;
    assert SpaceBetween(s, k + |r|, |s|) by {
      forall i | k + |r| <= i < |s| ensures IsSpace(s[i]) { assert s[i] == l[i - k]; }
    }
    assert StripAt(s, r, k);
  }

  /** At most one string is a strip of `s`: `IsStripOf` pins `Strip` down completely. */
  lemma StripUnique(s: string, r1: string, r2: string)
    requires IsStripOf(s, r1) && IsStripOf(s, r2)
    ensures r1 == r2
  {
    var k1 :| StripAt(s, r1, k1);
    var k2 :| StripAt(s, r2, k2);
    assert r1 != [] ==> s[k1] == r1[0] && s[k1 + |r1| - 1] == r1[|r1| - 1];
    assert r2 != [] ==> s[k2] == r2[0] && s[k2 + |r2| - 1] == r2[|r2| - 1];
    assert r1 != [] && r2 != [] ==> k1 == k2 && |r1| == |r2|;
  }

  /** Stripping twice is stripping once. */
  lemma StripIdempotent(s: string)
    ensures Strip(Strip(s)) == Strip(s)
  {
    var r := Strip(s);
    StripSpec(s);
    StripSpec(r);
    assert r[0..0 + |r|] == r;
    assert StripAt(r, r, 0);
    StripUnique(r, Strip(r), r);
  }

  /** A stripped string is a piece of its input, so a character absent from the input is absent from it. */
  lemma StripAvoids(s: string, c: char)
    requires c !in s
    ensures c !in Strip(s)
  {
    var r := Strip(s);
    StripSpec(s);
    var k :| StripAt(s, r, k);
    forall i | 0 <= i < |r| ensures r[i] != c { assert r[i] == s[k + i]; }
  }

  /** A trailing whitespace character never survives `strip()`. */
  lemma StripDropsLast(s: string, c: char)
    requires s != [] && IsSpace(s[|s| - 1]) && c !in s[..|s| - 1]
    ensures c !in Strip(s)
  {
    var r := Strip(s);
    StripSpec(s);
    var k :| StripAt(s, r, k);
    assert r != [] ==> s[k + |r| - 1] == r[|r| - 1];
    forall i | 0 <= i < |r| ensures r[i] != c {
      assert r[i] == s[k + i] == s[..|s| - 1][k + i];
    }
  }

  /** `sep.join(pieces)`. */
  function Join(pieces: seq<string>, sep: char): string
  {
    if |pieces| == 0 then ""
    else if |pieces| == 1 then pieces[0]
    else pieces[0] + [sep] + Join(pieces[1..], sep)
  }

  /**
   * `s.split(sep)`: the pieces between occurrences of `sep`, keeping empty
   * ones; there is always at least one piece (`"".split(",") == [""]`).
   */
  function Split(s: string, sep: char): (pieces: seq<string>)
    ensures |pieces| >= 1
    ensures forall i :: 0 <= i < |pieces| ==> sep !in pieces[i]
    ensures Join(pieces, sep) == s
    decreases |s|
  {
    if s == [] then [""]
    else if s[0] == sep then
      var rest := Split(s[1..], sep);
      assert [sep] + Join(rest, sep) == s;
      [""] + rest
    else
      var rest := Split(s[1..], sep);
      var pieces := [[s[0]] + rest[0]] + rest[1..];
      assert pieces[1..] == rest[1..];
      pieces
  }

  /** Splitting a join gives the pieces back, when no piece holds the separator. */
  lemma {:induction false} SplitJoin(pieces: seq<string>, sep: char)
    requires |pieces| >= 1
    requires forall i :: 0 <= i < |pieces| ==> sep !in pieces[i]
    ensures Split(Join(pieces, sep), sep) == pieces
    decreases |pieces|
  {
    if |pieces| == 1 {
      SplitNoSep(pieces[0], [], sep);
      assert pieces[0] + [] == pieces[0];
    } else {
      var tail := Join(pieces[1..], sep);
      SplitJoin(pieces[1..], sep);
      SplitAtSep(pieces[0], tail, sep);
      assert pieces == [pieces[0]] + pieces[1..];
    }
  }

  /** A separator-free `w` followed by the separator is a piece of its own. */
  lemma SplitAtSep(w: string, tail: string, sep: char)
    requires sep !in w
    ensures Split(w + [sep] + tail, sep) == [w] + Split(tail, sep)
  {
    var t := [sep] + tail;
    var p := Split(t, sep);
    assert p == [""] + Split(tail, sep) by {
      assert t[0] == sep && t[1..] == tail;
    }
    assert p[0] == "" && p[1..] == Split(tail, sep);
    SplitNoSep(w, t, sep);
    assert w + [sep] + tail == w + t && w + p[0] == w;
  }

  /** A separator-free prefix `w` becomes the start of the first piece. */
  lemma {:induction false} SplitNoSep(w: string, t: string, sep: char)
    requires sep !in w
    requires t == [] || t[0] == sep
    ensures var p := Split(t, sep); Split(w + t, sep) == [w + p[0]] + p[1..]
    decreases |w|
  {
    var p := Split(t, sep);
    if w != [] {
      SplitNoSep(w[1..], t, sep);
      var rest := Split(w[1..] + t, sep);
      assert rest[0] == w[1..] + p[0] && rest[1..] == p[1..];
      assert (w + t)[0] == w[0] != sep && (w + t)[1..] == w[1..] + t;
      assert Split(w + t, sep) == [[w[0]] + rest[0]] + rest[1..];
      assert [w[0]] + (w[1..] + p[0]) == w + p[0];
    } else {
      assert w + t == t && w + p[0] == p[0];
      assert p == [p[0]] + p[1..];
    }
  }

  /** `pat` occurs in `s` starting at offset `i`. */
  predicate OccursAt(s: string, pat: string, i: int) {
    0 <= i <= |s| - |pat| && s[i..i + |pat|] == pat
  }

  /** Python's `pat in s`: `pat` occurs in `s` as a contiguous piece. */
  function Contains(s: string, pat: string): (r: bool)
    ensures r <==> exists i :: OccursAt(s, pat, i)
    decreases |s|
  {
    if pat <= s then
      assert OccursAt(s, pat, 0);
      true
    else if s == [] then
      false
    else
      var r := Contains(s[1..], pat);
      assert forall i :: OccursAt(s[1..], pat, i) <==> OccursAt(s, pat, i + 1) by {
        forall i ensures OccursAt(s[1..], pat, i) <==> OccursAt(s, pat, i + 1) {
          if 0 <= i <= |s| - 1 - |pat| { assert s[1..][i..i + |pat|] == s[i + 1..i + 1 + |pat|]; }
        }
      }
      assert (exists i :: OccursAt(s, pat, i)) ==> r by {
        if i :| OccursAt(s, pat, i) {
          assert i != 0 && OccursAt(s[1..], pat, i - 1);
        }
      }
      assert r ==> exists i :: OccursAt(s, pat, i) by {
        if r {
          var i :| OccursAt(s[1..], pat, i);
          assert OccursAt(s, pat, i + 1);
        }
      }
      r
  }

  /** A string in which some character of `pat` never occurs does not contain `pat`. */
  lemma MissingCharNotContained(s: string, pat: string, j: nat)
    requires j < |pat| && pat[j] !in s
    ensures !Contains(s, pat)
  {
    forall i | 0 <= i <= |s| - |pat| ensures !OccursAt(s, pat, i) {
      assert s[i..i + |pat|][j] == s[i + j];
    }
  }

  /** The pieces written one after another. */
  function Concat(parts: seq<string>): string
    decreases |parts|
  {
    if parts == [] then [] else parts[0] + Concat(parts[1..])
  }

  lemma ConcatCons(p: string, ps: seq<string>)
    ensures Concat([p] + ps) == p + Concat(ps)
  {
    assert ([p] + ps)[1..] == ps;
  }

  /** A character missing from the whole is missing from every piece. */
  lemma {:induction false} ConcatAvoids(parts: seq<string>, c: char)
    requires c !in Concat(parts)
    ensures forall i :: 0 <= i < |parts| ==> c !in parts[i]
    decreases |parts|
  {
    if parts != [] {
      assert Concat(parts) == parts[0] + Concat(parts[1..]);
      assert c !in Concat(parts[1..]) && c !in parts[0];
      ConcatAvoids(parts[1..], c);
      forall i | 1 <= i < |parts| ensures c !in parts[i] {
        assert parts[i] == parts[1..][i - 1];
      }
    }
  }
}
