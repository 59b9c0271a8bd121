/** String operations the assistant relies on, written out with Python's semantics:
    `str.strip()`, `str.split(sep)`, `sep.join(...)`, decimal formatting of an integer
    in an f-string, and the ASCII part of `str.upper()` / `str.lower()`. */
module Text {

  /** Python's whitespace: the characters `str.strip()` removes and `\s` matches. */
  const SpaceChars: set<char> := {
    '\t', '\n', '\U{0B}', '\U{0C}', '\r', '\U{1C}', '\U{1D}', '\U{1E}', '\U{1F}', ' ',
    '\U{85}', '\U{A0}', '\U{1680}',
    '\U{2000}', '\U{2001}', '\U{2002}', '\U{2003}', '\U{2004}', '\U{2005}', '\U{2006}',
    '\U{2007}', '\U{2008}', '\U{2009}', '\U{200A}',
    '\U{2028}', '\U{2029}', '\U{202F}', '\U{205F}', '\U{3000}'
  }

  /** Python's `str.isspace()`. */
  predicate IsSpace(c: char) {
    c in SpaceChars
  }

  predicate AllSpace(s: string) {
    forall k :: 0 <= k < |s| ==> IsSpace(s[k])
  }

  /** The first index at or after i that holds no whitespace (|s| if there is none). */
  function StartFrom(s: string, i: nat): (a: nat)
    requires i <= |s|
    ensures i <= a <= |s|
    ensures forall k :: i <= k < a ==> IsSpace(s[k])
    ensures a < |s| ==> !IsSpace(s[a])
    decreases |s| - i
  {
    if i < |s| && IsSpace(s[i]) then StartFrom(s, i + 1) else i
  }

  /** The index just past the last non-whitespace character before j (0 if there is none). */
  function EndBefore(s: string, j: nat): (b: nat)
    requires j <= |s|
    ensures b <= j
    ensures forall k :: b <= k < j ==> IsSpace(s[k])
    ensures 0 < b ==> !IsSpace(s[b - 1])
  {
    if 0 < j && IsSpace(s[j - 1]) then EndBefore(s, j - 1) else j
  }

  /** Where `strip()` starts and ends its result. */
  function StripStart(s: string): nat {
    StartFrom(s, 0)
  }

  function StripEnd(s: string): nat {
    EndBefore(s, |s|)
  }

  /** Python's `s.strip()`: the infix of `s` left once whitespace is removed from both ends. */
  function Strip(s: string): (r: string)
    ensures r == [] <==> AllSpace(s)
    ensures r != [] ==> !IsSpace(r[0]) && !IsSpace(r[|r| - 1])
  {
    var a, b := StripStart(s), StripEnd(s);
    if a == |s| then
      []
    else
      assert !IsSpace(s[a]);
      s[a..b]
  }

  // ---------------------------------------------------------------------------
  // Occurrences of a separator

  /** `w` occurs in `s` starting at index `k`. */
  predicate OccursAt(s: string, w: string, k: int) {
    0 <= k && k + |w| <= |s| && s[k..k + |w|] == w
  }

  /** No occurrence of `w` in `s` starts before index `n`. */
  predicate FreeBefore(s: string, w: string, n: int) {
    forall k :: 0 <= k < n ==> !OccursAt(s, w, k)
  }

  /** Python's `w in s` for strings. */
  predicate Contains(s: string, w: string) {
    exists k :: 0 <= k <= |s| - |w| && OccursAt(s, w, k)
  }

  // ---------------------------------------------------------------------------
  // split and join

  /** Python's `s.split(sep)` for a non-empty `sep`: cut at the leftmost occurrences, scanning
      left to right; `cur` is the part of the current piece already scanned. */
  function SplitFrom(s: string, sep: string, cur: string): (pieces: seq<string>)
    requires sep != []
    ensures |pieces| >= 1
    decreases |s|
  {
    if |s| < |sep| then [cur + s]
    else if s[..|sep|] == sep then [cur] + SplitFrom(s[|sep|..], sep, [])
    else SplitFrom(s[1..], sep, cur + [s[0]])
  }

  function SplitOn(s: string, sep: string): (pieces: seq<string>)
    requires sep != []
    ensures |pieces| >= 1
  {
    SplitFrom(s, sep, [])
  }

  /** Python's `sep.join(pieces)`. */
  function Join(pieces: seq<string>, sep: string): string {
    if |pieces| == 0 then []
    else if |pieces| == 1 then pieces[0]
    else pieces[0] + sep + Join(pieces[1..], sep)
  }

  /** The pieces a split by `sep` can produce, in the leftmost-first sense: a piece that is
      followed by a separator holds no occurrence of `sep` that starts inside it, even one
      reaching into that separator, and the last piece holds no occurrence at all. */
  predicate LeftmostPieces(pieces: seq<string>, sep: string) {
    && (forall i :: 0 <= i < |pieces| - 1 ==> FreeBefore(pieces[i] + sep, sep, |pieces[i]|))
    && (|pieces| > 0 ==> FreeBefore(pieces[|pieces| - 1], sep, |pieces[|pieces| - 1]|))
  }

  lemma {:induction false} JoinSplitFrom(s: string, sep: string, cur: string)
    requires sep != []
    ensures Join(SplitFrom(s, sep, cur), sep) == cur + s
    decreases |s|
  {
    if |s| < |sep| {
    } else if s[..|sep|] == sep {
      JoinSplitFrom(s[|sep|..], sep, []);
      assert s == sep + s[|sep|..];
    } else {
      JoinSplitFrom(s[1..], sep, cur + [s[0]]);
      assert cur + [s[0]] + s[1..] == cur + s;
    }
  }

  /** No occurrence starts before n in a prefix of a text that has none there. */
  lemma FreeBeforePrefix(t: string, u: string, w: string, n: nat)
    requires |u| <= |t| && t[..|u|] == u
    requires FreeBefore(t, w, n)
    ensures FreeBefore(u, w, n)
  {
    forall k | 0 <= k < n ensures !OccursAt(u, w, k) {
      if OccursAt(u, w, k) {
        SliceOfSlice(t, 0, |u|, k, |w|);
        assert OccursAt(t, w, k);
      }
    }
  }

  /** A piece followed by a separator, in front of leftmost pieces, keeps them leftmost. */
  lemma LeftmostCons(head: string, tail: seq<string>, sep: string)
    requires tail != [] && LeftmostPieces(tail, sep)
    requires FreeBefore(head + sep, sep, |head|)
    ensures LeftmostPieces([head] + tail, sep)
  {
    var pieces := [head] + tail;
    forall i | 0 <= i < |pieces| - 1 ensures FreeBefore(pieces[i] + sep, sep, |pieces[i]|) {
      if i > 0 { assert pieces[i] == tail[i - 1]; }
    }
    assert pieces[|pieces| - 1] == tail[|tail| - 1];
  }

  lemma {:induction false} SplitFromLeftmost(s: string, sep: string, cur: string)
    requires sep != []
    requires FreeBefore(cur + s, sep, |cur|)
    ensures LeftmostPieces(SplitFrom(s, sep, cur), sep)
    decreases |s|
  {
    var t := cur + s;
    if |s| < |sep| {
      forall k | 0 <= k < |t| ensures !OccursAt(t, sep, k) {
        if k < |cur| { } else { assert k + |sep| > |t|; }
      }
    } else if s[..|sep|] == sep {
      var rest := s[|sep|..];
      SplitFromLeftmost(rest, sep, []);
      assert t[..|cur| + |sep|] == cur + sep;
      FreeBeforePrefix(t, cur + sep, sep, |cur|);
      LeftmostCons(cur, SplitFrom(rest, sep, []), sep);
    } else {
      var cur' := cur + [s[0]];
      assert cur' + s[1..] == t;
      assert !OccursAt(t, sep, |cur|) by {
        assert t[|cur|..|cur| + |sep|] == s[..|sep|];
      }
      SplitFromLeftmost(s[1..], sep, cur');
    }
  }

  /** `s.split(sep)` followed by `sep.join(...)` gives back `s`, and the pieces are the
      leftmost-first ones. */
  lemma SplitOnSpec(s: string, sep: string)
    requires sep != []
    ensures Join(SplitOn(s, sep), sep) == s
    ensures LeftmostPieces(SplitOn(s, sep), sep)
  {
    JoinSplitFrom(s, sep, []);
    SplitFromLeftmost(s, sep, []);
  }

  /** Scanning a piece that holds no occurrence ending before its separator cuts exactly there. */
  lemma {:induction false} SplitFromPiece(p: string, rest: string, sep: string, cur: string)
    requires sep != []
    requires FreeBefore(cur + p + sep, sep, |cur + p|)
    ensures SplitFrom(p + sep + rest, sep, cur) == [cur + p] + SplitFrom(rest, sep, [])
    decreases |p|
  {
    var s := p + sep + rest;
    if p == [] {
      assert s == sep + rest && cur + p == cur;
      assert s[..|sep|] == sep && s[|sep|..] == rest;
      assert SplitFrom(s, sep, cur) == [cur] + SplitFrom(rest, sep, []);
    } else {
      assert s[..|sep|] != sep by {
        assert !OccursAt(cur + p + sep, sep, |cur|);
        assert (cur + p + sep)[|cur|..|cur| + |sep|] == s[..|sep|];
      }
      var p0, p' := p[0], p[1..];
      assert SplitFrom(s, sep, cur) == SplitFrom(s[1..], sep, cur + [s[0]]);
      assert s[0] == p0 && s[1..] == p' + sep + rest by {
        assert p == [p0] + p';
        assert s == [p0] + (p' + sep + rest);
      }
      assert cur + [p0] + p' == cur + p by {
        assert p == [p0] + p';
      }
      SplitFromPiece(p', rest, sep, cur + [p0]);
    }
  }

  /** Scanning a last piece that holds no occurrence yields it whole. */
  lemma {:induction false} SplitFromLast(p: string, sep: string, cur: string)
    requires sep != []
    requires FreeBefore(cur + p, sep, |cur + p|)
    ensures SplitFrom(p, sep, cur) == [cur + p]
    decreases |p|
  {
    if |p| < |sep| {
    } else {
      assert p[..|sep|] != sep by {
        assert !OccursAt(cur + p, sep, |cur|);
        assert (cur + p)[|cur|..|cur| + |sep|] == p[..|sep|];
      }
      assert cur + [p[0]] + p[1..] == cur + p;
      SplitFromLast(p[1..], sep, cur + [p[0]]);
    }
  }

  /** The converse of SplitOnSpec: splitting a join of leftmost pieces gives the pieces back. */
  lemma {:induction false} SplitOnJoin(pieces: seq<string>, sep: string)
    requires sep != [] && pieces != []
    requires LeftmostPieces(pieces, sep)
    ensures SplitOn(Join(pieces, sep), sep) == pieces
    decreases |pieces|
  {
    if |pieces| == 1 {
      assert [] + pieces[0] == pieces[0];
      SplitFromLast(pieces[0], sep, []);
    } else {
      assert [] + pieces[0] + sep == pieces[0] + sep;
      SplitFromPiece(pieces[0], Join(pieces[1..], sep), sep, []);
      assert LeftmostPieces(pieces[1..], sep) by {
        forall i | 0 <= i < |pieces[1..]| - 1
          ensures FreeBefore(pieces[1..][i] + sep, sep, |pieces[1..][i]|)
        {
          assert pieces[1..][i] == pieces[i + 1];
        }
      }
      SplitOnJoin(pieces[1..], sep);
      assert Join(pieces, sep) == pieces[0] + sep + Join(pieces[1..], sep);
      assert [] + pieces[0] == pieces[0];
      assert pieces == [pieces[0]] + pieces[1..];
    }
  }

  /** No piece of a leftmost split holds the separator. */
  lemma LeftmostPiecesFree(pieces: seq<string>, sep: string)
    requires sep != [] && LeftmostPieces(pieces, sep)
    ensures forall i :: 0 <= i < |pieces| ==> !Contains(pieces[i], sep)
  {
    forall i, k | 0 <= i < |pieces| && 0 <= k <= |pieces[i]| - |sep|
      ensures !OccursAt(pieces[i], sep, k)
    {
      if i < |pieces| - 1 {
        assert !OccursAt(pieces[i] + sep, sep, k);
        assert (pieces[i] + sep)[k..k + |sep|] == pieces[i][k..k + |sep|];
      }
    }
  }

  /** Where Strip cuts: after the leading and before the trailing whitespace. */
  lemma StripSlice(s: string)
    requires StripStart(s) < |s|
    ensures StripStart(s) < StripEnd(s)
    ensures Strip(s) == s[StripStart(s)..StripEnd(s)]
  {
    assert !IsSpace(s[StripStart(s)]);
  }

  /** Strip removes whitespace only, and only at the two ends: together with the ensures of
      Strip this determines its result. */
  lemma StripRemovesOnlyEndSpace(s: string)
    ensures exists a, b :: 0 <= a <= b <= |s| && Strip(s) == s[a..b] && AllSpace(s[..a]) && AllSpace(s[b..])
  {
    var a, b := StripStart(s), StripEnd(s);
    if a < |s| {
      StripSlice(s);
      assert AllSpace(s[..a]) by {
        forall k | 0 <= k < a ensures IsSpace(s[..a][k]) { assert s[..a][k] == s[k]; }
      }
      assert AllSpace(s[b..]) by {
        forall k | 0 <= k < |s| - b ensures IsSpace(s[b..][k]) { assert s[b..][k] == s[b + k]; }
      }
      assert Strip(s) == s[a..b];
    } else {
      assert s[..|s|] == s;
      assert Strip(s) == s[|s|..|s|] && AllSpace(s[..|s|]) && AllSpace(s[|s|..]);
    }
  }

  lemma SliceOfSlice(s: string, a: nat, b: nat, k: nat, n: nat)
    requires a <= b <= |s| && k + n <= b - a
    ensures s[a..b][k..k + n] == s[a + k..a + k + n]
  {
    var x, y := s[a..b][k..k + n], s[a + k..a + k + n];
    forall i | 0 <= i < n ensures x[i] == y[i] { }
  }

  /** An infix of a string without `w` is without `w`. */
  lemma InfixKeepsAbsence(s: string, w: string, a: nat, b: nat)
    requires a <= b <= |s|
    requires !Contains(s, w)
    ensures !Contains(s[a..b], w)
  {
    var r := s[a..b];
    forall k | 0 <= k <= |r| - |w| ensures !OccursAt(r, w, k) {
      assert !OccursAt(s, w, a + k);
      SliceOfSlice(s, a, b, k, |w|);
    }
  }

  /** Stripping cannot create an occurrence of `w`. */
  lemma StripKeepsAbsence(s: string, w: string)
    requires w != [] && !Contains(s, w)
    ensures !Contains(Strip(s), w)
  {
    if StripStart(s) < |s| {
      StripSlice(s);
      InfixKeepsAbsence(s, w, StripStart(s), StripEnd(s));
    }
  }

  // ---------------------------------------------------------------------------
  // Decimal rendering of a non-negative integer, as in `f"{n}"`

  predicate IsDigit(c: char) {
    '0' <= c <= '9'
  }

  function DigitChar(d: nat): (c: char)
    requires d < 10
    ensures IsDigit(c)
  {
    ('0' as int + d) as char
  }

  function NatToString(n: nat): (s: string)
    ensures s != []
    ensures forall k :: 0 <= k < |s| ==> IsDigit(s[k])
    ensures |s| > 1 ==> s[0] != '0'
  {
    if n < 10 then [DigitChar(n)] else NatToString(n / 10) + [DigitChar(n % 10)]
  }

  /** The value of a string of decimal digits, the inverse of NatToString. */
  function DecimalValue(s: string): nat
    requires forall k :: 0 <= k < |s| ==> IsDigit(s[k])
  {
    if s == [] then 0
    else assert IsDigit(s[|s| - 1]); DecimalValue(s[..|s| - 1]) * 10 + (s[|s| - 1] as int - '0' as int)
  }

  lemma {:induction false} DecimalValueOfNatToString(n: nat)
    ensures DecimalValue(NatToString(n)) == n
  {
    if n >= 10 {
      var s := NatToString(n);
      assert s[..|s| - 1] == NatToString(n / 10);
      DecimalValueOfNatToString(n / 10);
    }
  }

  // ---------------------------------------------------------------------------
  // ASCII case mapping

  function LowerChar(c: char): char {
    if 'A' <= c <= 'Z' then (c as int + 32) as char else c
  }

  function UpperChar(c: char): char {
    if 'a' <= c <= 'z' then (c as int - 32) as char else c
  }

  /** `s.lower()` on ASCII letters; other characters are kept. */
  function Lower(s: string): (r: string)
    ensures |r| == |s|
    ensures forall k :: 0 <= k < |s| ==> r[k] == LowerChar(s[k])
  {
    if s == [] then [] else [LowerChar(s[0])] + Lower(s[1..])
  }

  /** `s.upper()` on ASCII letters; other characters are kept. */
  function Upper(s: string): (r: string)
    ensures |r| == |s|
    ensures forall k :: 0 <= k < |s| ==> r[k] == UpperChar(s[k])
  {
    if s == [] then [] else [UpperChar(s[0])] + Upper(s[1..])
  }

  /** Upper-casing ignores a prior lower-casing. */
  lemma UpperOfLower(s: string)
    ensures Upper(Lower(s)) == Upper(s)
  {
  }

  /** `s.replace(c, "")`. */
  function Remove(s: string, c: char): (r: string)
    ensures c !in r && |r| <= |s|
    ensures forall x :: x in s && x != c ==> x in r
    ensures forall x :: x in r ==> x in s
  {
    if s == [] then [] else (if s[0] == c then [] else [s[0]]) + Remove(s[1..], c)
  }

  /** Removing a character keeps every other character exactly as many times as it occurs. */
  lemma {:induction false} RemoveCounts(s: string, c: char)
    ensures multiset(Remove(s, c)) == multiset(s)[c := 0]
  {
    if s != [] {
      assert s == [s[0]] + s[1..];
      RemoveCounts(s[1..], c);
    }
  }

  /** Removing a character commutes with concatenation, so the characters that remain keep
      their order. */
  lemma {:induction false} RemoveConcat(s: string, t: string, c: char)
    ensures Remove(s + t, c) == Remove(s, c) + Remove(t, c)
  {
    if s != [] {
      assert (s + t)[1..] == s[1..] + t;
      RemoveConcat(s[1..], t, c);
    } else {
      assert s + t == t;
    }
  }
}
