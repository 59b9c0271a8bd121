/** The profile heuristic `parse_student_info` (ALICIA/ALICIA.py lines 97-124; the identical
    redefinition at lines 193-220 is the one the session calls). The two regular-expression
    searches are modelled as functions over the text: a leftmost search over positions, with
    `\b` over ASCII word characters and case-insensitive matching over ASCII letters. */
module StudentInfo {
  import opened Wrappers
  import opened Text

  // ---------------------------------------------------------------------------
  // Regular-expression building blocks

  /** `\w`, restricted to ASCII. */
  predicate IsWordChar(c: char) {
    'a' <= c <= 'z' || 'A' <= c <= 'Z' || IsDigit(c) || c == '_'
  }

  predicate WordAt(s: string, i: int) {
    0 <= i < |s| && IsWordChar(s[i])
  }

  /** `\b` before position p: a word character on exactly one side. */
  predicate Boundary(s: string, p: int) {
    WordAt(s, p - 1) != WordAt(s, p)
  }

  /** The lower-case literal `lit` matches at p under `re.I`. */
  predicate LiteralAt(s: string, p: int, lit: string) {
    0 <= p && p + |lit| <= |s| && Lower(s[p..p + |lit|]) == lit
  }

  /** `re.search`: the result at the leftmost position in p..end where `f` matches. */
  function Leftmost<T>(f: nat -> Option<T>, p: nat, end: nat): (r: Option<T>)
    requires p <= end + 1
    ensures r.Some? ==> exists q :: p <= q <= end && r == f(q) && forall q' :: p <= q' < q ==> f(q').None?
    ensures r.None? ==> forall q :: p <= q <= end ==> f(q).None?
    decreases end + 1 - p
  {
    if p > end then None
    else if f(p).Some? then f(p)
    else Leftmost(f, p + 1, end)
  }

  /** Conversely, a match at q with none before it is what the search returns. */
  lemma {:induction false} LeftmostAt<T>(f: nat -> Option<T>, p: nat, end: nat, q: nat)
    requires p <= q <= end
    requires f(q).Some? && forall q' :: p <= q' < q ==> f(q').None?
    ensures Leftmost(f, p, end) == f(q)
    decreases q - p
  {
    if p < q {
      LeftmostAt(f, p + 1, end, q);
    }
  }

  // ---------------------------------------------------------------------------
  // Program: `\b(PhD|PHD|MS|M\.?S\.?|Bachelor'?s?)\b` with re.I (line 107)

  /** The alternatives of the group, lower-cased, with each optional `\.?`, `'?` and `s?`
      expanded in the order the regex engine backtracks through them (taken first, then
      dropped). The first one followed by a word boundary is what group(1) captures. */
  const ProgramAlternatives: seq<string> :=
    [ "phd", "phd", "ms",
      "m.s.", "m.s", "ms.", "ms",
      "bachelor's", "bachelor'", "bachelors", "bachelor" ]

  /** `lit`, up to case, stands at p and is followed by a word boundary. */
  predicate TokenAt(s: string, p: nat, lit: string) {
    LiteralAt(s, p, lit) && Boundary(s, p + |lit|)
  }

  /** The text captured by the first of `alts`, from the k-th on, that stands at p as a
      token: the regex engine tries the alternatives of a group in order. */
  function FirstTokenIn(alts: seq<string>, s: string, p: nat, k: nat): (c: Option<string>)
    requires k <= |alts|
    ensures c.Some? ==> exists i :: k <= i < |alts| && Lower(c.value) == alts[i]
    ensures c.Some? ==> p + |c.value| <= |s| && c.value == s[p..p + |c.value|]
    decreases |alts| - k
  {
    if k == |alts| then None
    else if TokenAt(s, p, alts[k]) then Some(s[p..p + |alts[k]|])
    else FirstTokenIn(alts, s, p, k + 1)
  }

  /** There is no capture exactly when none of `alts` from the k-th on stands at p as a
      token. */
  lemma {:induction false} FirstTokenNone(alts: seq<string>, s: string, p: nat, k: nat)
    requires k <= |alts|
    ensures FirstTokenIn(alts, s, p, k).None? <==> forall i :: k <= i < |alts| ==> !TokenAt(s, p, alts[i])
    decreases |alts| - k
  {
    if k < |alts| && !TokenAt(s, p, alts[k]) {
      FirstTokenNone(alts, s, p, k + 1);
    }
  }

  /** A capture is the text of the first of `alts`, in order, that stands at p as a token:
      the i returned. */
  lemma {:induction false} FirstTokenIsFirst(alts: seq<string>, s: string, p: nat, k: nat) returns (i: nat)
    requires k <= |alts| && FirstTokenIn(alts, s, p, k).Some?
    ensures k <= i < |alts| && TokenAt(s, p, alts[i])
    ensures FirstTokenIn(alts, s, p, k).value == s[p..p + |alts[i]|]
    ensures forall i' :: k <= i' < i ==> !TokenAt(s, p, alts[i'])
    decreases |alts| - k
  {
    if TokenAt(s, p, alts[k]) {
      i := k;
    } else {
      i := FirstTokenIsFirst(alts, s, p, k + 1);
      forall i' | k <= i' < i ensures !TokenAt(s, p, alts[i']) {
        if i' == k {
        }
      }
    }
  }

  /** The capture of the first program alternative, from the k-th on, at p. */
  function FirstAlternative(s: string, p: nat, k: nat): (c: Option<string>)
    requires k <= |ProgramAlternatives|
    ensures c.Some? ==> exists i :: k <= i < |ProgramAlternatives| && Lower(c.value) == ProgramAlternatives[i]
    ensures c.Some? ==> p + |c.value| <= |s| && c.value == s[p..p + |c.value|]
  {
    FirstTokenIn(ProgramAlternatives, s, p, k)
  }

  /** The program group captures nothing at p exactly when no alternative stands there as a
      token; otherwise it captures the first one, in backtracking order, that does. So "PhDs"
      or "MSc" give no capture: the trailing `\b` fails after every alternative. */
  lemma FirstAlternativeIsFirst(s: string, p: nat) returns (i: nat)
    ensures FirstAlternative(s, p, 0).None? <==>
      forall i :: 0 <= i < |ProgramAlternatives| ==> !TokenAt(s, p, ProgramAlternatives[i])
    ensures FirstAlternative(s, p, 0).Some? ==>
      && i < |ProgramAlternatives| && TokenAt(s, p, ProgramAlternatives[i])
      && FirstAlternative(s, p, 0).value == s[p..p + |ProgramAlternatives[i]|]
      && forall i' :: 0 <= i' < i ==> !TokenAt(s, p, ProgramAlternatives[i'])
  {
    FirstTokenNone(ProgramAlternatives, s, p, 0);
    if FirstAlternative(s, p, 0).Some? {
      i := FirstTokenIsFirst(ProgramAlternatives, s, p, 0);
    } else {
      i := 0;
    }
  }

  /** The text group(1) captures when the program pattern matches at p. */
  function ProgramCaptureAt(s: string, p: nat): Option<string> {
    if Boundary(s, p) then FirstAlternative(s, p, 0) else None
  }

  /** Lines 109-111: upper-case, drop the periods, and turn anything starting with B into
      "Bachelor's". */
  function Canonical(captured: string): string {
    var prog := Remove(Upper(captured), '.');
    if |prog| > 0 && prog[0] == 'B' then "Bachelor's" else prog
  }

  /** `re.search` with the program pattern: the capture at the leftmost matching position. */
  function ProgramMatch(text: string): (m: Option<string>)
    ensures m.Some? ==> exists q :: (0 <= q <= |text| && m == ProgramCaptureAt(text, q) &&
                                     forall q' :: 0 <= q' < q ==> ProgramCaptureAt(text, q').None?)
    ensures m.None? ==> forall q :: 0 <= q <= |text| ==> ProgramCaptureAt(text, q).None?
  {
    var f: nat -> Option<string> := (q: nat) => ProgramCaptureAt(text, q);
    assert forall q: nat :: f(q) == ProgramCaptureAt(text, q);
    Leftmost(f, 0, |text|)
  }

  function ParseProgram(text: string): Option<string> {
    match ProgramMatch(text)
    case None => None
    case Some(c) => Some(Canonical(c))
  }

  // ---------------------------------------------------------------------------
  // Year: `\b([1-6])(?:st|nd|rd|th)?\s*year\b` with re.I (line 114), else class words

  const OrdinalSuffixes: seq<string> := ["st", "nd", "rd", "th"]

  /** `\s*year\b` from position q: any run of whitespace, then "year", then a boundary. */
  predicate YearWordAt(s: string, q: nat) {
    exists j :: q <= j <= |s| && AllSpace(s[q..j]) && LiteralAt(s, j, "year") && Boundary(s, j + 4)
  }

  /** The digit captured when the numeric-year pattern matches at p; the suffix is optional. */
  function YearMatchAt(s: string, p: nat): (y: Option<nat>)
    ensures y.Some? ==> 1 <= y.value <= 6
  {
    if && Boundary(s, p) && p < |s| && '1' <= s[p] <= '6'
       && ((exists i :: 0 <= i < |OrdinalSuffixes| && LiteralAt(s, p + 1, OrdinalSuffixes[i]) && YearWordAt(s, p + 3))
           || YearWordAt(s, p + 1))
    then Some(s[p] as int - '0' as int)
    else None
  }

  /** `re.search` with the numeric-year pattern: the digit at the leftmost matching position. */
  function NumericYear(text: string): (y: Option<nat>)
    ensures y.Some? ==> exists q :: (0 <= q <= |text| && y == YearMatchAt(text, q) &&
                                     forall q' :: 0 <= q' < q ==> YearMatchAt(text, q').None?)
    ensures y.None? ==> forall q :: 0 <= q <= |text| ==> YearMatchAt(text, q).None?
  {
    var f: nat -> Option<nat> := (q: nat) => YearMatchAt(text, q);
    assert forall q: nat :: f(q) == YearMatchAt(text, q);
    Leftmost(f, 0, |text|)
  }

  /** Line 119, in the dictionary's (insertion) order. */
  const ClassWords: seq<(string, nat)> := [("freshman", 1), ("sophomore", 2), ("junior", 3), ("senior", 4)]

  /** The year of the first class word, in dictionary order from position i, that occurs
      anywhere in `lowered` as a substring. */
  function ClassWordYearFrom(lowered: string, i: nat): Option<nat>
    decreases |ClassWords| - i
  {
    if i >= |ClassWords| then None
    else if Contains(lowered, ClassWords[i].0) then Some(ClassWords[i].1)
    else ClassWordYearFrom(lowered, i + 1)
  }

  /** What `parse_student_info(text)` returns: the program and the year, each optional.
      The numeric pattern takes precedence; class words are the fallback. */
  function ParsedInfo(text: string): (Option<string>, Option<nat>) {
    var numeric := NumericYear(text);
    (ParseProgram(text), if numeric.Some? then numeric else ClassWordYearFrom(Lower(text), 0))
  }

  /** Lines 97-124: the two regex searches, then the loop over the class words that stops at
      the first hit. */
  method ParseStudentInfo(text: string) returns (prog: Option<string>, year: Option<nat>)
    ensures (prog, year) == ParsedInfo(text)
  {
    prog, year := None, None;
    var programMatch := ProgramMatch(text);
    if programMatch.Some? {
      prog := Some(Canonical(programMatch.value));
    }
    var yearMatch := NumericYear(text);
    if yearMatch.Some? {
      year := yearMatch;
    } else {
      var lowered := Lower(text);
      var i := 0;
      while i < |ClassWords|
        invariant 0 <= i <= |ClassWords|
        invariant year == None
        invariant ClassWordYearFrom(lowered, 0) == ClassWordYearFrom(lowered, i)
      {
        if Contains(lowered, ClassWords[i].0) {
          year := Some(ClassWords[i].1);
          break;
        }
        i := i + 1;
      }
    }
  }

  // ---------------------------------------------------------------------------
  // Properties

  /** Canonicalising depends on the captured text only up to case. */
  lemma CanonicalIgnoresCase(c: string)
    ensures Canonical(Lower(c)) == Canonical(c)
  {
    UpperOfLower(c);
  }

  lemma CanonicalPhd()
    ensures Canonical("phd") == "PHD"
  {
  }

  lemma CanonicalMs()
    ensures Canonical("ms") == Canonical("m.s.") == Canonical("m.s") == Canonical("ms.") == "MS"
  {
    assert Upper("ms") == "MS";
    assert Upper("m.s.") == "M.S.";
    assert Upper("m.s") == "M.S";
    assert Upper("ms.") == "MS.";
  }

  /** Anything starting with a b becomes "Bachelor's" (lines 110-111). */
  lemma CanonicalOfB(c: string)
    requires c != [] && LowerChar(c[0]) == 'b'
    ensures Canonical(c) == "Bachelor's"
  {
    var u := Upper(c);
    assert u[0] == 'B';
    assert Remove(u, '.') == [u[0]] + Remove(u[1..], '.');
  }

  /** Which family each alternative belongs to. */
  lemma AlternativeFamilies(i: nat)
    requires i < |ProgramAlternatives|
    ensures i < 2 ==> ProgramAlternatives[i] == "phd"
    ensures 2 <= i < 7 ==> ProgramAlternatives[i] in {"ms", "m.s.", "m.s", "ms."}
    ensures 7 <= i ==> ProgramAlternatives[i][0] == 'b'
    ensures |ProgramAlternatives[i]| >= 2 && ProgramAlternatives[i][1] in {'h', 's', '.', 'a'}
  {
  }

  /** Each alternative canonicalises to one of the three names. */
  lemma CanonicalOfAlternative(i: nat)
    requires i < |ProgramAlternatives|
    ensures Canonical(ProgramAlternatives[i]) in {"PHD", "MS", "Bachelor's"}
  {
    AlternativeFamilies(i);
    if i < 2 {
      CanonicalPhd();
    } else if i < 7 {
      CanonicalMs();
    } else {
      CanonicalOfB(ProgramAlternatives[i]);
    }
  }

  /** Whatever the program pattern captures canonicalises to "PHD", "MS" or "Bachelor's". */
  lemma CanonicalOfCapture(c: string)
    requires exists i :: 0 <= i < |ProgramAlternatives| && Lower(c) == ProgramAlternatives[i]
    ensures Canonical(c) in {"PHD", "MS", "Bachelor's"}
  {
    var i :| 0 <= i < |ProgramAlternatives| && Lower(c) == ProgramAlternatives[i];
    CanonicalIgnoresCase(c);
    CanonicalOfAlternative(i);
  }

  /** The program is absent or one of the three canonical names (lines 107-111). */
  lemma ProgramIsCanonical(text: string)
    ensures ParseProgram(text).Some? ==> ParseProgram(text).value in {"PHD", "MS", "Bachelor's"}
  {
    var m := ProgramMatch(text);
    if m.Some? {
      var q :| 0 <= q <= |text| && m == ProgramCaptureAt(text, q);
      CanonicalOfCapture(m.value);
    }
  }

  /** The program pattern can only match where a p, m or b (any case) stands at a word
      boundary, followed by an h, s, "." or a. */
  lemma ProgramMatchStart(s: string, p: nat)
    requires ProgramCaptureAt(s, p).Some?
    ensures Boundary(s, p) && p < |s| && LowerChar(s[p]) in {'p', 'm', 'b'}
    ensures p + 1 < |s| && LowerChar(s[p + 1]) in {'h', 's', '.', 'a'}
  {
    var c := ProgramCaptureAt(s, p).value;
    var i :| 0 <= i < |ProgramAlternatives| && Lower(c) == ProgramAlternatives[i];
    AlternativeFamilies(i);
    assert |c| == |ProgramAlternatives[i]| > 1;
    assert c[0] == s[p] && c[1] == s[p + 1];
    assert Lower(c)[0] == LowerChar(s[p]);
    assert Lower(c)[1] == LowerChar(s[p + 1]);
  }

  /** `parse_student_info` finds a program exactly when the pattern matches somewhere, and then
      it is the canonical name of the leftmost match. */
  lemma ProgramIsLeftmost(text: string)
    ensures ParseProgram(text).Some? <==> exists q :: 0 <= q <= |text| && ProgramCaptureAt(text, q).Some?
    ensures ParseProgram(text).Some? ==>
      exists q :: (0 <= q <= |text| && ProgramCaptureAt(text, q).Some? &&
                   ParseProgram(text).value == Canonical(ProgramCaptureAt(text, q).value) &&
                   forall q' :: 0 <= q' < q ==> ProgramCaptureAt(text, q').None?)
  {
    var m := ProgramMatch(text);
    if m.Some? {
      var q :| 0 <= q <= |text| && m == ProgramCaptureAt(text, q) &&
        forall q' :: 0 <= q' < q ==> ProgramCaptureAt(text, q').None?;
      assert ProgramCaptureAt(text, q).Some?;
    }
  }

  /** Conversely, the capture at the first position where the pattern matches is the one
      the search returns. */
  lemma ProgramMatchAt(text: string, q: nat)
    requires q <= |text| && ProgramCaptureAt(text, q).Some?
    requires forall q' :: 0 <= q' < q ==> ProgramCaptureAt(text, q').None?
    ensures ProgramMatch(text) == ProgramCaptureAt(text, q)
  {
    var m := ProgramMatch(text);
    if m.Some? {
      var r :| 0 <= r <= |text| && m == ProgramCaptureAt(text, r) &&
        forall q' :: 0 <= q' < r ==> ProgramCaptureAt(text, q').None?;
    }
  }

  /** Likewise for the numeric year. */
  lemma NumericYearAt(text: string, q: nat)
    requires q <= |text| && YearMatchAt(text, q).Some?
    requires forall q' :: 0 <= q' < q ==> YearMatchAt(text, q').None?
    ensures NumericYear(text) == YearMatchAt(text, q)
  {
    var y := NumericYear(text);
    if y.Some? {
      var r :| 0 <= r <= |text| && y == YearMatchAt(text, r) &&
        forall q' :: 0 <= q' < r ==> YearMatchAt(text, q').None?;
    }
  }

  /** Class words are tried in dictionary order and the first one that occurs anywhere in the
      lower-cased text, as a plain substring, gives the year. */
  lemma {:induction false} ClassWordIsFirstHit(lowered: string, i: nat)
    requires i <= |ClassWords|
    ensures ClassWordYearFrom(lowered, i).None? <==>
      forall k :: i <= k < |ClassWords| ==> !Contains(lowered, ClassWords[k].0)
    ensures forall k :: (i <= k < |ClassWords| && Contains(lowered, ClassWords[k].0) &&
                         (forall k' :: i <= k' < k ==> !Contains(lowered, ClassWords[k'].0)))
                        ==> ClassWordYearFrom(lowered, i) == Some(ClassWords[k].1)
    decreases |ClassWords| - i
  {
    if i < |ClassWords| {
      ClassWordIsFirstHit(lowered, i + 1);
    }
  }

  /** The year is absent or in 1..6; a numeric match takes precedence, and a year taken from a
      class word is in 1..4 (lines 113-123). */
  lemma YearInRange(text: string)
    ensures ParsedInfo(text).1.Some? ==> 1 <= ParsedInfo(text).1.value <= 6
    ensures NumericYear(text).Some? ==> ParsedInfo(text).1 == NumericYear(text)
    ensures NumericYear(text).None? && ParsedInfo(text).1.Some? ==> ParsedInfo(text).1.value <= 4
  {
    var m := NumericYear(text);
    if m.Some? {
      var q :| 0 <= q <= |text| && m == YearMatchAt(text, q);
    } else {
      ClassWordBounded(Lower(text), 0);
    }
  }

  lemma {:induction false} ClassWordBounded(lowered: string, i: nat)
    ensures ClassWordYearFrom(lowered, i).Some? ==> 1 <= ClassWordYearFrom(lowered, i).value <= 4
    decreases |ClassWords| - i
  {
    if i < |ClassWords| {
      ClassWordBounded(lowered, i + 1);
    }
  }
}
