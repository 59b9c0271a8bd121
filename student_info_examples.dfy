/** What the profile heuristic returns for concrete messages, proved. Each message gets a lemma that
    lays out its characters; the general lemmas before them turn character facts into
    matches of the two patterns. */
module StudentInfoExamples {
  import opened Wrappers
  import opened Text
  import opened StudentInfo

  // ---------------------------------------------------------------------------
  // From characters to matches

  /** A literal matches where each of its characters stands, up to case. */
  lemma LiteralFromChars(s: string, p: nat, lit: string)
    requires p + |lit| <= |s|
    requires forall j :: 0 <= j < |lit| ==> LowerChar(s[p + j]) == lit[j]
    ensures LiteralAt(s, p, lit)
  {
    var lowered := Lower(s[p..p + |lit|]);
    forall j | 0 <= j < |lit| ensures lowered[j] == lit[j] {
      assert s[p..p + |lit|][j] == s[p + j];
    }
  }

  /** A lower-case word standing at k in the text, in any case, occurs in its lowered form. */
  lemma ContainsLower(s: string, w: string, k: nat)
    requires k + |w| <= |s|
    requires forall j :: 0 <= j < |w| ==> LowerChar(s[k + j]) == w[j]
    ensures Contains(Lower(s), w)
  {
    var piece := Lower(s)[k..k + |w|];
    forall j | 0 <= j < |w| ensures piece[j] == w[j] {
    }
    assert piece == w;
    assert OccursAt(Lower(s), w, k);
  }

  /** A character that no occurrence can start with rules the word out. */
  lemma AbsentFirstLower(s: string, w: string)
    requires w != [] && forall i :: 0 <= i < |s| ==> LowerChar(s[i]) != w[0]
    ensures !Contains(Lower(s), w)
  {
    var lowered := Lower(s);
    forall k | 0 <= k <= |lowered| - |w| ensures !OccursAt(lowered, w, k) {
      assert lowered[k..k + |w|][0] == lowered[k];
    }
  }

  /** `\s*year\b` where one whitespace character precedes "year". */
  lemma YearWordAfterSpace(s: string, q: nat)
    requires q + 5 <= |s| && IsSpace(s[q])
    requires LowerChar(s[q + 1]) == 'y' && LowerChar(s[q + 2]) == 'e'
    requires LowerChar(s[q + 3]) == 'a' && LowerChar(s[q + 4]) == 'r'
    requires !WordAt(s, q + 5)
    ensures YearWordAt(s, q)
  {
    LiteralFromChars(s, q + 1, "year");
    assert AllSpace(s[q..q + 1]);
    assert WordAt(s, q + 4);
  }

  /** The numeric year pattern at p, with the i-th ordinal suffix. */
  lemma YearWithSuffix(s: string, p: nat, i: nat)
    requires i < |OrdinalSuffixes| && p + 3 <= |s|
    requires !WordAt(s, p - 1) && '1' <= s[p] <= '6'
    requires LowerChar(s[p + 1]) == OrdinalSuffixes[i][0] && LowerChar(s[p + 2]) == OrdinalSuffixes[i][1]
    requires YearWordAt(s, p + 3)
    ensures YearMatchAt(s, p) == Some(s[p] as int - '0' as int)
  {
    assert |OrdinalSuffixes[i]| == 2;
    LiteralFromChars(s, p + 1, OrdinalSuffixes[i]);
    assert WordAt(s, p);
  }

  /** The numeric year pattern at p, without a suffix. */
  lemma YearWithoutSuffix(s: string, p: nat)
    requires p < |s| && !WordAt(s, p - 1) && '1' <= s[p] <= '6'
    requires YearWordAt(s, p + 1)
    ensures YearMatchAt(s, p) == Some(s[p] as int - '0' as int)
  {
    assert WordAt(s, p);
  }

  /** Without a digit 1..6 before n the year pattern cannot match there. */
  lemma NoYearBefore(s: string, n: nat)
    requires n <= |s|
    requires forall q :: 0 <= q < n ==> !('1' <= s[q] <= '6')
    ensures forall q :: 0 <= q < n ==> YearMatchAt(s, q).None?
  {
  }

  /** Without a digit 1..6 anywhere the numeric year pattern finds nothing. */
  lemma NoNumericYear(s: string)
    requires forall q :: 0 <= q < |s| ==> !('1' <= s[q] <= '6')
    ensures NumericYear(s).None?
  {
  }

  /** Alternatives whose first letter differs from the one at p are passed over. */
  lemma {:induction false} SkipAlternatives(s: string, p: nat, k: nat)
    requires p < |s| && k <= |ProgramAlternatives|
    requires forall j :: 0 <= j < k ==> ProgramAlternatives[j] != [] && ProgramAlternatives[j][0] != LowerChar(s[p])
    ensures FirstAlternative(s, p, 0) == FirstAlternative(s, p, k)
    decreases k
  {
    if k > 0 {
      SkipAlternatives(s, p, k - 1);
      var lit := ProgramAlternatives[k - 1];
      if p + |lit| <= |s| {
        assert Lower(s[p..p + |lit|])[0] == LowerChar(s[p]);
      }
    }
  }

  /** The program pattern cannot match before n when no p, m or b starts a word there. */
  lemma NoProgramBefore(s: string, n: nat)
    requires n <= |s|
    requires forall q :: 0 <= q < n && Boundary(s, q) ==> LowerChar(s[q]) !in {'p', 'm', 'b'}
    ensures forall q :: 0 <= q < n ==> ProgramCaptureAt(s, q).None?
  {
    forall q | 0 <= q < n ensures ProgramCaptureAt(s, q).None? {
      if ProgramCaptureAt(s, q).Some? {
        ProgramMatchStart(s, q);
      }
    }
  }

  /** No p, m or b at a word start is followed by an h, s, "." or a: no program at all. */
  lemma NoProgram(s: string)
    requires forall q :: (0 <= q < |s| - 1 && Boundary(s, q) && LowerChar(s[q]) in {'p', 'm', 'b'}
                          ==> LowerChar(s[q + 1]) !in {'h', 's', '.', 'a'})
    ensures ParseProgram(s).None?
  {
    forall q | 0 <= q <= |s| ensures ProgramCaptureAt(s, q).None? {
      if ProgramCaptureAt(s, q).Some? {
        ProgramMatchStart(s, q);
      }
    }
  }

  /** A token standing at p is captured when the search reaches it. */
  lemma FirstTokenAt(alts: seq<string>, s: string, p: nat, k: nat)
    requires k < |alts| && TokenAt(s, p, alts[k])
    ensures FirstTokenIn(alts, s, p, k) == Some(s[p..p + |alts[k]|])
  {
  }

  /** When the search from the first alternative finds what the search from the k-th finds,
      and the k-th matches, the capture is the k-th alternative up to case. */
  lemma FirstTokenOf(alts: seq<string>, s: string, p: nat, k: nat) returns (c: string)
    requires k < |alts| && TokenAt(s, p, alts[k])
    requires FirstTokenIn(alts, s, p, 0) == FirstTokenIn(alts, s, p, k)
    ensures FirstTokenIn(alts, s, p, 0) == Some(c) && Lower(c) == alts[k]
  {
    c := s[p..p + |alts[k]|];
    FirstTokenAt(alts, s, p, k);
  }

  /** When the k-th alternative is the first to match at p, and nothing matches earlier, the
      program is the canonical name of that alternative. */
  lemma ProgramAt(s: string, p: nat, k: nat)
    requires k < |ProgramAlternatives|
    requires Boundary(s, p) && LiteralAt(s, p, ProgramAlternatives[k])
    requires Boundary(s, p + |ProgramAlternatives[k]|)
    requires FirstAlternative(s, p, 0) == FirstAlternative(s, p, k)
    requires forall q :: 0 <= q < p ==> ProgramCaptureAt(s, q).None?
    ensures ParseProgram(s) == Some(Canonical(ProgramAlternatives[k]))
  {
    var c := FirstTokenOf(ProgramAlternatives, s, p, k);
    ProgramMatchAt(s, p);
    CanonicalIgnoresCase(c);
  }

  // ---------------------------------------------------------------------------
  // "I am a 3rd year PhD student" gives ("PHD", 3).

  const Third := "I am a 3rd year PhD student"

  lemma ThirdChars()
    ensures |Third| == 27
    ensures Third[0] == 'I' && Third[1] == ' ' && Third[2] == 'a' && Third[3] == 'm'
    ensures Third[4] == ' ' && Third[5] == 'a' && Third[6] == ' ' && Third[7] == '3'
    ensures Third[8] == 'r' && Third[9] == 'd' && Third[10] == ' ' && Third[11] == 'y'
    ensures Third[12] == 'e' && Third[13] == 'a' && Third[14] == 'r' && Third[15] == ' '
    ensures Third[16] == 'P' && Third[17] == 'h' && Third[18] == 'D' && Third[19] == ' '
  {
    ThirdHead();
    ThirdMiddle();
  }

  lemma ThirdHead()
    ensures |Third| == 27
    ensures Third[0] == 'I' && Third[1] == ' ' && Third[2] == 'a' && Third[3] == 'm'
    ensures Third[4] == ' ' && Third[5] == 'a' && Third[6] == ' ' && Third[7] == '3'
  {
  }

  lemma ThirdMiddle()
    ensures Third[8] == 'r' && Third[9] == 'd' && Third[10] == ' ' && Third[11] == 'y'
    ensures Third[12] == 'e' && Third[13] == 'a' && Third[14] == 'r' && Third[15] == ' '
  {
  }

  lemma ThirdPlainStart()
    ensures forall q :: 0 <= q < 7 ==> !('1' <= Third[q] <= '6')
    ensures forall q :: 0 <= q < 16 && Boundary(Third, q) ==> LowerChar(Third[q]) !in {'p', 'm', 'b'}
  {
    ThirdChars();
  }

  lemma ThirdYear()
    ensures NumericYear(Third) == Some(3)
  {
    ThirdChars();
    YearWordAfterSpace(Third, 10);
    YearWithSuffix(Third, 7, 2);
    ThirdPlainStart();
    NoYearBefore(Third, 7);
    NumericYearAt(Third, 7);
  }

  lemma ThirdProgram()
    ensures ParseProgram(Third) == Some("PHD")
  {
    ThirdChars();
    LiteralFromChars(Third, 16, "phd");
    ThirdPlainStart();
    NoProgramBefore(Third, 16);
    ProgramAt(Third, 16, 0);
    CanonicalPhd();
  }

  lemma ThirdYearPhd()
    ensures ParsedInfo(Third) == (Some("PHD"), Some(3))
  {
    ThirdProgram();
    ThirdYear();
  }

  // ---------------------------------------------------------------------------
  // "I'm a sophomore" gives (None, 2): the apostrophe makes the "m" a word start, but no
  // alternative matches there.

  const Sophomore := "I'm a sophomore"

  lemma SophomoreChars()
    ensures |Sophomore| == 15
    ensures Sophomore[0] == 'I' && Sophomore[1] == '\'' && Sophomore[2] == 'm' && Sophomore[3] == ' '
    ensures Sophomore[4] == 'a' && Sophomore[5] == ' ' && Sophomore[6] == 's' && Sophomore[7] == 'o'
    ensures Sophomore[8] == 'p' && Sophomore[9] == 'h' && Sophomore[10] == 'o' && Sophomore[11] == 'm'
    ensures Sophomore[12] == 'o' && Sophomore[13] == 'r' && Sophomore[14] == 'e'
  {
  }

  lemma SophomoreLetters()
    ensures forall q :: 0 <= q < |Sophomore| ==> !('1' <= Sophomore[q] <= '6')
    ensures forall q :: 0 <= q < |Sophomore| ==> LowerChar(Sophomore[q]) != 'f'
    ensures forall q :: (0 <= q < |Sophomore| - 1 && Boundary(Sophomore, q) && LowerChar(Sophomore[q]) in {'p', 'm', 'b'}
                         ==> LowerChar(Sophomore[q + 1]) !in {'h', 's', '.', 'a'})
  {
    SophomoreChars();
  }

  lemma SophomoreNoFreshman()
    ensures !Contains(Lower(Sophomore), "freshman")
  {
    SophomoreLetters();
    AbsentFirstLower(Sophomore, "freshman");
  }

  lemma SophomoreHasWord()
    ensures Contains(Lower(Sophomore), "sophomore")
  {
    SophomoreChars();
    ContainsLower(Sophomore, "sophomore", 6);
  }

  lemma SophomoreClassWord()
    ensures ClassWordYearFrom(Lower(Sophomore), 0) == Some(2)
  {
    SophomoreNoFreshman();
    SophomoreHasWord();
  }

  lemma SophomoreYear()
    ensures ParsedInfo(Sophomore) == (None, Some(2))
  {
    SophomoreLetters();
    NoProgram(Sophomore);
    NoNumericYear(Sophomore);
    SophomoreClassWord();
  }

  // ---------------------------------------------------------------------------
  // "MS, 2nd year" gives ("MS", 2).

  const Masters := "MS, 2nd year"

  lemma MastersChars()
    ensures |Masters| == 12
    ensures Masters[0] == 'M' && Masters[1] == 'S' && Masters[2] == ',' && Masters[3] == ' '
    ensures Masters[4] == '2' && Masters[5] == 'n' && Masters[6] == 'd' && Masters[7] == ' '
    ensures Masters[8] == 'y' && Masters[9] == 'e' && Masters[10] == 'a' && Masters[11] == 'r'
  {
  }

  lemma MastersProgram()
    ensures ParseProgram(Masters) == Some("MS")
  {
    MastersChars();
    LiteralFromChars(Masters, 0, "ms");
    SkipAlternatives(Masters, 0, 2);
    ProgramAt(Masters, 0, 2);
    CanonicalMs();
  }

  lemma MastersYear()
    ensures NumericYear(Masters) == Some(2)
  {
    MastersChars();
    YearWordAfterSpace(Masters, 7);
    YearWithSuffix(Masters, 4, 1);
    NoYearBefore(Masters, 4);
    NumericYearAt(Masters, 4);
  }

  lemma MastersSecondYear()
    ensures ParsedInfo(Masters) == (Some("MS"), Some(2))
  {
    MastersProgram();
    MastersYear();
  }

  // ---------------------------------------------------------------------------
  // "4th year Bachelor's student" gives ("Bachelor's", 4).

  const Bachelors := "4th year Bachelor's student"

  lemma BachelorsChars()
    ensures |Bachelors| == 27
    ensures Bachelors[0] == '4' && Bachelors[1] == 't' && Bachelors[2] == 'h' && Bachelors[3] == ' '
    ensures Bachelors[4] == 'y' && Bachelors[5] == 'e' && Bachelors[6] == 'a' && Bachelors[7] == 'r'
    ensures Bachelors[8] == ' ' && Bachelors[9] == 'B' && Bachelors[10] == 'a' && Bachelors[11] == 'c'
    ensures Bachelors[12] == 'h' && Bachelors[13] == 'e' && Bachelors[14] == 'l' && Bachelors[15] == 'o'
    ensures Bachelors[16] == 'r' && Bachelors[17] == '\'' && Bachelors[18] == 's' && Bachelors[19] == ' '
  {
    BachelorsHead();
    BachelorsMiddle();
  }

  lemma BachelorsHead()
    ensures |Bachelors| == 27
    ensures Bachelors[0] == '4' && Bachelors[1] == 't' && Bachelors[2] == 'h' && Bachelors[3] == ' '
    ensures Bachelors[4] == 'y' && Bachelors[5] == 'e' && Bachelors[6] == 'a' && Bachelors[7] == 'r'
  {
  }

  lemma BachelorsMiddle()
    ensures Bachelors[8] == ' ' && Bachelors[9] == 'B' && Bachelors[10] == 'a' && Bachelors[11] == 'c'
    ensures Bachelors[12] == 'h' && Bachelors[13] == 'e' && Bachelors[14] == 'l' && Bachelors[15] == 'o'
  {
  }

  lemma BachelorsPlainStart()
    ensures forall q :: 0 <= q < 9 && Boundary(Bachelors, q) ==> LowerChar(Bachelors[q]) !in {'p', 'm', 'b'}
  {
    BachelorsChars();
  }

  lemma BachelorsProgram()
    ensures ParseProgram(Bachelors) == Some("Bachelor's")
  {
    BachelorsChars();
    LiteralFromChars(Bachelors, 9, "bachelor's");
    SkipAlternatives(Bachelors, 9, 7);
    BachelorsPlainStart();
    NoProgramBefore(Bachelors, 9);
    ProgramAt(Bachelors, 9, 7);
    CanonicalOfB(ProgramAlternatives[7]);
  }

  lemma BachelorsYear()
    ensures NumericYear(Bachelors) == Some(4)
  {
    BachelorsChars();
    YearWordAfterSpace(Bachelors, 3);
    YearWithSuffix(Bachelors, 0, 3);
    NumericYearAt(Bachelors, 0);
  }

  lemma BachelorsFourthYear()
    ensures ParsedInfo(Bachelors) == (Some("Bachelor's"), Some(4))
  {
    BachelorsProgram();
    BachelorsYear();
  }

  // ---------------------------------------------------------------------------
  // The trailing word boundary: "PhDs" gives no program, since no alternative is followed
  // by a boundary there.

  const Plural := "PhDs"

  lemma PluralChars()
    ensures |Plural| == 4 && Plural[0] == 'P' && Plural[1] == 'h' && Plural[2] == 'D' && Plural[3] == 's'
  {
  }

  lemma PluralNoToken(i: nat)
    requires i < |ProgramAlternatives|
    ensures !TokenAt(Plural, 0, ProgramAlternatives[i])
  {
    PluralChars();
    AlternativeFamilies(i);
    var lit := ProgramAlternatives[i];
    if LiteralAt(Plural, 0, lit) {
      assert Lower(Plural[0..|lit|])[0] == 'p';
      assert WordAt(Plural, 2) && WordAt(Plural, 3);
    }
  }

  lemma PluralNoProgram()
    ensures ParseProgram(Plural).None?
  {
    forall q | 0 <= q <= |Plural| ensures ProgramCaptureAt(Plural, q).None? {
      PluralChars();
      if q == 0 {
        forall i | 0 <= i < |ProgramAlternatives| ensures !TokenAt(Plural, 0, ProgramAlternatives[i]) {
          PluralNoToken(i);
        }
        var i := FirstAlternativeIsFirst(Plural, 0);
      } else if ProgramCaptureAt(Plural, q).Some? {
        ProgramMatchStart(Plural, q);
      }
    }
  }

  // ---------------------------------------------------------------------------
  // The ordinal suffix is optional: "3 year" gives year 3.

  const NoSuffix := "3 year"

  lemma NoSuffixYear()
    ensures NumericYear(NoSuffix) == Some(3)
  {
    assert |NoSuffix| == 6 && NoSuffix[0] == '3' && NoSuffix[1] == ' ';
    assert NoSuffix[2] == 'y' && NoSuffix[3] == 'e' && NoSuffix[4] == 'a' && NoSuffix[5] == 'r';
    YearWordAfterSpace(NoSuffix, 1);
    YearWithoutSuffix(NoSuffix, 0);
    NumericYearAt(NoSuffix, 0);
  }

  // ---------------------------------------------------------------------------
  // Class words are tried in dictionary order, not text order: "senior, not a freshman"
  // gives year 1.

  const Senior := "senior, not a freshman"

  lemma SeniorChars()
    ensures |Senior| == 22
    ensures forall q :: 0 <= q < |Senior| ==> !('1' <= Senior[q] <= '6')
    ensures Senior[14] == 'f' && Senior[15] == 'r' && Senior[16] == 'e' && Senior[17] == 's'
    ensures Senior[18] == 'h' && Senior[19] == 'm' && Senior[20] == 'a' && Senior[21] == 'n'
  {
  }

  lemma SeniorYear()
    ensures ParsedInfo(Senior).1 == Some(1)
  {
    SeniorChars();
    NoNumericYear(Senior);
    ContainsLower(Senior, "freshman", 14);
  }
}
