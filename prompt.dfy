/** Prompt assembly `build_prompt` (ALICIA/ALICIA.py lines 127-155). The similarity search it
    calls is a parameter: the retrieved (passage, score) pairs, in retrieval order. */
module Prompt {
  import opened Wrappers
  import opened Text
  import opened Corpus

  datatype Role = System | User | Assistant

  /** One chat message: a role and its content. */
  datatype Message = Message(role: Role, content: string)

  /** The remembered profile: both entries are always present once it is set. */
  datatype StudentProfile = StudentProfile(program: string, year: nat)

  /** The personalisation text used while no profile is known (line 137). */
  const AskOnce: string := "Ask once for program + year, then remember."

  const ProfilePrefix: string := "Student program: "
  const YearInfix: string := ", Year: "

  /** The fixed rule that heads the grounding message (lines 147-148). */
  const GroundingInstruction: string :=
    "**Grounding data \U{2013} you MUST base your answer ONLY on these excerpts. "
    + "If they don\U{2019}t contain the answer, reply 'I don\U{2019}t have that information, but I searched online and found {then search online and find a reliable source like the program website, find the answer and return the answer AND your source link}. Everything should be specific to the University of Colorado Anschutz Medical Campus and Denver campus, as well as the student's current program and year.'**\n\n"

  // ---------------------------------------------------------------------------
  // The personalisation message (lines 131-137)

  function Personalisation(profile: Option<StudentProfile>): (m: Message)
    ensures m.role == System
    ensures profile.None? <==> m.content == AskOnce
  {
    match profile
    case None => Message(System, AskOnce)
    case Some(p) =>
      var content := ProfilePrefix + p.program + YearInfix + NatToString(p.year) + ".";
      assert content[0] != AskOnce[0];
      Message(System, content)
  }

  /** The programme names the profile heuristic produces. */
  predicate IsCanonicalProgram(program: string) {
    program in {"PHD", "MS", "Bachelor's"}
  }

  /** The first character after the prefix tells the three programme names apart. */
  lemma ProgramInitial(a: string, b: string)
    requires IsCanonicalProgram(a) && IsCanonicalProgram(b) && a[0] == b[0]
    ensures a == b
  {
  }

  /** Strings equal after appending, or prepending, the same string are equal. */
  lemma DropSuffix(x: string, y: string, z: string)
    requires x + z == y + z
    ensures x == y
  {
    assert x == (x + z)[..|x|];
    assert |x| == |y|;
    assert y == (y + z)[..|y|];
  }

  lemma DropPrefix(x: string, y: string, z: string)
    requires z + x == z + y
    ensures x == y
  {
    assert x == (z + x)[|z|..];
    assert y == (z + y)[|z|..];
  }

  /** For the profiles the session stores, the personalisation text determines the profile:
      programme and year can be read back from it. */
  lemma PersonalisationInjective(p: StudentProfile, q: StudentProfile)
    requires IsCanonicalProgram(p.program) && IsCanonicalProgram(q.program)
    requires Personalisation(Some(p)).content == Personalisation(Some(q)).content
    ensures p == q
  {
    var cp := ProfilePrefix + p.program + YearInfix + NatToString(p.year) + ".";
    var cq := ProfilePrefix + q.program + YearInfix + NatToString(q.year) + ".";
    assert cp == cq;
    var n := |ProfilePrefix|;
    assert cp[n] == p.program[0];
    assert cq[n] == q.program[0];
    ProgramInitial(p.program, q.program);
    assert cp == ProfilePrefix + p.program + YearInfix + (NatToString(p.year) + ".");
    assert cq == ProfilePrefix + p.program + YearInfix + (NatToString(q.year) + ".");
    DropPrefix(NatToString(p.year) + ".", NatToString(q.year) + ".", ProfilePrefix + p.program + YearInfix);
    DropSuffix(NatToString(p.year), NatToString(q.year), ".");
    DecimalValueOfNatToString(p.year);
    DecimalValueOfNatToString(q.year);
  }

  // ---------------------------------------------------------------------------
  // The grounding message (lines 141-149)

  /** The i-th retrieved passage (from 0) as it appears in the context: "<i+1>. <text>". */
  function NumberedEntry(i: nat, text: string): string {
    NatToString(i + 1) + ". " + text
  }

  function Entries(docs: seq<(string, real)>): (entries: seq<string>)
    ensures |entries| == |docs|
    ensures forall j :: 0 <= j < |docs| ==> entries[j] == NumberedEntry(j, docs[j].0)
  {
    seq(|docs|, j requires 0 <= j < |docs| => NumberedEntry(j, docs[j].0))
  }

  /** The numbered passages, one blank line between consecutive ones. */
  function GroundingContext(docs: seq<(string, real)>): string {
    Join(Entries(docs), Blank)
  }

  function GroundingMessage(docs: seq<(string, real)>): (m: Message)
    ensures m.role == Assistant
    ensures |m.content| >= |GroundingInstruction|
    ensures m.content[..|GroundingInstruction|] == GroundingInstruction
    ensures m.content[|GroundingInstruction|..] == GroundingContext(docs)
  {
    Message(Assistant, GroundingInstruction + GroundingContext(docs))
  }

  /** Lines 127-155: base system message, personalisation, the conversation so far, the
      grounding message, and last the user's message. */
  function BuildPrompt(systemDesc: string, profile: Option<StudentProfile>, conversation: seq<Message>,
                       docs: seq<(string, real)>, userMessage: string): (messages: seq<Message>)
    ensures |messages| == |conversation| + 4
    ensures messages[0] == Message(System, systemDesc)
    ensures messages[1].role == System && messages[1] == Personalisation(profile)
    ensures messages[2..|messages| - 2] == conversation
    ensures messages[|messages| - 2].role == Assistant && messages[|messages| - 2] == GroundingMessage(docs)
    ensures messages[|messages| - 1] == Message(User, userMessage)
  {
    var prefix := [Message(System, systemDesc), Personalisation(profile)];
    var suffix := [GroundingMessage(docs), Message(User, userMessage)];
    assert (prefix + conversation + suffix)[2..|conversation| + 2] == conversation;
    prefix + conversation + suffix
  }

  // ---------------------------------------------------------------------------
  // Reading the grounding context back

  /** A passage text that cannot disturb the blank-line layout: no blank line inside and no
      trailing newline. */
  predicate LayoutSafe(text: string) {
    !Contains(text, Blank) && (text == [] || text[|text| - 1] != '\n')
  }

  /** The length of the run of digits at the start of s. */
  function DigitRun(s: string): (n: nat)
    ensures n <= |s|
    ensures forall k :: 0 <= k < n ==> IsDigit(s[k])
    ensures n < |s| ==> !IsDigit(s[n])
  {
    if s == [] || !IsDigit(s[0]) then 0 else 1 + DigitRun(s[1..])
  }

  /** Reads "<n>. <text>" back into (n, text). */
  function DecodeEntry(entry: string): Option<(nat, string)> {
    var n := DigitRun(entry);
    if 0 < n && n + 2 <= |entry| && entry[n..n + 2] == ". " then
      Some((DecimalValue(entry[..n]), entry[n + 2..]))
    else None
  }

  lemma {:induction false} DigitRunOf(digits: string, rest: string)
    requires forall k :: 0 <= k < |digits| ==> IsDigit(digits[k])
    requires rest != [] && !IsDigit(rest[0])
    ensures DigitRun(digits + rest) == |digits|
    decreases |digits|
  {
    if digits == [] {
      assert digits + rest == rest;
    } else {
      assert (digits + rest)[1..] == digits[1..] + rest;
      DigitRunOf(digits[1..], rest);
    }
  }

  /** Each numbered entry decodes to its one-based number and the passage text. */
  lemma DecodeNumberedEntry(i: nat, text: string)
    ensures DecodeEntry(NumberedEntry(i, text)) == Some((i + 1, text))
  {
    var d := NatToString(i + 1);
    var e := NumberedEntry(i, text);
    assert e == d + (". " + text);
    DigitRunOf(d, ". " + text);
    assert e[..|d|] == d;
    assert e[|d|..|d| + 2] == ". ";
    assert e[|d| + 2..] == text;
    DecimalValueOfNatToString(i + 1);
  }

  lemma BlankAt(s: string, k: nat)
    requires k + 2 <= |s|
    ensures OccursAt(s, Blank, k) <==> s[k] == '\n' && s[k + 1] == '\n'
  {
    if s[k] == '\n' && s[k + 1] == '\n' {
      assert s[k..k + 2] == Blank;
    }
  }

  /** A numbered entry of a layout-safe text is itself layout-safe. */
  lemma EntryLayoutSafe(i: nat, text: string)
    requires LayoutSafe(text)
    ensures LayoutSafe(NumberedEntry(i, text))
  {
    var d := NatToString(i + 1);
    var head := d + ". ";
    var e := NumberedEntry(i, text);
    assert e == head + text;
    forall k | 0 <= k <= |e| - |Blank| ensures !OccursAt(e, Blank, k) {
      BlankAt(e, k);
      if k + 1 < |head| {
        assert e[k] == head[k];
      } else if k + 1 == |head| {
        assert e[k] == ' ';
      } else {
        assert e[k..k + 2] == text[k - |head|..k - |head| + 2];
        assert !OccursAt(text, Blank, k - |head|);
      }
    }
    if text == [] {
      assert e[|e| - 1] == ' ';
    } else {
      assert e[|e| - 1] == text[|text| - 1];
    }
  }

  /** A layout-safe piece followed by a blank line has no earlier blank line. */
  lemma SafePieceFree(e: string)
    requires LayoutSafe(e)
    ensures FreeBefore(e + Blank, Blank, |e|)
    ensures FreeBefore(e, Blank, |e|)
  {
    forall k | 0 <= k < |e| ensures !OccursAt(e + Blank, Blank, k) {
      if k + 2 <= |e| {
        assert (e + Blank)[k..k + 2] == e[k..k + 2];
        assert !OccursAt(e, Blank, k);
      } else {
        assert (e + Blank)[k] == e[|e| - 1];
      }
    }
  }

  /** Splitting the context at blank lines gives back the numbered entries, each of which
      decodes to its one-based position and the retrieved passage, in retrieval order. With
      no passages retrieved the context is empty. */
  lemma GroundingReadBack(docs: seq<(string, real)>)
    requires forall j :: 0 <= j < |docs| ==> LayoutSafe(docs[j].0)
    ensures docs == [] ==> GroundingContext(docs) == []
    ensures docs != [] ==> SplitOn(GroundingContext(docs), Blank) == Entries(docs)
    ensures forall j :: 0 <= j < |docs| ==> DecodeEntry(Entries(docs)[j]) == Some((j + 1, docs[j].0))
  {
    if docs == [] {
      return;
    }
    var entries := Entries(docs);
    forall j | 0 <= j < |entries|
      ensures FreeBefore(entries[j] + Blank, Blank, |entries[j]|) && FreeBefore(entries[j], Blank, |entries[j]|)
    {
      EntryLayoutSafe(j, docs[j].0);
      SafePieceFree(entries[j]);
    }
    assert LeftmostPieces(entries, Blank);
    SplitOnJoin(entries, Blank);
    forall j | 0 <= j < |docs| ensures DecodeEntry(entries[j]) == Some((j + 1, docs[j].0)) {
      DecodeNumberedEntry(j, docs[j].0);
    }
  }

  /** Passages split from a corpus are layout-safe, so whatever retrieval returns from them
      can be read back from the grounding message. */
  lemma RetrievedPassagesLayoutSafe(raw: string, indices: seq<int>, scores: seq<real>)
    requires ValidHits(|Passages(raw)|, indices, scores)
    ensures forall j :: 0 <= j < |indices| ==> LayoutSafe(Retrieve(Passages(raw), indices, scores)[j].0)
  {
    PassagesWellFormed(raw);
  }
}
