# ALICIA conversational core, modelled in Dafny

ALICIA is a retrieval-grounded student-advising chatbot (`ALICIA/ALICIA.py`). This project
models its conversational core, with the OpenAI, FAISS and Tkinter calls treated as inputs:

- **Corpus** (`corpus.dfy`). The corpus text is split on `"\n\n"`, every block is
  whitespace-stripped and the empty ones are dropped (line 53). The indices a similarity
  search returns are mapped back to `(passage, score)` pairs (line 83).
- **StudentInfo** (`student_info.dfy`). This is the profile heuristic `parse_student_info`
  (lines 97-124, redefined identically at 193-220).
  - The program regex and the numeric-year regex are modelled as leftmost searches over
    positions, the way `re.search` scans. Each alternative, and each optional part, is tried
    in the order the regex engine backtracks through them.
  - The class-word fallback is a method with the source's `for ... break` loop, proved
    against a recursive search function.
- **Prompt** (`prompt.dfy`). This is `build_prompt` (lines 127-155): the base system message,
  the personalisation message, the prior conversation, the grounding message and the user
  message. The retrieved passages come in as a parameter.
- **Session** (`session.dfy`). A class holds the remembered profile and the running
  conversation.
  - `Chat` (lines 157-180) builds the prompt, asks for a completion, and only then updates
    the state.
  - `Reset` (lines 183-184, 190-191) empties both.
  - The class invariant ties the profile to a front-to-back reference definition over the
    conversation.
- **Text** (`text.dfy`). These are the Python string operations the core relies on:
  - `str.strip` with Python's full whitespace set;
  - `str.split` with a separator, and `sep.join`;
  - decimal rendering of non-negative integers;
  - ASCII `lower`/`upper`.
- **StudentInfoExamples** (`student_info_examples.dfy`). These prove what the heuristic
  returns for concrete messages.

The searches and the completion are outside the model.
- The session receives the search result as `Option<SearchHits>`. `None` stands for a failed
  embedding call.
- It receives the completion as a function from prompt to `Option<string>`. `None` stands for
  a failed completion call.

Some readings of the code differ from what one might expect; the model follows the code:
- The ordinal suffix is optional (`(?:st|nd|rd|th)?`), so "3 year" yields year 3
  (`StudentInfoExamples.NoSuffixYear`).
- The class words are tried in the dictionary's order (freshman, sophomore, junior, senior).
  Each is a plain substring test on the lower-cased text, not a scan of the text in word
  order. So "senior, not a freshman" yields year 1 (`StudentInfoExamples.SeniorYear`).
- Line 53 does not reject an empty corpus, so `Passages` may be empty. What the source does
  next with an empty corpus is listed under "Left out".
- The search pads with index -1 when the corpus has fewer passages than requested. Python's
  list indexing turns that into the last passage, so `Retrieve` models Python indexing:
  -1 names the last passage, and only indices outside `-n..n-1` are an error (`IndexError`).

## Model

| member | source | states |
|---|---|---|
| Text.SplitOn | ALICIA/ALICIA.py:53 | `str.split(sep)` always yields at least one piece; `Text.SplitOnSpec` proves the pieces rejoin to the text and are cut at leftmost separators |
| Text.Join | ALICIA/ALICIA.py:141 | `sep.join(pieces)`; `Text.SplitOnJoin` proves that splitting the join of a non-empty list of leftmost pieces gives those pieces back. Leftmost pieces hold no separator, and no piece followed by a separator runs into it (for example by ending in `\n` before `"\n\n"`) |
| Text.Lower | ALICIA/ALICIA.py:107-121 | `text.lower()` at line 121, and the case folding of `re.I` at lines 107 and 114: keeps the length and lower-cases each ASCII letter in place, leaving every other character as it is |
| Text.Upper | ALICIA/ALICIA.py:109 | `upper()` keeps the length and upper-cases each ASCII letter in place, leaving every other character as it is |
| Text.Remove | ALICIA/ALICIA.py:109 | `replace(".", "")`: the result holds no occurrence of the removed character, is no longer than the input, and holds exactly the input's other characters; `Text.RemoveCounts` and `Text.RemoveConcat` add how many times and in what order |
| Text.RemoveCounts | ALICIA/ALICIA.py:109 | the result holds every character other than the removed one exactly as many times as the input, and the removed one not at all |
| Text.RemoveConcat | ALICIA/ALICIA.py:109 | removing a character commutes with concatenation, so the remaining characters keep their input order |
| Text.IsSpace | ALICIA/ALICIA.py:53 | `str.isspace()`: membership in Python's 29 whitespace characters, the same set `\s` matches at line 114; `Text.Strip` and `Text.StripRemovesOnlyEndSpace` state that strip removes exactly these at the two ends |
| Text.Contains | ALICIA/ALICIA.py:121 | `w in s`: some position of s holds w; `StudentInfo.ClassWordIsFirstHit` states the class-word year in terms of it |
| Text.Strip | ALICIA/ALICIA.py:53 | `strip()` yields the empty string exactly when the block is all whitespace; otherwise the result neither starts nor ends with whitespace |
| Text.StripRemovesOnlyEndSpace | ALICIA/ALICIA.py:53 | the stripped block is the block with a whitespace-only prefix and suffix removed, nothing else |
| Text.SplitOnSpec | ALICIA/ALICIA.py:53 | `split("\n\n")` loses nothing: joining the pieces with the separator gives the text back, and each cut is at the leftmost remaining separator |
| Text.SplitOnJoin | ALICIA/ALICIA.py:141 | splitting the join of a non-empty list of leftmost pieces gives back exactly those pieces. Leftmost pieces hold no separator, and no piece followed by a separator runs into it (for example by ending in `\n` before `"\n\n"`) |
| Text.NatToString | ALICIA/ALICIA.py:134 | the f-string rendering of a non-negative integer is a non-empty string of decimal digits without a leading zero |
| Text.DecimalValueOfNatToString | ALICIA/ALICIA.py:134 | the rendered year reads back as the same number |
| Corpus.StripAll | ALICIA/ALICIA.py:53 | the `p.strip()` map of the comprehension: one result per block, result i being block i stripped |
| Corpus.NonEmpty | ALICIA/ALICIA.py:53 | the `if p.strip()` filter: never longer than its input and every kept string non-empty; `Corpus.NonEmptyByPositions` and `Corpus.NonEmptyPositionsExactly` state which strings are kept and in what order |
| Corpus.NonEmptyByPositions | ALICIA/ALICIA.py:53 | element j of the filtered list is the string at the j-th kept position, and the kept positions increase |
| Corpus.NonEmptyPositionsExactly | ALICIA/ALICIA.py:53 | a position is kept exactly when its string is non-empty |
| Corpus.Passages | ALICIA/ALICIA.py:53 | the passage list; `Corpus.PassagesInOrder` and `Corpus.PassagesWellFormed` state what it holds |
| Corpus.PassagesInOrder | ALICIA/ALICIA.py:53 | passage j is the stripped block at the j-th kept position; kept positions increase; a block is kept exactly when it is not all whitespace; the blocks rejoin to the raw text |
| Corpus.PassagesWellFormed | ALICIA/ALICIA.py:53 | every passage is non-empty, has no leading or trailing whitespace and contains no blank line |
| Corpus.PyIndex | ALICIA/ALICIA.py:83 | Python indexing: a non-negative index is itself, a negative one counts back from the end, so -1 names the last passage |
| Corpus.Retrieve | ALICIA/ALICIA.py:83 | one pair per hit in the search's order: the passage the hit's index names and the hit's score |
| Corpus.RetrieveAll | ALICIA/ALICIA.py:83 | when the hits are every passage position once, the retrieved texts are every passage once (a permutation) |
| StudentInfo.Boundary | ALICIA/ALICIA.py:107-114 | `\b`: a word character on exactly one side of the position, with the ends of the text counting as non-word; `StudentInfoExamples.PluralNoProgram` shows it rejecting the program in "PhDs" |
| StudentInfo.LiteralAt | ALICIA/ALICIA.py:107 | a literal matching under `re.I`: the text at the position, lower-cased, equals the lower-case literal; `StudentInfo.FirstTokenIn` turns such a match into a capture that is the literal up to case |
| StudentInfo.TokenAt | ALICIA/ALICIA.py:107 | an alternative matching under `re.I` and followed by the trailing `\b`; `StudentInfo.FirstTokenNone` and `StudentInfo.FirstTokenIsFirst` state the group search in terms of it |
| StudentInfo.Leftmost | ALICIA/ALICIA.py:107 | the search result is the match at the first position that matches, and absent only when no position matches |
| StudentInfo.LeftmostAt | ALICIA/ALICIA.py:107 | conversely, a match with no match before it is what the search returns |
| StudentInfo.FirstTokenIn | ALICIA/ALICIA.py:107 | the first of a list of alternatives that matches at a position and is followed by a word boundary: its capture is one of the alternatives from the starting one on, up to case, and is the text at the position |
| StudentInfo.FirstTokenNone | ALICIA/ALICIA.py:107 | the search over the alternatives finds nothing exactly when no alternative, followed by a word boundary, matches at the position |
| StudentInfo.FirstTokenIsFirst | ALICIA/ALICIA.py:107 | a capture is the text of some alternative that matches there with a word boundary after it, and no earlier alternative does |
| StudentInfo.FirstAlternative | ALICIA/ALICIA.py:107 | the captured group is one of the regex's alternatives, up to case, and is the text at the match position |
| StudentInfo.FirstAlternativeIsFirst | ALICIA/ALICIA.py:107 | the group is absent exactly when no alternative followed by the trailing `\b` matches; otherwise it is the first such alternative in the regex's order, as the backtracking engine tries them |
| StudentInfo.ProgramCaptureAt | ALICIA/ALICIA.py:107 | the capture when the program pattern matches at a position: the leading `\b` holds there and then the first alternative with the trailing `\b` is taken; `StudentInfo.ProgramMatchStart` and `StudentInfo.FirstAlternativeIsFirst` state what a capture looks like |
| StudentInfo.Canonical | ALICIA/ALICIA.py:109-111 | the canonical programme name; `StudentInfo.CanonicalOfCapture` proves it is "PHD", "MS" or "Bachelor's" for every capture, and `StudentInfo.CanonicalIgnoresCase` that case does not matter |
| StudentInfo.ProgramMatch | ALICIA/ALICIA.py:107 | `re.search` for the program: the capture at the leftmost matching position, or absent when the pattern matches nowhere |
| StudentInfo.ParseProgram | ALICIA/ALICIA.py:107-111 | the programme `parse_student_info` returns; `StudentInfo.ProgramIsLeftmost` and `StudentInfo.ProgramIsCanonical` state what it is |
| StudentInfo.ProgramIsLeftmost | ALICIA/ALICIA.py:107-111 | a program is found exactly when the pattern matches somewhere, and then it is the canonical form of the leftmost capture |
| StudentInfo.ProgramMatchAt | ALICIA/ALICIA.py:107-108 | a capture at q with no match before q is the one `re.search` returns |
| StudentInfo.ProgramMatchStart | ALICIA/ALICIA.py:107 | a match starts at a word boundary on p, m or b (any case), followed by h, s, a period or a |
| StudentInfo.CanonicalIgnoresCase | ALICIA/ALICIA.py:109 | the canonical name depends on the captured text only up to case |
| StudentInfo.CanonicalPhd | ALICIA/ALICIA.py:109 | "phd" canonicalises to "PHD" |
| StudentInfo.CanonicalMs | ALICIA/ALICIA.py:109 | "ms", "m.s.", "m.s" and "ms." all canonicalise to "MS" (periods are dropped) |
| StudentInfo.CanonicalOfB | ALICIA/ALICIA.py:110-111 | anything starting with a b, in either case, becomes "Bachelor's" |
| StudentInfo.CanonicalOfCapture | ALICIA/ALICIA.py:107-111 | whatever the program pattern captures canonicalises to "PHD", "MS" or "Bachelor's" |
| StudentInfo.ProgramIsCanonical | ALICIA/ALICIA.py:107-111 | the program returned is absent or one of "PHD", "MS", "Bachelor's" |
| StudentInfo.YearWordAt | ALICIA/ALICIA.py:114 | the `\s*year\b` tail of the year pattern; the examples `StudentInfoExamples.NoSuffixYear` and `StudentInfoExamples.ThirdYearPhd` show it accepting "year" after optional whitespace |
| StudentInfo.YearMatchAt | ALICIA/ALICIA.py:114-116 | a numeric-year match yields a year in 1..6 |
| StudentInfo.NumericYear | ALICIA/ALICIA.py:114 | `re.search` for the year: the digit at the leftmost matching position, or absent when the pattern matches nowhere |
| StudentInfo.NumericYearAt | ALICIA/ALICIA.py:114-116 | a year match at q with no match before q is the one `re.search` returns |
| StudentInfo.ClassWordYearFrom | ALICIA/ALICIA.py:119-123 | the class-word year from a position in the dictionary on; `StudentInfo.ClassWordIsFirstHit` and `StudentInfo.ClassWordBounded` state what it returns |
| StudentInfo.ClassWordIsFirstHit | ALICIA/ALICIA.py:119-123 | the class-word year is absent exactly when no class word is a substring; otherwise it is the year of the first class word, in dictionary order, that is one |
| StudentInfo.ClassWordBounded | ALICIA/ALICIA.py:119-123 | a class-word year is in 1..4 |
| StudentInfo.YearInRange | ALICIA/ALICIA.py:113-123 | the year is absent or in 1..6; a numeric match takes precedence over class words; a class-word year is at most 4 |
| StudentInfo.ParsedInfo | ALICIA/ALICIA.py:97-124 | the pair `parse_student_info` returns; `StudentInfo.ProgramIsCanonical` and `StudentInfo.YearInRange` bound its two halves, and `StudentInfo.ParseStudentInfo` is proved to compute it |
| StudentInfo.ParseStudentInfo | ALICIA/ALICIA.py:97-124 | the loop that stops at the first class word found returns the same pair as the search functions |
| StudentInfoExamples.ThirdYearPhd | ALICIA/ALICIA.py:97-124 | "I am a 3rd year PhD student" yields ("PHD", 3) |
| StudentInfoExamples.SophomoreYear | ALICIA/ALICIA.py:97-124 | "I'm a sophomore" yields no program and year 2 |
| StudentInfoExamples.MastersSecondYear | ALICIA/ALICIA.py:97-124 | "MS, 2nd year" yields ("MS", 2) |
| StudentInfoExamples.BachelorsFourthYear | ALICIA/ALICIA.py:97-124 | "4th year Bachelor's student" yields ("Bachelor's", 4) |
| StudentInfoExamples.PluralNoProgram | ALICIA/ALICIA.py:107 | "PhDs" yields no program: no alternative is followed by a word boundary there |
| StudentInfoExamples.NoSuffixYear | ALICIA/ALICIA.py:114 | "3 year" yields year 3: the ordinal suffix is optional |
| StudentInfoExamples.SeniorYear | ALICIA/ALICIA.py:119-123 | "senior, not a freshman" yields year 1: dictionary order, not text order |
| Prompt.Personalisation | ALICIA/ALICIA.py:131-137 | the personalisation message is a system message, and its content is the fixed ask-once text exactly when there is no profile |
| Prompt.PersonalisationInjective | ALICIA/ALICIA.py:131-134 | for the programs the heuristic produces, different profiles give different personalisation texts |
| Prompt.NumberedEntry | ALICIA/ALICIA.py:141 | the f-string `f"{i+1}. {d[0]}"`; `Prompt.DecodeNumberedEntry` proves it reads back as the one-based number and the passage |
| Prompt.Entries | ALICIA/ALICIA.py:141 | passage i (from 0) is rendered as "<i+1>. <text>", in retrieval order |
| Prompt.GroundingContext | ALICIA/ALICIA.py:141 | the entries joined by blank lines; `Prompt.GroundingReadBack` proves the entries can be split back out of it |
| Prompt.GroundingMessage | ALICIA/ALICIA.py:144-149 | an assistant message whose content is the fixed grounding instruction followed by the numbered context |
| Prompt.BuildPrompt | ALICIA/ALICIA.py:127-155 | `|conversation| + 4` messages: the system description, the system personalisation, the conversation unchanged, the assistant grounding message, and last the user message verbatim |
| Prompt.DecodeNumberedEntry | ALICIA/ALICIA.py:141 | each numbered entry reads back as its one-based number and the passage text |
| Prompt.GroundingReadBack | ALICIA/ALICIA.py:141 | for passages with no blank line and no trailing newline: with no passages the context is empty; otherwise splitting it at blank lines gives the numbered entries back, each decoding to its position and passage, in retrieval order |
| Prompt.RetrievedPassagesLayoutSafe | ALICIA/ALICIA.py:53 | passages retrieved from the split corpus contain no blank line and do not end in a newline, so the grounding context can be read back |
| Session.ProfileFrom | ALICIA/ALICIA.py:170-173 | the profile one user message yields; `Session.ProfileNeedsBoth` states when it is present and what it then holds |
| Session.ChatSession.constructor | ALICIA/ALICIA.py:94-95 | the session starts with the corpus passages, the stripped agent description, no profile and no conversation |
| Session.ChatSession.Chat | ALICIA/ALICIA.py:157-180 | a failed embedding, an out-of-range hit or a failed completion changes nothing; otherwise the reply is the stripped completion of the prompt built from the old state, the conversation gains exactly [user message, assistant reply], and the profile is set only if it was empty and the message gives both program and year |
| Session.ChatSession.Reset | ALICIA/ALICIA.py:183-184 | the profile and the conversation are empty |
| Session.FirstProfileAppend | ALICIA/ALICIA.py:170-179 | appending a turn keeps an existing profile and otherwise takes the profile the new user message yields |
| Session.ProfileSetOnce | ALICIA/ALICIA.py:170-173 | once a profile is set, no later turn changes it |
| Session.AlternatingAppend | ALICIA/ALICIA.py:176-179 | each turn appends a user message then an assistant message, so roles keep alternating |
| Session.GroundingReadsBack | ALICIA/ALICIA.py:140-149 | for the passages a valid session holds and any in-range hits, the grounding message of the prompt reads back: after the instruction, the context is empty for no hits and otherwise splits into one entry per hit, entry j decoding to j + 1 and the passage hit j names |
| Session.ProfileNeedsBoth | ALICIA/ALICIA.py:170-173 | a profile is taken only when both program and year are found, and it then has a canonical program and a year in 1..6 |

## Left out

- The OpenAI embedding and completion calls (lines 58-60, 162-167) and the FAISS index and
  search (lines 63-64, 82). They are network and library calls. The session receives their
  results as parameters, as described above. The `model`, `temperature` and `max_tokens`
  arguments are not modelled.
- Scores are `real` rather than 32-bit floats converted to Python floats.
- The number of hits is not constrained. Line 140 asks the search for 5, but the model accepts
  any list of hits.
- Reading the corpus and agent description files, the dotenv and API-key checks, and all
  `print` output (lines 30-40, 50, 54, 66, 69-74, 89-90). They are I/O and configuration; the
  constructor's parameters are the texts `read_text` returns, so universal-newline translation
  (`"\r\n"` to `"\n"`) has already happened in the text line 53 splits.
- `tiktoken` and `MAX_TOKENS_CONTEXT` (lines 43-44): the logic never uses them.
- The Tkinter front end, markdown-to-HTML rendering and the worker thread (lines 225-387).
  They are UI and concurrency.
- StudentInfo.Boundary: `\b` uses ASCII word characters only. Python's `re` treats Unicode
  letters and digits as word characters.
- Text.Lower: only ASCII letters are lower-cased. Python's `lower()` also maps other letters
  (for example 'É' to 'é'). Only U+0130 and U+212A lower to ASCII letters, and neither can
  form a class word, so the class-word test is unaffected.
- StudentInfo.LiteralAt: `re.I` is modelled as ASCII case folding. Python's `re` also folds
  some non-ASCII characters onto ASCII letters: for example, the long s (U+017F) matches "s"
  and the Kelvin sign (U+212A) matches "k".
- Text.Upper: only ASCII letters are upper-cased. Python's `upper()` also maps other letters
  (for example 'é' to 'É', and 'ß' to "SS", which changes the length). This is exact on the
  program captures, which hold only ASCII characters.
- Session.ChatSession.constructor: line 53 does not reject an empty corpus, and the constructor
  accepts one. The startup embedding and index build (lines 59-64, left out with the other
  service calls) then fails on the empty passage list before any session exists. The
  constructor does not model that failure.
- Session.ChatSession.Chat: a completion whose content is `None` (so `.strip()` raises) is
  folded into `CompletionFailed`.
