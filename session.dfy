/** The chat session: the remembered student profile and the running conversation
    (ALICIA/ALICIA.py lines 94-95), one `chat` turn (lines 157-180) and the reset
    that empties both (lines 183-184, 190-191). The embedding of the query together with the
    similarity search, and the chat completion, are calls into services: they come in as a
    search result (absent when the embedding call fails) and as a function from prompt to
    reply (absent when the completion call fails). */
module Session {
  import opened Wrappers
  import opened Text
  import opened Corpus
  import opened StudentInfo
  import opened Prompt

  /** Why a turn ends without a reply. Each is raised before any state is touched. */
  datatype ChatError =
    | EmbeddingFailed    // the query could not be embedded or searched (line 81)
    | IndexOutOfRange    // a hit names no passage, or has no score (line 83)
    | CompletionFailed   // the completion call raised (lines 162-167)

  /** What the similarity search returned for one query: per hit, an index and a score. */
  datatype SearchHits = SearchHits(indices: seq<int>, scores: seq<real>)

  /** Lines 170-173: the profile a user message yields, when both the programme and the year
      are truthy. */
  function ProfileFrom(text: string): Option<StudentProfile> {
    var info := ParsedInfo(text);
    if info.0.Some? && info.0.value != [] && info.1.Some? && info.1.value != 0 then
      Some(StudentProfile(info.0.value, info.1.value))
    else None
  }

  /** Reference definition of the remembered profile: the one given by the first user message
      in the conversation that yields one. */
  function FirstProfile(conversation: seq<Message>): Option<StudentProfile> {
    if conversation == [] then None
    else if conversation[0].role == User && ProfileFrom(conversation[0].content).Some? then
      ProfileFrom(conversation[0].content)
    else FirstProfile(conversation[1..])
  }

  /** Turns alternate: the user speaks at even positions, the assistant at odd ones. */
  predicate Alternating(conversation: seq<Message>) {
    |conversation| % 2 == 0 &&
    forall i :: 0 <= i < |conversation| ==> conversation[i].role == (if i % 2 == 0 then User else Assistant)
  }

  class ChatSession {
    const passages: seq<string>
    const systemDesc: string
    var conversation: seq<Message>
    var profile: Option<StudentProfile>

    /** The passages are the split corpus, the profile is the one the conversation's first
        profile-bearing user message gave, and turns alternate. */
    predicate Valid()
      reads this
    {
      && (forall j :: 0 <= j < |passages| ==> IsPassage(passages[j]))
      && Alternating(conversation)
      && profile == FirstProfile(conversation)
    }

    /** Lines 53, 89 and 94-95: the passages of the corpus, the stripped agent description, and an
        empty profile and conversation. */
    constructor (rawCorpus: string, agentDescription: string)
      ensures Valid()
      ensures passages == Passages(rawCorpus) && systemDesc == Strip(agentDescription)
      ensures conversation == [] && profile == None
    {
      passages := Passages(rawCorpus);
      systemDesc := Strip(agentDescription);
      conversation := [];
      profile := None;
      PassagesWellFormed(rawCorpus);
    }

    /** Lines 157-180: build the prompt, ask for a completion, and only then remember the
        profile (if none yet) and append the turn. */
    method Chat(userMessage: string, hits: Option<SearchHits>, complete: seq<Message> -> Option<string>)
      returns (outcome: Result<string, ChatError>)
      requires Valid()
      modifies this
      ensures Valid()
      ensures hits.None? ==> outcome == Err(EmbeddingFailed)
      ensures hits.Some? && !ValidHits(|passages|, hits.value.indices, hits.value.scores) ==>
        outcome == Err(IndexOutOfRange)
      ensures hits.Some? && ValidHits(|passages|, hits.value.indices, hits.value.scores) ==>
        var docs := Retrieve(passages, hits.value.indices, hits.value.scores);
        var reply := complete(BuildPrompt(systemDesc, old(profile), old(conversation), docs, userMessage));
        && (reply.None? ==> outcome == Err(CompletionFailed))
        && (reply.Some? ==> outcome == Ok(Strip(reply.value)))
      ensures outcome.Err? ==> conversation == old(conversation) && profile == old(profile)
      ensures outcome.Ok? ==>
        && conversation == old(conversation) + [Message(User, userMessage), Message(Assistant, outcome.value)]
        && profile == (if old(profile).None? then ProfileFrom(userMessage) else old(profile))
    {
      if hits.None? {
        return Err(EmbeddingFailed);
      }
      var indices, scores := hits.value.indices, hits.value.scores;
      if !ValidHits(|passages|, indices, scores) {
        return Err(IndexOutOfRange);
      }
      var docs := Retrieve(passages, indices, scores);
      var messages := BuildPrompt(systemDesc, profile, conversation, docs, userMessage);
      var reply := complete(messages);
      if reply.None? {
        return Err(CompletionFailed);
      }
      var response := Strip(reply.value);
      if profile.None? {
        var prog, year := ParseStudentInfo(userMessage);
        if prog.Some? && prog.value != [] && year.Some? && year.value != 0 {
          profile := Some(StudentProfile(prog.value, year.value));
        }
      }
      FirstProfileAppend(conversation, userMessage, response);
      AlternatingAppend(conversation, userMessage, response);
      conversation := conversation + [Message(User, userMessage), Message(Assistant, response)];
      return Ok(response);
    }

    /** Lines 183-184 (and the rebinding at 190-191): forget the profile and the conversation. */
    method Reset()
      requires Valid()
      modifies this
      ensures Valid()
      ensures conversation == [] && profile == None
    {
      conversation := [];
      profile := None;
    }
  }

  // ---------------------------------------------------------------------------
  // Properties of the profile and the conversation

  /** Appending a turn leaves an existing profile as it is and otherwise takes the profile the
      new user message yields. */
  lemma {:induction false} FirstProfileAppend(conversation: seq<Message>, userMessage: string, reply: string)
    ensures FirstProfile(conversation + [Message(User, userMessage), Message(Assistant, reply)]) ==
      if FirstProfile(conversation).Some? then FirstProfile(conversation) else ProfileFrom(userMessage)
    decreases |conversation|
  {
    var turn := [Message(User, userMessage), Message(Assistant, reply)];
    if conversation == [] {
      assert conversation + turn == turn;
      assert turn[1..] == [Message(Assistant, reply)];
      assert turn[1..][1..] == [];
    } else {
      assert (conversation + turn)[1..] == conversation[1..] + turn;
      FirstProfileAppend(conversation[1..], userMessage, reply);
    }
  }

  /** Once the profile is set, no later turn changes it. */
  lemma {:induction false} ProfileSetOnce(conversation: seq<Message>, later: seq<Message>)
    requires FirstProfile(conversation).Some?
    ensures FirstProfile(conversation + later) == FirstProfile(conversation)
    decreases |conversation|
  {
    assert (conversation + later)[0] == conversation[0];
    if !(conversation[0].role == User && ProfileFrom(conversation[0].content).Some?) {
      assert (conversation + later)[1..] == conversation[1..] + later;
      ProfileSetOnce(conversation[1..], later);
    }
  }

  lemma AlternatingAppend(conversation: seq<Message>, userMessage: string, reply: string)
    requires Alternating(conversation)
    ensures Alternating(conversation + [Message(User, userMessage), Message(Assistant, reply)])
  {
  }

  /** The grounding message of every prompt a valid session builds can be read back: after the
      fixed instruction, splitting at blank lines gives one numbered entry per hit, and entry j
      decodes to j + 1 and the passage hit j names. With no hits the context is empty. */
  lemma GroundingReadsBack(passages: seq<string>, indices: seq<int>, scores: seq<real>)
    requires forall j :: 0 <= j < |passages| ==> IsPassage(passages[j])
    requires ValidHits(|passages|, indices, scores)
    ensures var docs := Retrieve(passages, indices, scores);
      var context := GroundingMessage(docs).content[|GroundingInstruction|..];
      && (indices == [] ==> context == [])
      && (indices != [] ==> SplitOn(context, Blank) == Entries(docs))
      && forall j :: 0 <= j < |indices| ==>
           DecodeEntry(Entries(docs)[j]) == Some((j + 1, passages[PyIndex(indices[j], |passages|)]))
  {
    var docs := Retrieve(passages, indices, scores);
    forall j | 0 <= j < |docs| ensures LayoutSafe(docs[j].0) {
      var p := docs[j].0;
      assert IsPassage(p);
      assert p[|p| - 1] != '\n' by {
        assert IsSpace('\n');
      }
    }
    GroundingReadBack(docs);
  }

  /** A profile is remembered only when both the programme and the year were found, and it is
      then one of the three programme names and a year in 1..6. */
  lemma ProfileNeedsBoth(text: string)
    ensures ProfileFrom(text).Some? <==> ParsedInfo(text).0.Some? && ParsedInfo(text).1.Some?
    ensures ProfileFrom(text).Some? ==>
      IsCanonicalProgram(ProfileFrom(text).value.program) && 1 <= ProfileFrom(text).value.year <= 6
  {
    ProgramIsCanonical(text);
    YearInRange(text);
  }
}
