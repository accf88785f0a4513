/** Retrieval-augmented question answering of `chat_utils.py`: the query
    sent to the vector store, the flattening of what it returns, and the
    chat request built from the retrieved chunks and the question. */
module Chat {
  import opened Wrappers
  import opened Text

  const TemplateHead: string := "\n        By considering above input from me, answer the question: "
  const TemplateTail: string := "\n    "

  /** `apply_prompt_template(question)`: the question embedded verbatim
      between a fixed head and tail. */
  function ApplyPromptTemplate(question: string): (prompt: string)
    ensures |prompt| == |TemplateHead| + |question| + |TemplateTail|
    ensures QuestionOf(prompt) == Some(question)
  {
    UnwrapWrap(TemplateHead, question, TemplateTail);
    TemplateHead + question + TemplateTail
  }

  /** Recovers the question from a templated prompt. */
  function QuestionOf(prompt: string): Option<string> {
    Unwrap(prompt, TemplateHead, TemplateTail)
  }

  /** Different questions give different prompts. */
  lemma TemplateInjective(q1: string, q2: string)
    ensures ApplyPromptTemplate(q1) == ApplyPromptTemplate(q2) <==> q1 == q2
  {
    assert QuestionOf(ApplyPromptTemplate(q1)) == Some(q1);
    assert QuestionOf(ApplyPromptTemplate(q2)) == Some(q2);
  }

  // ---------------------------------------------------------------------------
  // Vector-store query and results
  // ---------------------------------------------------------------------------

  /** A metadata filter; the store's own filter type is not part of this
      model, so it is kept as attribute/value pairs. */
  type Filter = map<string, string>

  datatype Query = Query(query: string, filter: Option<Filter>, topK: nat)

  /** `query_database`'s request: a single query for the prompt, unfiltered,
      asking for the one best chunk. */
  function BuildQueries(prompt: string): (qs: seq<Query>)
    ensures |qs| == 1
    ensures forall q :: q in qs ==> q.query == prompt && q.filter.None? && q.topK == 1
  {
    [Query(prompt, None, 1)]
  }

  datatype DocumentChunk = DocumentChunk(text: string)
  datatype QueryResult = QueryResult(results: seq<DocumentChunk>)

  /** The texts of one result's chunks, in order. */
  function Texts(chunks: seq<DocumentChunk>): (ts: seq<string>)
    ensures |ts| == |chunks|
    ensures forall j :: 0 <= j < |chunks| ==> ts[j] == chunks[j].text
  {
    seq(|chunks|, j requires 0 <= j < |chunks| => chunks[j].text)
  }

  /** Reference definition of the chunk list `ask` builds: every result's
      texts, results in order. */
  function Flatten(rs: seq<QueryResult>): seq<string>
  {
    if |rs| == 0 then [] else Flatten(rs[..|rs| - 1]) + Texts(rs[|rs| - 1].results)
  }

  /** Flattening distributes over concatenation of result lists. */
  lemma {:induction false} FlattenAppend(a: seq<QueryResult>, b: seq<QueryResult>)
    ensures Flatten(a + b) == Flatten(a) + Flatten(b)
    decreases |b|
  {
    if |b| == 0 {
      assert a + b == a;
    } else {
      assert (a + b)[..|a + b| - 1] == a + b[..|b| - 1];
      FlattenAppend(a, b[..|b| - 1]);
    }
  }

  /** The number of chunks before result `i`. */
  function Offset(rs: seq<QueryResult>, i: nat): nat
    requires i <= |rs|
  {
    |Flatten(rs[..i])|
  }

  /** Outer-then-inner order: chunk `j` of result `i` sits at position
      `Offset(rs, i) + j` of the flattened list, and nothing else is there. */
  lemma FlattenPosition(rs: seq<QueryResult>, i: nat, j: nat)
    requires i < |rs| && j < |rs[i].results|
    ensures Offset(rs, i) + j < |Flatten(rs)|
    ensures Flatten(rs)[Offset(rs, i) + j] == rs[i].results[j].text
  {
    assert rs == rs[..i] + [rs[i]] + rs[i + 1..];
    FlattenAppend(rs[..i] + [rs[i]], rs[i + 1..]);
    FlattenAppend(rs[..i], [rs[i]]);
    assert [rs[i]][..0] == [];
  }

  /** The nested loop of `ask` that collects the chunk texts. */
  method RetrievedChunks(rs: seq<QueryResult>) returns (chunks: seq<string>)
    ensures chunks == Flatten(rs)
  {
    chunks := [];
    for i := 0 to |rs|
      invariant chunks == Flatten(rs[..i])
    {
      var inner := rs[i].results;
      for j := 0 to |inner|
        invariant chunks == Flatten(rs[..i]) + Texts(inner[..j])
      {
        assert Texts(inner[..j + 1]) == Texts(inner[..j]) + [inner[j].text];
        chunks := chunks + [inner[j].text];
      }
      assert inner[..|inner|] == inner;
      assert rs[..i + 1][..i] == rs[..i];
    }
    assert rs[..|rs|] == rs;
  }

  // ---------------------------------------------------------------------------
  // Chat request
  // ---------------------------------------------------------------------------

  const UserRole: string := "user"
  const ChatModel: string := "gpt-3.5-turbo"
  const MaxTokens: nat := 200
  const Temperature: real := 0.7

  datatype Message = Message(role: string, content: string)
  datatype ChatRequest = ChatRequest(model: string, messages: seq<Message>, maxTokens: nat, temperature: real)

  /** The request `call_chatgpt_api` sends: one user message per chunk in
      chunk order, then the templated question, with fixed model settings. */
  function ChatRequestFor(question: string, chunks: seq<string>): (req: ChatRequest)
    ensures req.model == ChatModel && req.maxTokens == MaxTokens && req.temperature == Temperature
    ensures |req.messages| == |chunks| + 1
    ensures forall m :: m in req.messages ==> m.role == UserRole
    ensures ChunksOf(req) == chunks
    ensures AskedQuestion(req) == Some(question)
  {
    var messages := seq(|chunks|, i requires 0 <= i < |chunks| => Message(UserRole, chunks[i]));
    var req := ChatRequest(ChatModel, messages + [Message(UserRole, ApplyPromptTemplate(question))], MaxTokens, Temperature);
    assert ChunksOf(req) == chunks;
    req
  }

  /** The contents of every message but the last. */
  function ChunksOf(req: ChatRequest): seq<string> {
    if |req.messages| == 0 then []
    else seq(|req.messages| - 1, i requires 0 <= i < |req.messages| - 1 => req.messages[i].content)
  }

  /** The question carried by the last message, if it is templated. */
  function AskedQuestion(req: ChatRequest): Option<string> {
    if |req.messages| == 0 then None else QuestionOf(req.messages[|req.messages| - 1].content)
  }

  /** `req` is a request `call_chatgpt_api` could send for `question` over
      `chunks`: the fixed model settings, only user messages, the chunks as
      all but the last message, and the templated question last. */
  predicate Carries(req: ChatRequest, question: string, chunks: seq<string>) {
    && req.model == ChatModel && req.maxTokens == MaxTokens && req.temperature == Temperature
    && (forall m :: m in req.messages ==> m.role == UserRole)
    && ChunksOf(req) == chunks
    && AskedQuestion(req) == Some(question)
  }

  /** Exactly one request carries a given question over given chunks. */
  lemma RequestDetermined(question: string, chunks: seq<string>)
    ensures Carries(ChatRequestFor(question, chunks), question, chunks)
    ensures forall req :: Carries(req, question, chunks) ==> req == ChatRequestFor(question, chunks)
  {
    forall req | Carries(req, question, chunks) ensures req == ChatRequestFor(question, chunks) {
      CarriedRequestIsBuilt(req, question, chunks);
    }
  }

  lemma CarriedRequestIsBuilt(req: ChatRequest, question: string, chunks: seq<string>)
    requires Carries(req, question, chunks)
    ensures req == ChatRequestFor(question, chunks)
  {
    var want := ChatRequestFor(question, chunks);
    var n := |req.messages|;
    assert n > 0;
    assert |ChunksOf(req)| == n - 1;
    assert |want.messages| == n;
    forall i | 0 <= i < n - 1 ensures req.messages[i] == want.messages[i] {
      assert req.messages[i].content == ChunksOf(req)[i] == chunks[i];
      assert want.messages[i].content == ChunksOf(want)[i] == chunks[i];
      assert req.messages[i] in req.messages && want.messages[i] in want.messages;
    }
    UnwrapFrames(req.messages[n - 1].content, TemplateHead, TemplateTail, question);
    UnwrapFrames(want.messages[n - 1].content, TemplateHead, TemplateTail, question);
    assert req.messages[n - 1] in req.messages && want.messages[n - 1] in want.messages;
    assert req.messages == want.messages;
  }

  /** The request is determined by, and determines, its question and chunks. */
  lemma ChatRequestInjective(q1: string, c1: seq<string>, q2: string, c2: seq<string>)
    ensures ChatRequestFor(q1, c1) == ChatRequestFor(q2, c2) <==> q1 == q2 && c1 == c2
  {
  }

  // ---------------------------------------------------------------------------
  // ask
  // ---------------------------------------------------------------------------

  /** A completion response; only the message contents of its choices matter. */
  datatype ChatResponse = ChatResponse(choices: seq<string>)

  /** `ask(user_question)` with the vector store and the chat service as
      parameters. The answer is the first choice's content; a response with
      no choice is the source's `IndexError`, here `None`. */
  function Ask(question: string, datastore: seq<Query> -> seq<QueryResult>,
               chat: ChatRequest -> ChatResponse): (answer: Option<string>)
    ensures forall req :: Carries(req, question, Flatten(datastore(BuildQueries(question)))) ==>
      && (answer.None? <==> |chat(req).choices| == 0)
      && (answer.Some? ==> answer.value == chat(req).choices[0])
  {
    var chunks := Flatten(datastore(BuildQueries(question)));
    RequestDetermined(question, chunks);
    var response := chat(ChatRequestFor(question, chunks));
    if |response.choices| == 0 then None else Some(response.choices[0])
  }
}
