/**
 * The state the manuscript service keeps between calls: the chat history, the
 * extracted snippets, metadata and axioms, the full text and its chunks, the
 * uploaded PDF and the time of the last request. Ingestion replaces the
 * manuscript and clears the history; a chat turn appends to the history.
 * The language model is replaced by the reply it gives: a parsed extraction
 * record, or the list of stream deltas; clock readings are parameters.
 */
module Session {
  import opened Text
  import Chunker
  import Retriever

  datatype Option<T> = None | Some(value: T)

  /** `o || fallback` for an optional field of a parsed record. */
  function OrElse<T>(o: Option<T>, fallback: T): (r: T)
    ensures o.Some? ==> r == o.value
    ensures o.None? ==> r == fallback
  {
    if o.Some? then o.value else fallback
  }

  /**
   * `field || ""` read with JavaScript truthiness: a non-empty text is kept, and a missing
   * and an empty text both give the empty default.
   */
  lemma OrElseIsOr(o: Option<string>)
    ensures OrElse(o, "") == if o.Some? && o.value != "" then o.value else ""
  {
  }

  datatype Role = System | User | Assistant
  datatype Message = Message(role: Role, content: string)
  datatype Axiom = Axiom(term: string, definition: string, significance: string)
  datatype Metadata = Metadata(title: Option<string>, author: Option<string>, chapters: Option<string>, summary: Option<string>)

  const NO_METADATA: Metadata := Metadata(None, None, None, None)

  /** The record the extraction request answers with; any field may be missing. */
  datatype Extraction = Extraction(
    axioms: Option<seq<Axiom>>, snippets: Option<seq<string>>,
    metadata: Option<Metadata>, fullText: Option<string>)

  /**
   * What the extraction request comes back with: a failed request, no content, content
   * that is not JSON text, or the parsed record (a parsed non-object has every field missing).
   */
  datatype Reply = RequestFailed | NoContent | NotJson | Parsed(record: Extraction)

  /**
   * What the streaming request comes back with: the content of each delta, in
   * order (`None` where a delta has none), and, if the request or the stream
   * breaks, how many deltas arrived before it did.
   */
  datatype StreamReply = StreamReply(deltas: seq<Option<string>>, failsAfter: Option<nat>)

  datatype Error = RequestError | NoContentError | ParseError | StreamError
  datatype Outcome<T> = Success(value: T) | Failure(error: Error)

  // ---------------------------------------------------------------- throttling

  /** The smallest gap between two requests, in milliseconds. */
  const MIN_REQUEST_GAP: int := 3500

  /** How long a request waits when it comes `now`, the previous one having been at `last`. */
  function ThrottleDelay(now: int, last: int): (d: int)
    ensures d >= 0
    ensures now + d >= last + MIN_REQUEST_GAP || d == 0
    ensures d == 0 <==> now - last >= MIN_REQUEST_GAP
    ensures now >= last ==> d <= MIN_REQUEST_GAP
  {
    var since := now - last;
    if since < MIN_REQUEST_GAP then MIN_REQUEST_GAP - since else 0
  }

  /** The delay is the least wait that puts the gap since the previous request at 3500 ms or more. */
  lemma ThrottleDelayIsLeast(now: int, last: int, d: int)
    requires d >= 0 && now + d >= last + MIN_REQUEST_GAP
    ensures ThrottleDelay(now, last) <= d
    ensures now + ThrottleDelay(now, last) >= last + MIN_REQUEST_GAP
  {
  }

  // ---------------------------------------------------------------- prompts

  const CONTEXT_SEPARATOR: string := "\n\n---\n\n"
  const CONTEXT_HEADER: string := "CRITICAL CONTEXT FROM MANUSCRIPT:\n"
  const CONTEXT_QUESTION: string := "\nUSER QUESTION:\n"
  const CONTEXT_INSTRUCTION: string :=
    "\nINSTRUCTION: You MUST answer based on the provided context. Adopt the author's style. Support your answer with direct quotes."
  const FALLBACK_QUESTION: string := "USER QUESTION: "
  const FALLBACK_INSTRUCTION: string :=
    "\nINSTRUCTION: Scan the entire manuscript to find the answer. Adopt the author's style. Be specific and provide quotes."

  /** The user turn sent for `userPrompt`, given the chunks retrieved for it. */
  function AugmentedPrompt(userPrompt: string, relevant: seq<string>): (p: string)
    ensures CONTEXT_HEADER <= p <==> |relevant| > 0
    ensures |relevant| > 0 ==> EndsWith(p, CONTEXT_INSTRUCTION)
    ensures |relevant| == 0 ==> FALLBACK_QUESTION <= p && EndsWith(p, FALLBACK_INSTRUCTION)
  {
    if |relevant| > 0 then
      var front := CONTEXT_HEADER + Join(relevant, CONTEXT_SEPARATOR) + CONTEXT_QUESTION + userPrompt;
      assert (front + CONTEXT_INSTRUCTION)[..|CONTEXT_HEADER|] == CONTEXT_HEADER;
      front + CONTEXT_INSTRUCTION
    else
      var p := FALLBACK_QUESTION + userPrompt + FALLBACK_INSTRUCTION;
      assert p[0] == 'U' != CONTEXT_HEADER[0];
      p
  }

  /** `suffix` ends `s`. */
  predicate EndsWith(s: string, suffix: string) {
    |suffix| <= |s| && s[|s| - |suffix|..] == suffix
  }

  /** The middle part of a three-part string occurs in it, and so does whatever occurs in that part. */
  lemma CarriesMiddle(front: string, middle: string, back: string, sub: string)
    requires exists i :: Occurs(middle, sub, i)
    ensures exists i :: Occurs(front + middle + back, sub, i)
  {
    var i :| Occurs(middle, sub, i);
    OccursExtend(front, middle, back, sub, i);
  }

  /** The user turn carries the question verbatim. */
  lemma AugmentedPromptCarriesQuestion(userPrompt: string, relevant: seq<string>)
    ensures exists i :: Occurs(AugmentedPrompt(userPrompt, relevant), userPrompt, i)
  {
    if |relevant| > 0 {
      var front := CONTEXT_HEADER + Join(relevant, CONTEXT_SEPARATOR) + CONTEXT_QUESTION;
      OccursInMiddle(front, userPrompt, CONTEXT_INSTRUCTION);
      assert Occurs(AugmentedPrompt(userPrompt, relevant), userPrompt, |front|);
    } else {
      OccursInMiddle(FALLBACK_QUESTION, userPrompt, FALLBACK_INSTRUCTION);
      assert Occurs(AugmentedPrompt(userPrompt, relevant), userPrompt, |FALLBACK_QUESTION|);
    }
  }

  /** The context lists the retrieved chunks in ranking order, with the separator between every two. */
  lemma AugmentedPromptContextInOrder(userPrompt: string, relevant: seq<string>)
    requires |relevant| > 0
    ensures AugmentedPrompt(userPrompt, relevant) ==
            CONTEXT_HEADER + Separated(relevant, seq(|relevant| - 1, _ => CONTEXT_SEPARATOR)) +
            CONTEXT_QUESTION + userPrompt + CONTEXT_INSTRUCTION
  {
    JoinIsSeparated(relevant, CONTEXT_SEPARATOR);
  }

  /** When chunks were retrieved, the user turn carries every one of them verbatim. */
  lemma AugmentedPromptCarriesContext(userPrompt: string, relevant: seq<string>, k: nat)
    requires k < |relevant|
    ensures exists i :: Occurs(AugmentedPrompt(userPrompt, relevant), relevant[k], i)
  {
    var joined := Join(relevant, CONTEXT_SEPARATOR);
    JoinIncludes(relevant, CONTEXT_SEPARATOR, k);
    CarriesMiddle(CONTEXT_HEADER, joined, CONTEXT_QUESTION + userPrompt + CONTEXT_INSTRUCTION, relevant[k]);
    assert CONTEXT_HEADER + joined + (CONTEXT_QUESTION + userPrompt + CONTEXT_INSTRUCTION) ==
           AugmentedPrompt(userPrompt, relevant);
  }

  // ---------------------------------------------------------------- streaming

  /** `delta?.content || ""`. */
  function Content(d: Option<string>): string {
    if d.Some? then d.value else ""
  }

  /**
   * `content || ""` read with JavaScript truthiness: a non-empty content is kept, and a
   * missing and an empty one both give the empty fragment.
   */
  lemma ContentIsTruthyOrEmpty(d: Option<string>)
    ensures Content(d) == if d.Some? && d.value != "" then d.value else ""
    ensures Content(d) == "" <==> d.None? || d.value == ""
  {
  }

  function Contents(ds: seq<Option<string>>): (r: seq<string>)
    ensures |r| == |ds|
  {
    seq(|ds|, i requires 0 <= i < |ds| => Content(ds[i]))
  }

  /** The fragments that are not empty, in order: what reaches the listener. */
  function NonEmpty(fs: seq<string>): seq<string> {
    if fs == [] then []
    else
      var last := fs[|fs| - 1];
      NonEmpty(fs[..|fs| - 1]) + (if last == [] then [] else [last])
  }

  lemma NonEmptySnoc(fs: seq<string>, f: string)
    ensures NonEmpty(fs + [f]) == if f == [] then NonEmpty(fs) else NonEmpty(fs) + [f]
  {
    assert (fs + [f])[..|fs|] == fs;
    if f == [] {
      assert NonEmpty(fs) + [] == NonEmpty(fs);
    }
  }

  lemma ConcatSnoc(fs: seq<string>, f: string)
    ensures Concat(fs + [f]) == Concat(fs) + f
  {
    assert (fs + [f])[..|fs|] == fs;
  }

  /** No empty fragment reaches the listener. */
  lemma {:induction false} NonEmptyHasNoEmpty(fs: seq<string>)
    ensures forall k :: 0 <= k < |NonEmpty(fs)| ==> NonEmpty(fs)[k] != []
    decreases |fs|
  {
    if fs != [] {
      var init := fs[..|fs| - 1];
      var last := fs[|fs| - 1];
      NonEmptyHasNoEmpty(init);
      assert fs == init + [last];
      NonEmptySnoc(init, last);
    }
  }

  /** Dropping the empty fragments does not change their concatenation. */
  lemma {:induction false} NonEmptyConcat(fs: seq<string>)
    ensures Concat(NonEmpty(fs)) == Concat(fs)
    decreases |fs|
  {
    if fs != [] {
      var init := fs[..|fs| - 1];
      var last := fs[|fs| - 1];
      NonEmptyConcat(init);
      assert fs == init + [last];
      NonEmptySnoc(init, last);
      ConcatSnoc(init, last);
      if last != [] {
        ConcatSnoc(NonEmpty(init), last);
      } else {
        assert Concat(init) + last == Concat(init);
      }
    }
  }

  lemma ContentsSnoc(ds: seq<Option<string>>, i: nat)
    requires i < |ds|
    ensures Contents(ds[..i + 1]) == Contents(ds[..i]) + [Content(ds[i])]
  {
  }

  /** How many deltas the listener sees before the stream ends or breaks. */
  function Delivered(reply: StreamReply): (n: nat)
    ensures n <= |reply.deltas|
    ensures reply.failsAfter.None? ==> n == |reply.deltas|
  {
    if reply.failsAfter.Some? && reply.failsAfter.value < |reply.deltas| then reply.failsAfter.value
    else |reply.deltas|
  }

  /** The history before a turn: none yet counts as empty. */
  function HistoryOf(chat: Option<seq<Message>>): seq<Message> {
    OrElse(chat, [])
  }

  // ---------------------------------------------------------------- the session

  class ManuscriptSession {
    var chat: Option<seq<Message>>
    var snippets: seq<string>
    var chunks: seq<string>
    var fullText: string
    var pdf: Option<string>
    var metadata: Metadata
    var axioms: seq<Axiom>
    var lastRequestTime: int

    /** The chunks are always those of the stored text. */
    predicate Valid()
      reads this
    {
      chunks == Chunker.Chunks(fullText, Chunker.CHUNK_SIZE, Chunker.CHUNK_OVERLAP)
    }

    /** The state when the service starts: nothing loaded, no history, no request yet. */
    constructor()
      ensures Valid()
      ensures chat == None && snippets == [] && chunks == [] && fullText == []
      ensures pdf == None && metadata == NO_METADATA && axioms == [] && lastRequestTime == 0
    {
      chat := None;
      snippets := [];
      chunks := [];
      fullText := [];
      pdf := None;
      metadata := NO_METADATA;
      axioms := [];
      lastRequestTime := 0;
    }

    /** `getManuscriptSnippets`. */
    function Snippets(): (r: seq<string>)
      reads this
      ensures r == snippets
    {
      snippets
    }

    /**
     * `throttleRequest`: the request that comes `now` waits the returned delay, and
     * the clock reading `wake` taken after the wait becomes the time of the last request.
     */
    method Throttle(now: int, wake: int) returns (delay: int)
      modifies this
      ensures delay == ThrottleDelay(now, old(lastRequestTime))
      ensures lastRequestTime == wake
      ensures chat == old(chat) && snippets == old(snippets) && chunks == old(chunks)
      ensures fullText == old(fullText) && pdf == old(pdf) && metadata == old(metadata) && axioms == old(axioms)
    {
      var since := now - lastRequestTime;
      delay := 0;
      if since < MIN_REQUEST_GAP {
        delay := MIN_REQUEST_GAP - since;
      }
      lastRequestTime := wake;
    }

    /**
     * `extractAxioms`: the history is dropped and the PDF stored before the request;
     * a parsed reply replaces every manuscript field (or its empty default), rechunks
     * the text, drops the PDF and returns the reply's own `axioms` field; on any
     * failure the manuscript fields stay as they were.
     */
    method ExtractAxioms(pdfBase64: string, now: int, wake: int, reply: Reply)
      returns (result: Outcome<Option<seq<Axiom>>>)
      requires Valid()
      modifies this
      ensures Valid()
      ensures lastRequestTime == wake && chat == None
      ensures reply.Parsed? ==>
                var rec := reply.record;
                result == Success(rec.axioms) &&
                snippets == OrElse(rec.snippets, []) && fullText == OrElse(rec.fullText, []) &&
                metadata == OrElse(rec.metadata, NO_METADATA) && axioms == OrElse(rec.axioms, []) &&
                chunks == Chunker.Chunks(fullText, Chunker.CHUNK_SIZE, Chunker.CHUNK_OVERLAP) &&
                pdf == None
      ensures !reply.Parsed? ==>
                result.Failure? &&
                (reply.NoContent? <==> result.error == NoContentError) &&
                pdf == Some(pdfBase64) &&
                snippets == old(snippets) && fullText == old(fullText) && metadata == old(metadata) &&
                axioms == old(axioms) && chunks == old(chunks)
    {
      var _ := Throttle(now, wake);
      chat := None;
      pdf := Some(pdfBase64);
      match reply {
        case RequestFailed =>
          result := Failure(RequestError);
        case NoContent =>
          result := Failure(NoContentError);
        case NotJson =>
          result := Failure(ParseError);
        case Parsed(rec) =>
          snippets := OrElse(rec.snippets, []);
          fullText := OrElse(rec.fullText, []);
          metadata := OrElse(rec.metadata, NO_METADATA);
          axioms := OrElse(rec.axioms, []);
          chunks := Chunker.ChunkText(fullText, Chunker.CHUNK_SIZE, Chunker.CHUNK_OVERLAP);
          pdf := None;
          result := Success(rec.axioms);
      }
    }

    /**
     * `chatWithManuscriptStream`: the user turn (the question with the retrieved
     * context) is appended to the history, created if there is none; every non-empty
     * delta goes to the listener in order; when the stream completes, their
     * concatenation is appended as the assistant turn.
     */
    method ChatWithManuscriptStream(userPrompt: string, now: int, wake: int, reply: StreamReply)
      returns (heard: seq<string>, result: Outcome<()>)
      requires Valid()
      modifies this
      ensures Valid()
      ensures lastRequestTime == wake
      ensures snippets == old(snippets) && chunks == old(chunks) && fullText == old(fullText)
      ensures pdf == old(pdf) && metadata == old(metadata) && axioms == old(axioms)
      ensures heard == NonEmpty(Contents(reply.deltas[..Delivered(reply)]))
      ensures var turn := Message(User, AugmentedPrompt(userPrompt, Retriever.Retrieve(userPrompt, chunks, Retriever.DEFAULT_TOP_K)));
              if reply.failsAfter.None? then
                result == Success(()) && chat == Some(HistoryOf(old(chat)) + [turn, Message(Assistant, Concat(heard))])
              else
                result == Failure(StreamError) && chat == Some(HistoryOf(old(chat)) + [turn])
    {
      var _ := Throttle(now, wake);
      var prompt := UserTurn(userPrompt, chunks);
      if chat.None? {
        chat := Some([]);
      }
      ghost var history := chat.value;
      chat := Some(chat.value + [Message(User, prompt)]);

      var fullResponse;
      heard, fullResponse := ReadStream(reply.deltas, Delivered(reply));
      if reply.failsAfter.Some? {
        result := Failure(StreamError);
        return;
      }
      chat := Some(chat.value + [Message(Assistant, fullResponse)]);
      assert chat.value == history + [Message(User, prompt), Message(Assistant, fullResponse)];
      result := Success(());
    }
  }

  /** Lines 159-172: the user turn for `userPrompt`, with the chunks retrieved for it. */
  method UserTurn(userPrompt: string, chunks: seq<string>) returns (prompt: string)
    ensures prompt == AugmentedPrompt(userPrompt, Retriever.Retrieve(userPrompt, chunks, Retriever.DEFAULT_TOP_K))
  {
    var relevant := Retriever.Retrieve(userPrompt, chunks, Retriever.DEFAULT_TOP_K);
    prompt := AugmentedPrompt(userPrompt, relevant);
  }

  /**
   * The `for await` loop over the first `n` deltas: every non-empty content is
   * passed to the listener (the returned `heard`) and appended to the response.
   */
  method ReadStream(deltas: seq<Option<string>>, n: nat) returns (heard: seq<string>, fullResponse: string)
    requires n <= |deltas|
    ensures heard == NonEmpty(Contents(deltas[..n]))
    ensures fullResponse == Concat(heard)
  {
    fullResponse := [];
    heard := [];
    var i := 0;
    while i < n
      invariant 0 <= i <= n
      invariant heard == NonEmpty(Contents(deltas[..i]))
      invariant fullResponse == Concat(heard)
    {
      var content := Content(deltas[i]);
      ContentsSnoc(deltas, i);
      NonEmptySnoc(Contents(deltas[..i]), content);
      if content != [] {
        ConcatSnoc(heard, content);
        fullResponse := fullResponse + content;
        heard := heard + [content];
      }
      i := i + 1;
    }
  }

  /** What the listener hears, glued together, is every delta's content in order. */
  lemma HeardIsWholeResponse(reply: StreamReply)
    requires reply.failsAfter.None?
    ensures Concat(NonEmpty(Contents(reply.deltas[..Delivered(reply)]))) == Concat(Contents(reply.deltas))
  {
    assert reply.deltas[..Delivered(reply)] == reply.deltas;
    NonEmptyConcat(Contents(reply.deltas));
  }
}
