/** The `Chat` component of the chat page with its presentation stripped: its three pieces of
    state and the `sendMessage` handler that drives them through one request. */
module Page {
  import opened Wrappers
  import opened JsString
  import opened Messages
  import opened Stream

  /** How the pull loop ends: it returns the accumulated text, or it throws. */
  datatype Completion = Returned(result: string) | Threw

  /** The conversation once the request made after the submit update settles on `response`:
      the chunks are streamed into the placeholder, and any failure appends the apology. It
      only grows the submitted list; a completed stream adds no record, and every failure
      adds exactly one, the apology, at the end. */
  function Settle(submitted: seq<Message>, response: Response): (r: seq<Message>)
    requires |submitted| > 0
    ensures Grows(submitted, r)
    ensures |r| == |submitted| + (if response.Body? && response.ending == Completes then 0 else 1)
    ensures !(response.Body? && response.ending == Completes) ==> r[|r| - 1] == Message(Assistant, ErrorText)
  {
    UpdatersGrow(submitted, "", "");
    match response
    case Body(chunks, Completes) =>
      ApplyChunksGrows(submitted, chunks);
      ApplyChunks(submitted, chunks)
    case Body(chunks, Breaks) =>
      ApplyChunksGrows(submitted, chunks);
      var streamed := ApplyChunks(submitted, chunks);
      UpdatersGrow(streamed, "", "");
      GrowsTransitive(submitted, streamed, AppendError(streamed));
      AppendError(streamed)
    case _ =>
      AppendError(submitted)
  }

  /** The conversation once a non-blank send of `input` has settled on `response`: the
      earlier messages and the user's record stay as they were sent, and at least the
      placeholder follows them. */
  function AfterSend(msgs: seq<Message>, input: string, response: Response): (r: seq<Message>)
    ensures |r| >= |msgs| + 2 && r[..|msgs|] == msgs && r[|msgs|] == Message(User, input)
  {
    var submitted := AppendExchange(msgs, input);
    var r := Settle(submitted, response);
    assert r[..|msgs| + 1] == submitted[..|msgs| + 1] by {
      assert forall i :: 0 <= i < |msgs| + 1 ==> r[i] == submitted[i];
    }
    assert r[..|msgs|] == r[..|msgs| + 1][..|msgs|];
    r
  }

  /** A completed stream leaves the user's record and a reply holding every chunk's text, in
      order, after the earlier messages. */
  lemma {:induction false} StreamedReply(msgs: seq<Message>, input: string, chunks: seq<Option<string>>)
    ensures AfterSend(msgs, input, Body(chunks, Completes))
         == msgs + [Message(User, input), Message(Assistant, Received(chunks))]
  {
    var submitted := AppendExchange(msgs, input);
    ApplyChunksEffect(submitted, chunks);
    var r := ApplyChunks(submitted, chunks);
    assert AfterSend(msgs, input, Body(chunks, Completes)) == r;
    assert r[|msgs| + 1] == Message(Assistant, Received(chunks)) by {
      assert "" + Received(chunks) == Received(chunks);
    }
    assert r == r[..|msgs| + 1] + [r[|msgs| + 1]];
    assert submitted[..|msgs| + 1] == msgs + [Message(User, input)];
  }

  /** A stream that breaks after some chunks keeps their text in the placeholder and appends
      the apology after it. */
  lemma {:induction false} BrokenReply(msgs: seq<Message>, input: string, chunks: seq<Option<string>>)
    ensures AfterSend(msgs, input, Body(chunks, Breaks))
         == msgs + [Message(User, input), Message(Assistant, Received(chunks)), Message(Assistant, ErrorText)]
  {
    StreamedReply(msgs, input, chunks);
  }

  /** A fetch that rejects or a response without a body leaves the placeholder empty and
      appends the apology after it. */
  lemma EarlyFailureReply(msgs: seq<Message>, input: string, response: Response)
    requires response == FetchFails || response == NoBody
    ensures AfterSend(msgs, input, response)
         == msgs + [Message(User, input), Message(Assistant, ""), Message(Assistant, ErrorText)]
  {
  }

  /** However a send settles, the conversation only grows. */
  lemma AfterSendGrows(msgs: seq<Message>, input: string, response: Response)
    ensures Grows(msgs, AfterSend(msgs, input, response))
  {
    var submitted := AppendExchange(msgs, input);
    UpdatersGrow(msgs, input, "");
    GrowsTransitive(msgs, submitted, Settle(submitted, response));
  }

  class Chat {
    /** The conversation on display. */
    var messages: seq<Message>
    /** The input box. */
    var message: string
    /** Whether a request is outstanding. */
    var isFetching: bool

    constructor ()
      ensures messages == [Message(Assistant, Greeting)] && message == "" && !isFetching
    {
      messages := [Message(Assistant, Greeting)];
      message := "";
      isFetching := false;
    }

    /** The input's change handler. */
    method SetMessage(s: string)
      modifies this`message
      ensures message == s
    {
      message := s;
    }

    /** `sendMessage`, with the transport's behaviour given as `response`. Returns the list
        serialised into the request, or None when the blank-input guard returns first. */
    method SendMessage(response: Response) returns (request: Option<seq<Message>>)
      modifies this
      ensures IsBlank(old(message)) ==>
        request == None && messages == old(messages) && message == old(message) && isFetching == old(isFetching)
      ensures !IsBlank(old(message)) ==>
        request == Some(RequestBody(old(messages), old(message))) &&
        messages == AfterSend(old(messages), old(message), response) &&
        message == "" && !isFetching
      ensures Grows(old(messages), messages)
    {
      if IsBlank(message) {
        request := None;
        return;
      }
      // The handler's closure keeps the values it was called with.
      var input, captured := message, messages;
      Submit(input);
      request := Some(RequestBody(captured, input));
      Await(response);
      AfterSendGrows(captured, input, response);
    }

    /** The submit step: the exchange is appended, the input cleared and a request marked
        outstanding. */
    method Submit(input: string)
      modifies this`messages, this`message, this`isFetching
      ensures messages == AppendExchange(old(messages), input) && message == "" && isFetching
    {
      messages := AppendExchange(messages, input);
      message := "";
      isFetching := true;
    }

    /** The `try` block after the submit update, entered with a request outstanding: stream
        the response into the placeholder, and on any failure run the catch branch. The flag
        is clear on every way out. */
    method Await(response: Response)
      requires |messages| > 0 && isFetching
      modifies this`messages, this`isFetching
      ensures messages == Settle(old(messages), response) && !isFetching
    {
      match response
      case FetchFails =>
        Recover();
      case NoBody =>
        Recover();
      case Body(chunks, ending) =>
        var reader := new Reader(chunks, ending);
        var outcome := ProcessText(reader);
        if outcome == Threw {
          Recover();
        }
    }

    /** The `processText` pull loop: every chunk read is appended to the last record and to
        `result`, in order; the loop stops at the first `done` or rejection and reads no
        further. The flag stays set while reading; on `done` it is cleared and `result` is
        returned. */
    method ProcessText(reader: Reader) returns (outcome: Completion)
      requires reader.pos == 0 && |messages| > 0 && isFetching
      modifies this`messages, this`isFetching, reader
      ensures reader.pos == |reader.chunks| + 1
      ensures messages == ApplyChunks(old(messages), reader.chunks)
      ensures reader.ending == Completes ==> outcome == Returned(Received(reader.chunks)) && !isFetching
      ensures reader.ending == Breaks ==> outcome == Threw && isFetching
    {
      ghost var start := messages;
      var result := "";
      var r := reader.Read();
      while r.Chunk?
        invariant 1 <= reader.pos <= |reader.chunks| + 1
        invariant r == reader.At(reader.pos - 1)
        invariant messages == ApplyChunks(start, reader.chunks[..reader.pos - 1])
        invariant result == Received(reader.chunks[..reader.pos - 1])
        invariant isFetching
        decreases |reader.chunks| + 1 - reader.pos
      {
        var text := ChunkText(r.value);
        assert reader.chunks[..reader.pos] == reader.chunks[..reader.pos - 1] + [r.value];
        messages := AppendToLast(messages, text);
        result := result + text;
        r := reader.Read();
      }
      assert reader.chunks[..reader.pos - 1] == reader.chunks;
      if r == Done {
        isFetching := false;
        outcome := Returned(result);
      } else {
        outcome := Threw;
      }
    }

    /** The catch branch: append the apology and clear the flag. */
    method Recover()
      modifies this`messages, this`isFetching
      ensures messages == AppendError(old(messages)) && !isFetching
    {
      messages := AppendError(messages);
      isFetching := false;
    }
  }

  /** The question of the page's opening exchange. */
  const Question: string := "What is 2+2?"

  /** The question passes the blank-input guard. */
  lemma QuestionIsNotBlank()
    ensures !IsBlank(Question)
  {
    TrimKeepsInner(Question);
  }

  /** The chunks "4" and "." of the opening exchange make the reply "4.". */
  lemma OpeningReply()
    ensures AfterSend(Opening, Question, Body([Some("4"), Some(".")], Completes))
         == [Message(Assistant, Greeting), Message(User, Question), Message(Assistant, "4.")]
  {
    var chunks := [Some("4"), Some(".")];
    StreamedReply(Opening, Question, chunks);
    assert chunks[..1] == [Some("4")];
    assert Received(chunks) == "4.";
  }

  /** What the greeting, a question and a completed reply settle to. */
  lemma FirstReply(question: string, chunks: seq<Option<string>>, conversation: seq<Message>)
    requires conversation == AfterSend(Opening, question, Body(chunks, Completes))
    ensures conversation == [Message(Assistant, Greeting), Message(User, question), Message(Assistant, Received(chunks))]
  {
    StreamedReply(Opening, question, chunks);
  }

  /** The greeting, the page's opening conversation. */
  const Opening: seq<Message> := [Message(Assistant, Greeting)]

  /** A fresh page on which `question` is typed and sent and the reply streams as `chunks`:
      the conversation is the greeting, the question and the whole reply, and no request is
      outstanding. */
  method FirstExchange(question: string, chunks: seq<Option<string>>) returns (conversation: seq<Message>, fetching: bool)
    requires !IsBlank(question)
    ensures conversation == [Message(Assistant, Greeting), Message(User, question), Message(Assistant, Received(chunks))]
    ensures !fetching
  {
    var chat := new Chat();
    chat.SetMessage(question);
    var request := chat.SendMessage(Body(chunks, Completes));
    conversation, fetching := chat.messages, chat.isFetching;
    FirstReply(question, chunks, conversation);
  }
}
