/** The conversation of the chat page: its records and the three `setMessages` updaters of
    `sendMessage`, each a pure function from the latest list to the next one. */
module Messages {
  import opened Wrappers

  datatype Role = User | Assistant

  /** One `{role, content}` record. */
  datatype Message = Message(role: Role, content: string)

  /** The assistant's greeting the page starts with. */
  const Greeting: string := "Hi! I'm the Professor AI support assistant. How can I help you today?"

  /** The content of the record the catch branch appends. */
  const ErrorText: string := "Something Went Wrong...Please try again later."

  /** The submit updater: the user's record and an empty assistant placeholder, after the
      list it is given. */
  function AppendExchange(msgs: seq<Message>, input: string): (r: seq<Message>)
    ensures |r| == |msgs| + 2 && r[..|msgs|] == msgs
    ensures r[|msgs|] == Message(User, input) && r[|msgs| + 1] == Message(Assistant, "")
  {
    msgs + [Message(User, input), Message(Assistant, "")]
  }

  /** The list serialised into the request: the messages captured before the submit update,
      then the user's record. */
  function RequestBody(msgs: seq<Message>, input: string): (r: seq<Message>)
    ensures |r| == |msgs| + 1 && r[..|msgs|] == msgs && r[|msgs|] == Message(User, input)
  {
    msgs + [Message(User, input)]
  }

  /** The request body is the submitted list without its placeholder. */
  lemma RequestOmitsPlaceholder(msgs: seq<Message>, input: string)
    ensures RequestBody(msgs, input) == AppendExchange(msgs, input)[..|msgs| + 1]
    ensures AppendExchange(msgs, input) == RequestBody(msgs, input) + [Message(Assistant, "")]
  {
  }

  /** The text one chunk contributes; a read without a value decodes an empty byte array. */
  function ChunkText(value: Option<string>): (text: string)
    ensures value.Some? ==> text == value.value
    ensures value.None? ==> text == ""
  {
    value.GetOr("")
  }

  /** The chunk updater: only the last record changes, keeping its role and gaining `text`
      at the end of its content. */
  function AppendToLast(msgs: seq<Message>, text: string): (r: seq<Message>)
    requires |msgs| > 0
    ensures |r| == |msgs| && r[..|msgs| - 1] == msgs[..|msgs| - 1]
    ensures r[|msgs| - 1].role == msgs[|msgs| - 1].role
    ensures r[|msgs| - 1].content == msgs[|msgs| - 1].content + text
  {
    var last := msgs[|msgs| - 1];
    msgs[..|msgs| - 1] + [last.(content := last.content + text)]
  }

  /** A chunk with no value leaves the list as it was. */
  lemma EmptyChunkKeepsList(msgs: seq<Message>)
    requires |msgs| > 0
    ensures AppendToLast(msgs, ChunkText(None)) == msgs
  {
    var r := AppendToLast(msgs, ChunkText(None));
    assert r[..|msgs| - 1] == msgs[..|msgs| - 1];
    assert r[|msgs| - 1] == msgs[|msgs| - 1];
    assert forall i :: 0 <= i < |msgs| - 1 ==> r[i] == r[..|msgs| - 1][i];
  }

  /** The catch updater: one assistant record holding the fixed apology after the list it is
      given. */
  function AppendError(msgs: seq<Message>): (r: seq<Message>)
    ensures |r| == |msgs| + 1 && r[..|msgs|] == msgs
    ensures r[|msgs|] == Message(Assistant, ErrorText)
  {
    msgs + [Message(Assistant, ErrorText)]
  }

  /** The running `result`: the texts of the chunks read so far, in order. */
  function Received(chunks: seq<Option<string>>): string {
    if chunks == [] then "" else Received(chunks[..|chunks| - 1]) + ChunkText(chunks[|chunks| - 1])
  }

  /** The reply is empty exactly when every chunk contributes the empty string. */
  lemma {:induction false} ReceivedEmptyIff(chunks: seq<Option<string>>)
    ensures Received(chunks) == "" <==> forall i :: 0 <= i < |chunks| ==> ChunkText(chunks[i]) == ""
  {
    if chunks != [] {
      var front := chunks[..|chunks| - 1];
      ReceivedEmptyIff(front);
      assert forall i :: 0 <= i < |front| ==> front[i] == chunks[i];
    }
  }

  /** The list after the chunk updater has run once per chunk, in order, each time on the
      list the previous run left. */
  function ApplyChunks(msgs: seq<Message>, chunks: seq<Option<string>>): (r: seq<Message>)
    requires |msgs| > 0
    ensures |r| == |msgs|
  {
    if chunks == [] then msgs
    else AppendToLast(ApplyChunks(msgs, chunks[..|chunks| - 1]), ChunkText(chunks[|chunks| - 1]))
  }

  /** Streaming chunks changes only the last record: its role stays and its content becomes
      the old content followed by every chunk's text, in order. */
  lemma {:induction false} ApplyChunksEffect(msgs: seq<Message>, chunks: seq<Option<string>>)
    requires |msgs| > 0
    ensures ApplyChunks(msgs, chunks)[..|msgs| - 1] == msgs[..|msgs| - 1]
    ensures ApplyChunks(msgs, chunks)[|msgs| - 1]
         == Message(msgs[|msgs| - 1].role, msgs[|msgs| - 1].content + Received(chunks))
  {
    if chunks != [] {
      var front := chunks[..|chunks| - 1];
      ApplyChunksEffect(msgs, front);
      var before := ApplyChunks(msgs, front);
      var text := ChunkText(chunks[|chunks| - 1]);
      assert msgs[|msgs| - 1].content + Received(front) + text
          == msgs[|msgs| - 1].content + Received(chunks);
    }
  }

  /** The received text does not depend on where the chunk boundaries fall. */
  lemma {:induction false} ReceivedSplit(a: seq<Option<string>>, b: seq<Option<string>>)
    ensures Received(a + b) == Received(a) + Received(b)
  {
    if b == [] {
      assert a + b == a;
    } else {
      var front, last := b[..|b| - 1], b[|b| - 1];
      assert b == front + [last];
      assert a + b == (a + front) + [last];
      ReceivedSplit(a, front);
      ReceivedSnoc(a + front, last);
      ReceivedSnoc(front, last);
      assert (Received(a) + Received(front)) + ChunkText(last)
          == Received(a) + (Received(front) + ChunkText(last));
    }
  }

  /** One more chunk adds its text at the end. */
  lemma ReceivedSnoc(chunks: seq<Option<string>>, last: Option<string>)
    ensures Received(chunks + [last]) == Received(chunks) + ChunkText(last)
  {
    assert (chunks + [last])[..|chunks|] == chunks;
  }

  /** Streaming `a` then `b` is streaming `a + b`: each update starts from the latest list. */
  lemma {:induction false} ApplyChunksSplit(msgs: seq<Message>, a: seq<Option<string>>, b: seq<Option<string>>)
    requires |msgs| > 0
    ensures ApplyChunks(msgs, a + b) == ApplyChunks(ApplyChunks(msgs, a), b)
  {
    if b == [] {
      assert a + b == a;
    } else {
      var front, last := b[..|b| - 1], b[|b| - 1];
      assert b == front + [last];
      assert a + b == (a + front) + [last];
      ApplyChunksSplit(msgs, a, front);
      ApplyChunksSnoc(msgs, a + front, last);
      ApplyChunksSnoc(ApplyChunks(msgs, a), front, last);
    }
  }

  /** One more chunk runs the chunk updater once more, on the latest list. */
  lemma ApplyChunksSnoc(msgs: seq<Message>, chunks: seq<Option<string>>, last: Option<string>)
    requires |msgs| > 0
    ensures ApplyChunks(msgs, chunks + [last]) == AppendToLast(ApplyChunks(msgs, chunks), ChunkText(last))
  {
    assert (chunks + [last])[..|chunks|] == chunks;
  }

  /** `b` is `a` grown: nothing removed or reordered, every record of `a` but its last kept
      as it was, and `a`'s last record kept in role with its content only extended. */
  predicate Grows(a: seq<Message>, b: seq<Message>) {
    |a| <= |b| &&
    (forall i :: 0 <= i < |a| - 1 ==> b[i] == a[i]) &&
    (|a| > 0 ==> b[|a| - 1].role == a[|a| - 1].role && a[|a| - 1].content <= b[|a| - 1].content)
  }

  lemma GrowsTransitive(a: seq<Message>, b: seq<Message>, c: seq<Message>)
    requires Grows(a, b) && Grows(b, c)
    ensures Grows(a, c)
  {
  }

  /** Every updater grows the list it is given. */
  lemma UpdatersGrow(msgs: seq<Message>, input: string, text: string)
    ensures Grows(msgs, AppendExchange(msgs, input))
    ensures Grows(msgs, AppendError(msgs))
    ensures |msgs| > 0 ==> Grows(msgs, AppendToLast(msgs, text))
  {
  }

  /** Streaming any chunks grows the list. */
  lemma {:induction false} ApplyChunksGrows(msgs: seq<Message>, chunks: seq<Option<string>>)
    requires |msgs| > 0
    ensures Grows(msgs, ApplyChunks(msgs, chunks))
  {
    ApplyChunksEffect(msgs, chunks);
    var r := ApplyChunks(msgs, chunks);
    assert forall i :: 0 <= i < |msgs| - 1 ==> r[i] == r[..|msgs| - 1][i];
  }
}
