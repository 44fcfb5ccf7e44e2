# Chat page conversation state machine

A model of the `sendMessage` handler of the `Chat` component of the page in
`app/page.tsx`, with React and the network removed. The component holds three pieces of
state: `messages`, a list of `{role, content}` records; `message`, the input buffer; and
`isFetching`, a flag. `sendMessage` changes them in four steps:

- **Submit.** Blank input (empty after ECMAScript `trim`) returns at once. Otherwise the
  handler appends a user record and an empty assistant placeholder, clears the input and
  sets the flag. It then POSTs the list it captured before the update, plus the user record.
- **Chunk.** Each chunk read from the body is appended to the content of the last record,
  and to a running `result`.
- **Done.** Clears the flag and returns `result`.
- **Error.** A rejected fetch, a missing body or a rejected read ends in the catch branch.
  It appends one assistant record with a fixed apology and clears the flag.

Modules:

- `Wrappers`: `Option`, standing for a value that may be `undefined`.
- `JsString`: ECMAScript's `String.prototype.trim` over Unicode scalar values. It uses the
  WhiteSpace and LineTerminator code points of sections 12.2 and 12.3 of ECMA-262.
- `Messages`: the records and the three `setMessages` updaters, written as pure
  functions. Also the fold of the chunk updater over a chunk sequence, and `Grows`, the
  relation "the conversation only grew" that every updater keeps.
- `Stream`: the transport's behaviour as data (`Response`), and a `Reader` class whose
  `Read` pulls the next chunk and then the ending. `Read` cannot be called after the
  ending.
- `Page`: the class `Chat`, whose fields are the three pieces of state. Its methods are
  `SendMessage`, `Submit` (the submit step), `Await` (the `try` block), `ProcessText` (the
  pull loop) and `Recover` (the catch branch). The functions `Settle` and `AfterSend` specify the conversation
  after a send settles.

The catch branch (app/page.tsx:95-101) appends a new assistant record after the
placeholder, which keeps any text streamed before the failure. The new record's content is
the fixed text `Something Went Wrong...Please try again later.` (line 99).

## Model

| member | source | states |
|---|---|---|
| JsString.TrimStart | app/page.tsx:39 | the result is a suffix of the input; everything removed is trimmable and the result does not start with a trimmable character |
| JsString.TrimEnd | app/page.tsx:39 | the result is a prefix of the input; everything removed is trimmable and the result does not end with a trimmable character |
| JsString.Trim | app/page.tsx:39 | `s.trim()` is the piece of `s` left after removing its leading and its trailing trimmable characters: a prefix of `TrimStart(s)` followed there only by trimmable characters. It is empty exactly when every character of `s` is ECMAScript white space or a line terminator (both directions); otherwise it starts and ends with a kept character |
| JsString.IsBlank | app/page.tsx:39 | the guard `!message.trim()` holds exactly when every character of the input is trimmable, the empty input included |
| JsString.TrimKeepsInner | app/page.tsx:39 | a string that starts and ends with kept characters is its own trim, so such input passes the guard |
| JsString.TrimIdempotent | app/page.tsx:39 | trimming a trimmed string changes nothing |
| Messages.AppendExchange | app/page.tsx:41-45 | the submit updater keeps the old list as a prefix and adds exactly `{user, input}` then `{assistant, ""}` |
| Messages.RequestBody | app/page.tsx:56 | the request body is the pre-submit list followed by exactly `{user, input}` |
| Messages.RequestOmitsPlaceholder | app/page.tsx:41-56 | the request body equals the submitted list without its last record, the empty placeholder; adding the placeholder back gives the submitted list |
| Messages.ChunkText | app/page.tsx:76 | a chunk with a value contributes exactly that value's text; a chunk without one falls back to an empty byte array and contributes the empty string |
| Messages.ReceivedEmptyIff | app/page.tsx:65-87 | the accumulated `result` is empty exactly when every chunk read contributes the empty string (both directions) |
| Messages.AppendToLast | app/page.tsx:78-85 | the chunk updater keeps the length and every record before the last; the last keeps its role, and its content becomes the old content followed by the text |
| Messages.EmptyChunkKeepsList | app/page.tsx:76-85 | a chunk read with no value contributes `""` and leaves the list unchanged |
| Messages.AppendError | app/page.tsx:95-101 | the catch updater keeps the whole list, including the placeholder's partial text, and adds one `{assistant, apology}` after it |
| Messages.ApplyChunks | app/page.tsx:67-91 | applying the chunk updater once per chunk keeps the list length |
| Messages.ApplyChunksEffect | app/page.tsx:67-91 | after chunks c1..cn, all records but the last are unchanged; the last keeps its role and its content is the old content followed by c1 ++ ... ++ cn, in order |
| Messages.ReceivedSplit | app/page.tsx:76-87 | the accumulated text of a + b is that of a followed by that of b, so chunk boundaries do not matter |
| Messages.ReceivedSnoc | app/page.tsx:87 | one more chunk adds its text at the end of `result` |
| Messages.ApplyChunksSplit | app/page.tsx:78-85 | streaming a then b equals streaming a + b: each update is applied to the latest list, so no update is lost |
| Messages.ApplyChunksSnoc | app/page.tsx:78-85 | one more chunk runs the chunk updater once more, on the list the earlier chunks left |
| Messages.GrowsTransitive | app/page.tsx:41-101 | growing is transitive, so a sequence of updaters only grows the conversation |
| Messages.UpdatersGrow | app/page.tsx:41-101 | each of the three updaters only appends records or extends the last record's content; no record is removed, reordered or rewritten |
| Messages.ApplyChunksGrows | app/page.tsx:78-85 | streaming any number of chunks only grows the conversation |
| Stream.Reader.constructor | app/page.tsx:63 | a new reader is positioned before the first chunk |
| Stream.Reader.At | app/page.tsx:89 | read number i yields a chunk exactly while chunks remain, and that chunk is the i-th one's value; at the end it yields `done` exactly when the stream completes, and a rejection otherwise |
| Stream.Reader.Read | app/page.tsx:89 | each read advances by one and yields the next chunk or the ending; reading past the ending is ruled out |
| Page.Settle | app/page.tsx:50-103 | settling the submitted list only grows it; a completed stream adds no record, and a rejected fetch, a null body or a rejected read adds exactly one, the apology, as the last record |
| Page.AfterSend | app/page.tsx:38-103 | a non-blank send keeps the earlier messages as a prefix, then the user's record, then at least the placeholder, however the request settles |
| Page.StreamedReply | app/page.tsx:41-93 | a completed stream leaves exactly the old messages, `{user, input}` and `{assistant, c1 ++ ... ++ cn}` |
| Page.BrokenReply | app/page.tsx:65-103 | a stream that rejects after chunks c1..ck leaves the old messages, `{user, input}`, `{assistant, c1 ++ ... ++ ck}` and the apology record, so partial text is kept |
| Page.EarlyFailureReply | app/page.tsx:50-103 | a rejected fetch or a null body leaves the old messages, `{user, input}`, the still-empty placeholder and the apology record |
| Page.AfterSendGrows | app/page.tsx:38-104 | however a send settles, the new conversation grows the old one |
| Page.Chat.constructor | app/page.tsx:11-19 | the page starts with the single greeting record, an empty input and no request outstanding |
| Page.Chat.SetMessage | app/page.tsx:149 | the input change handler sets the input buffer |
| Page.Chat.SendMessage | app/page.tsx:38-104 | blank input: nothing sent and all three fields unchanged; otherwise the request is the pre-submit list plus the user record, the messages are `AfterSend` of the response, the input is cleared and the flag is false on every exit path; the conversation always grows |
| Page.Chat.Submit | app/page.tsx:41-48 | the submit step appends `{user, input}` and the empty placeholder, clears the input and sets the flag, so a request is marked outstanding before it is made |
| Page.Chat.ProcessText | app/page.tsx:63-93 | reads every chunk once, in order, plus exactly one terminal read, and none after it; the messages are the chunk fold of the old ones; it is entered with the flag set and the flag stays set while chunks are read; on `done` the flag is cleared and the accumulated text is returned; on a rejection it throws with the flag still set |
| Page.Chat.Await | app/page.tsx:50-103 | the `try` block after the submit, entered with a request outstanding: the messages become `Settle` of the response, meaning the chunks streamed into the placeholder and the apology appended on any failure; the flag is clear on every way out |
| Page.Chat.Recover | app/page.tsx:94-103 | the catch branch appends the apology record and clears the flag |
| Page.FirstReply | app/page.tsx:41-93 | the greeting followed by a question answered by a completed stream settles to exactly the greeting, `{user, question}` and `{assistant, c1 ++ ... ++ cn}` |
| Page.FirstExchange | app/page.tsx:11-104 | on a fresh page, typing a non-blank question and sending it, with the reply streamed as chunks c1..cn, leaves exactly the greeting, `{user, question}` and `{assistant, c1 ++ ... ++ cn}`, with no request outstanding; it is proved from the contracts of `Chat` alone |
| Page.QuestionIsNotBlank | app/page.tsx:39 | "What is 2+2?" passes the blank-input guard |
| Page.OpeningReply | app/page.tsx:41-93 | after the greeting, the question "What is 2+2?" answered by the chunks "4" and "." leaves the reply `{assistant, "4."}` |

## Left out

- Rendering, Markdown display, icons and the scroll-into-view effect (app/page.tsx:24-28,
  108-166): presentation only.
- `toggleMenu`, `closeMenu` and `menuOpen` (app/page.tsx:11, 30-36): UI state that nothing
  in the handler reads.
- The `fetch` call, its headers, HTTP and JSON serialisation (app/page.tsx:51-57): network
  I/O. The request is returned as the list that would be serialised. The response is a
  parameter: the fetch rejects, there is no body, or a finite sequence of chunks then
  `done` or a rejection. The response does not depend on the request.
- `TextDecoder` (app/page.tsx:64, 76): a foreign library. Chunks arrive already decoded to
  text, so the carry of split multi-byte characters between reads is not modelled. A read
  whose value is absent is `None`, which decodes to the empty string.
- A stream that never ends: the model's streams are finite, so a hung read is not modelled.
  In the source, such a read leaves `isFetching` set.
- Async scheduling and React's batching of state updates (app/page.tsx:89-93): each
  updater is applied in order to the latest state.
- Overlapping sends: nothing in the source prevents a second send while one is pending.
  The model assumes one send at a time.
- JsString.Trim: works on Unicode scalar values, not UTF-16 code units, so lone surrogates
  are not modelled.
- Messages.AppendToLast: requires a non-empty list. In the source an empty list would throw
  inside the updater. That cannot happen when the updater runs, because the submit update
  has already added two records.
- Page.Chat.ProcessText: the `result` it returns is discarded by `sendMessage`
  (app/page.tsx:93), so `SendMessage` does not return it either.
