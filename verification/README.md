# gmail-autoreply: a Dafny model of the reply logic

gmail-autoreply is a small Node.js service. It polls a Gmail mailbox and answers
every new single-message thread with a fixed vacation note. It then moves the
thread out of the inbox into a "Vacation Email" label. Its pure, sequential core
is modelled here and its properties proved:

- **The reply synthesiser** `generateEmailContent` (`Reply`). It scans the
  message headers for From, To and Subject, with the last occurrence winning.
  It lays out the reply with the addresses swapped and the subject prefixed by
  `Re: `. It encodes the text as UTF-8, then standard Base 64 (section 4 of
  RFC 4648). It then maps the result to the base64url alphabet (RFC 4648
  section 5) and strips the `=` padding, as RFC 4648 section 3.2 permits.
- **The codecs underneath** (`Base64`, `Utf8`, `Text`). These are the RFC 4648
  encoder with reference decoders for the padded and padding-free forms, and
  UTF-8 (RFC 3629) with a strict decoder. `Text` holds the two JavaScript
  string operations the encoder chain uses: a global single-character
  `replace` and the `/=+$/` strip. Its `Lines` and `Join` are not something
  the source does: they are the vocabulary in which the line layout of the
  reply template is stated.
- **Label get-or-create** `createLabel` (`Labels`), over a label store kept as
  an ordered sequence.
- **One reply cycle** of `autoReply` (`Cycle`), as a sequential pass over the
  first page of the listing. It covers the eligibility rule, the send, and the
  relabel that removes `INBOX` and adds the vacation label.

`Wrappers` (an `Option` type) and `Bytes` (octets as `0..255`) are shared
helpers.

Modelling choices:

- The mailbox is an in-memory store: a map from thread id to thread, and the
  sequence of send requests made so far.
- The provider behaviour the source relies on is modelled. A sent reply joins
  its thread as a second message. A relabel removes one label id and adds
  another.
- A send request records the thread and the message it answers. `Cycle.Raw` of
  a request is its `raw` body, i.e. `generateEmailContent(message).encodedMessage`.
- Values the provider or the clock supply become parameters: the id a new label
  gets, the time stamped on a sent reply, and the listing of unread inbox
  messages.
- `internalDate` is an integer (milliseconds since the epoch). The template
  literal's line breaks are LF, as ECMAScript template literals normalise them.

## Model

| member | source | states |
|---|---|---|
| Reply.ScanHeadersCollects | index.js:82-89 | The scan `Reply.ScanHeaders` yields, for From and To, the value of the last header with exactly that name, and for Subject `"Re: "` plus the last Subject value; each field is `""` when no header has that name |
| Reply.CollectsUnique | index.js:82-89 | Those per-header conditions determine the three fields uniquely, so they fully specify the scan |
| Reply.LastExists | index.js:85-88 | A header name that occurs at all has a last occurrence, the one whose value the scan keeps |
| Reply.Template | index.js:91-99 | When the header values hold no line break, the reply's lines are `From: <original To>`, `To: <original From>`, `Subject: <subject>`, an empty line, then the lines of the body, and those remaining lines join back to the body verbatim |
| Reply.LayoutLines | index.js:91-99 | When the From, To and Subject values hold no line break, for any body the template's three header lines and blank line come first, followed by the lines of the body |
| Reply.EncodeRaw | index.js:101-105 | Base 64, `+`→`-`, `/`→`_`, strip trailing `=`: every output character is in `A-Z a-z 0-9 - _`, none is `=`, the length is `4*(n/3) + [0,2,3][n%3]` for n octets, the base64url decoder gives the octets back, and restoring the padding gives the padded base64url encoding |
| Reply.EncodeRawIsUnpadded | index.js:101-105 | The three string rewrites of the standard encoding equal the padding-free base64url encoding |
| Reply.TranslateAlphabet | index.js:103-104 | Replacing `+` by `-` and `/` by `_` turns the RFC 4648 section 4 encoding into the RFC 4648 section 5 encoding |
| Reply.GenerateEmailContent | index.js:81-108 | The returned `from` is the last From value, or `""` when there is none; the encoded message decodes (base64url, padding restored) to the UTF-8 octets of the reply built from the scanned fields |
| Reply.ReplyDecodes | index.js:81-108 | Decoding the encoded message as base64url and then as UTF-8 gives back the reply text built from the scanned fields, for every message |
| Reply.ReplyReadsBack | index.js:81-108 | End to end: decoding the encoded message and then the UTF-8 gives the reply text; its first four lines are the swapped From/To lines, the `Subject:` line and an empty line; the remaining lines join to the vacation body verbatim |
| Reply.ExampleReply | index.js:81-108 | For headers From a@x.com, To b@y.com, Subject Hi: `from` is a@x.com and the decoded reply begins `From: b@y.com`, `To: a@x.com`, `Subject: Re: Hi`, an empty line, then the vacation body |
| Text.ReplaceAll | index.js:103-104 | `replace(/c/g, d)`: same length, every `c` becomes `d`, every other character is kept |
| Text.StripTrailing | index.js:105 | `replace(/=+$/, '')`: the result is a prefix, only `=` were removed, and it does not end in `=` |
| Text.StripTrailingOf | index.js:105 | Stripping a run of `=` from a text that does not end in `=` gives that text back |
| Text.LinesJoin | index.js:91-99 | Splitting on line breaks undoes joining newline-free lines |
| Text.JoinLines | index.js:91-99 | Joining the lines of a text gives the text back |
| Base64.ToSextets | index.js:102 | A final quantum of one or two octets yields 2 or 3 sextets: `4*(n/3) + TailSextets(n%3)` sextets in all |
| Base64.FromSextets | index.js:102 | The reference decoder rejects impossible lengths and non-zero filler bits; whatever it accepts re-encodes to its input |
| Base64.FromToSextets | index.js:102 | Decoding the sextets of any octet sequence gives it back |
| Base64.Unrender | index.js:102-104 | Reading characters succeeds iff all are in the alphabet, and rendering the result gives the text back |
| Base64.UnrenderRender | index.js:102-104 | Reading back rendered sextets gives them back |
| Base64.Encode | index.js:102 | The padded encoding has length `4*ceil(n/3)`, a multiple of four |
| Base64.EncodeUnpadded | index.js:105 | The padding-free encoding has length `4*(n/3) + TailSextets(n%3)` and holds only alphabet characters, never `=` |
| Base64.Decode | index.js:102 | The padded decoder only accepts encodings of what it returns |
| Base64.DecodeIff | index.js:102 | `Decode(p) == Some(b)` iff `p == Encode(b)` |
| Base64.DecodeUnpadded | index.js:105 | The padding-free decoder rejects any `=` and only accepts padding-free encodings of what it returns |
| Base64.DecodeUnpaddedIff | index.js:105 | `DecodeUnpadded(s) == Some(b)` iff `s == EncodeUnpadded(b)` |
| Base64.RestorePaddingOfUnpadded | index.js:105 | Appending the `=` that RFC 4648 section 3.2 lets the sender omit gives back the padded encoding |
| Base64.TrailingPadOfEncode | index.js:102 | The `=` at the end of a padded encoding are exactly its padding |
| Base64.Rfc4648Vectors | index.js:102 | The test vectors of section 10 of RFC 4648: `f`, `fo` and `foobar` encode to `Zg==`, `Zm8=` and `Zm9vYmFy` |
| Base64.AlphabetVectors | index.js:102-104 | The octets FB FF encode to `+/8=` in the standard alphabet and to `-_8=` in the URL-safe one |
| Base64.Char | index.js:102-104 | The alphabet tables: every value maps to an alphabet character other than `=`, which reads back as that value |
| Utf8.EncodeChar | index.js:101 | `Buffer.from` encodes one character in 1 to 4 octets; the lead octet announces the length; the strict decoder gives the character back |
| Utf8.Decode | index.js:101 | The strict decoder only accepts encodings of what it returns |
| Utf8.DecodeEncode | index.js:101 | Decoding the UTF-8 of any string gives it back |
| Utf8.DecodeIff | index.js:101 | `Decode(bs) == Some(s)` iff `bs == Encode(s)` |
| Labels.FindByName | index.js:65 | `labels.find` by exact name: a found position holds the first label with that name, and nothing is found iff no label has that name |
| Labels.CreateLabel | index.js:60-78 | The returned label has the requested name. When one exists, the first such label is returned and the store is unchanged. Otherwise exactly one label, `(freshId, name, labelShow, show)`, is appended and returned |
| Labels.CreateLabelIdempotent | index.js:60-78 | A second call on the resulting store returns the same label and leaves the store unchanged, whatever id a creation would have used |
| Labels.CreateLabelKeepsNamesUnique | index.js:65-76 | A store with unique names keeps them unique |
| Labels.CreateLabelGrowsByAtMostOne | index.js:65-76 | The store only grows, and by at most one label |
| Cycle.Relabel | index.js:141-144 | After the relabel the thread carries the target label, no longer carries `INBOX` (unless that is the target), and keeps its other labels |
| Cycle.ProcessCandidate | index.js:125-145 | For a thread that is `Cycle.Eligible` (exactly one message, newer than the process start), one send answering its first message and the thread relabelled with the reply appended; for a missing or ineligible thread nothing changes; other threads never change |
| Cycle.RunCycle | index.js:123-149 | The candidates are handled one after another: earlier sends are kept as a prefix and the set of thread ids is unchanged; the full effect is stated by Cycle.RunCycleEffect |
| Cycle.RunCycleSends | index.js:124-137 | Over distinct candidates, the sends are exactly the reference list: each eligible candidate in listing order, answering its first message |
| Cycle.RunCycleThreads | index.js:124-145 | Over any listing, each eligible listed thread is answered and relabelled exactly once, however often it is listed, and every other thread is unchanged |
| Cycle.RunCycleDedup | index.js:124-129 | A listing that repeats a thread acts as its first occurrences: no thread is answered twice in one pass |
| Cycle.RunCycleEffect | index.js:124-145 | Over any listing, the sends go to each eligible listed thread once, in order of first listing; the threads are the reference threads |
| Cycle.ExpectedSendsBound | index.js:129-137 | At most one send per candidate; each goes to a listed thread that is eligible in the snapshot and answers its first message |
| Cycle.FirstPage | index.js:116-120 | `maxResults: 10`: the page is the first `min(n, 10)` entries of an n-entry listing, and the whole listing when it has at most ten |
| Cycle.AutoReply | index.js:111-151 | One pass fetches or creates the vacation label and answers the first page; it keeps earlier sends and earlier labels as prefixes; the effect is stated by Cycle.AutoReplyEffect |
| Cycle.AutoReplyEffect | index.js:111-145 | One pass keeps earlier sends; the new sends are exactly the reference list, one per eligible thread on the page in order of first listing, at most ten, each answering its thread's first message. Eligible threads on the page are answered and moved to the vacation label; all other threads are unchanged |
| Cycle.AutoReplyKeepsLabel | index.js:114 | The next pass resolves the same vacation label, and the label store stops growing |
| Cycle.NoSecondReply | index.js:129 | A thread answered in one pass gets no send in the next pass, whatever is listed: it now holds two messages (this rests on the reply joining its thread) |
| Cycle.AnsweredLeaveInbox | index.js:138-144 | When the vacation label is not `INBOX`, every thread a pass answered no longer carries `INBOX`. That a later listing then does not name it rests on the server-side `INBOX` filter, which is not modelled: the listing is a parameter |

## Left out

- OAuth and credential handling (index.js:17-56). This is file I/O, JSON parsing and a foreign library.
- The Gmail transport. `labels.list`, `labels.create`, `messages.list`, `threads.get`, `messages.send` and `threads.modify` act on the in-memory store. The server-side `UNREAD`/`INBOX` filter and pagination are not modelled: the listing is a parameter, cut to its first ten entries.
- The polling timer and its `Math.random` interval (index.js:158). This is randomness, floating point and wall-clock time.
- The fire-and-forget concurrency of index.js:124-149: un-awaited `threads.modify`, overlapping cycles and unordered completion. The cycle is a sequential pass in listing order. No `.catch` is attached to `threads.get`, `messages.send`, `threads.modify` or the `autoReply(auth)` call at index.js:158, so a failure there is an unhandled rejection; older Node versions only warn, and since Node 15 the process exits by default. The model skips a thread id the store does not hold.
- API errors from `labels.list`, `labels.create` and `messages.list` (index.js:61-120) are not modelled: Labels.CreateLabel and Cycle.AutoReply have no error path, because a failed call there aborts the pass rather than producing a value.
- The `throw err` on an undefined identifier (index.js:112) and the console logging (index.js:146-147, 157).
- Lone UTF-16 surrogates in header values. A Dafny `char` is a Unicode scalar value, so `Buffer.from`'s replacement of lone surrogates by U+FFFD is not modelled.
- `internalDate` is an integer here. The API delivers it as a decimal string that JavaScript converts for the `>` comparison.
- Reply.Template: the line layout is stated only when the header values hold no line break. A value with a line break adds lines of its own; the text itself is defined for every input.
- Reply.ReplyReadsBack: requires header values without line breaks, for the same reason. The decode round trip alone holds for every input and is stated by Reply.ReplyDecodes.
- Cycle.RunCycleSends: stated for listings without repeats. Cycle.RunCycleEffect covers any listing through Cycle.RunCycleDedup.
