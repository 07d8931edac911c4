# Verified model of the Kernway core

This project models the parts of Kernway whose behaviour is decided by state, parsing or
arithmetic, and proves what they promise. Code that changes things step by step is modelled
by classes and loops, each proved against a function of its input; the results are lemmas
about those functions.

- **Dependency injection** (`Beans`, `Graphs`, `Wiring`, `Context`): the bean store and the
  scheduler that builds queued components. What is built before a stall is the least fixpoint
  of readiness, so the outcome does not depend on the order of registration.
- **HTTP client body** (`Chunked`, `ChunkGrammar`, `Pool`, `Streams`, `Connections`,
  `ReuseTimes`): chunked decoding against the grammar of chunked bodies, the buffered and the
  streaming reader, and the connection pool, over whole runs. Sections 6.3 and 7.1 of RFC 9112.
  The reader of a chunk's size line is a parameter; `ParseSize` is the source's.
- **HTTP/1.1 codec** (`Fields`, `HttpParser`, `HttpPipeline`, `ServerRequests`, `HttpWire`,
  `HttpWriter`, `HttpClient`, `Replies`, `HttpRequests`, `ResponseRoundTrip`, `ResponseFields`,
  `RequestRoundTrip`, `RequestFields`): the incremental request parser, the response reader,
  and the two round trips between the server and the client. `ServerRequests` and `Replies`
  say what is read of any peer's bytes, `RequestFields` and `ResponseFields` what arrives.
- **DNS** (`DnsNames`, `DnsMessages`): compressed names (section 4.1.4 of RFC 1035), queries
  and responses.
- **Kernleaf** (`Expressions`, `Grammar`, `Precedence`, `ExpressionParser`, `Markup`,
  `MarkupRoundTrip`, `MarkupSpellings`, `MarkupParser`, `Rendering`, `DirectiveRules`,
  `RenderingRules`, `InlineRules`, `Renderer`): the expression parser, the template parser and
  the renderer. `Precedence` and the three `Rules` say what expressions and directives mean
  apart from the functions that parse and write them.
- **Dates** (`Calendar`): the two copies of `civil_from_days`.

`Text` holds byte strings and the few operations of Rust's `str` the rest builds on.

Four promises turn out not to hold as stated, and are characterised exactly:

- The documentation of the core's `civil_from_days` promises the proleptic Gregorian date of
  any day. Its era is computed with `div_euclid` on a number already shifted for truncating
  division, so before 1 March of year 0 its result counts as the day after, and on some days
  is no date at all, except on the last day of each 400-year era (`CoreIsCalendarExactly`).
  The logger's copy, which truncates, is right for every day.
- A connection is to be returned at a clean boundary. For counted bodies it always has all of
  its body read. The streaming decoder takes the first line behind the zero line for the end
  of a chunked body, and skips the two bytes behind a chunk unread; after a malformed chunk it
  starts again on the same buffer; the buffered reader stops at the zero line. So a connection
  can reach the pool before its body has ended (`TrailerFieldHandsBack`,
  `PollAfterErrorHandsBack`, `ZeroLineStopsReader`). `RunKeeps` states for every return,
  streamed or buffered, that the whole body has been read if and only if, in the bytes
  received, every chunk has CRLF behind it and a blank line is among the bytes behind the zero
  line.
- A reused connection is to give the next response. Bytes received behind a body are dropped
  with the buffer (`SurplusIsLost`). `EachReadsItsOwn` states that every response on a
  connection is read from its own first byte if and only if each return on it had received its
  framed body and no byte more.
- A DNS name has at most 255 octets (section 2.3.4 of RFC 1035). The reader does not count the
  terminator, so it lets 256 through (`LongNameIsRead`), which is exactly what the encoder
  refuses of what is read (`ReadIsEncodableIff`).

Inputs that come from outside are parameters: a socket is the list of its future reads, the
clock is a number passed in, a builder is the list of beans it registers
(`crates/di-macro/src/lib.rs:217-234`, `291-303`), the decompressor is a function, and which
texts are expressions and what they evaluate to come from an arbitrary engine.

## Model

| member | source | states |
|---|---|---|
| Beans.StoreIsSurvivors | crates/di-core/src/context.rs:132-162 | After every registration history exactly the registered keys have a list, none is empty, and a key's list is the non-default beans of the history in order, or the defaults in order if there are no others. |
| Beans.MatchingCount | crates/di-core/src/context.rs:167-194 | The number of beans a filter keeps is one exactly when one position of the list, and no other, satisfies it. |
| Context.AppContext.RegisterWithEntry | crates/di-core/src/context.rs:132-162 | Refuses an instance of another type and changes nothing; otherwise extends the history by the bean, and the store stays what the history says. |
| Context.AppContext.Get | crates/di-core/src/context.rs:167-194 | Succeeds exactly when one bean survives or exactly one survivor is primary, returns that bean, fails with NotFound exactly for a key never registered, and its downcast cannot fail. |
| Context.AppContext.GetQualified | crates/di-core/src/context.rs:197-219 | Succeeds exactly when one survivor and no other carries the qualifier, and returns it; NotFound exactly when none does. |
| Context.AppContext.RegisterComponent | crates/di-core/src/context.rs:298-318 | Queues the component behind those already queued. |
| Wiring.WirableIsLeastFixpoint | crates/di-core/src/context.rs:347-395 | The wirable set is ready in itself, closed under readiness, and contained in every closed subset of the batch. |
| Context.OutcomesAgree | crates/di-core/src/context.rs:347-438 | Two runs of `refresh` over the same components, queued in any order: both succeed (with everything built), or both fail with the same kind of error, and their main sweeps build the same components. |
| Wiring.AllWirableIffRanked | crates/di-core/src/context.rs:370-395 | Everything is built in dependency order exactly when a rank falls along all hard waits (some provider) and all soft waits (every batch provider). |
| Wiring.RankedVerdict | crates/di-core/src/context.rs:397-435 | Such a rank makes the verdict Ok, with the whole batch wired. |
| Wiring.CircularHasCycle | crates/di-core/src/context.rs:410-426 | CircularDependency is only reported when every leftover waits on a leftover, hence a cycle of waits among the leftovers. |
| Wiring.MixedCycleIsCircular | crates/di-core/src/context.rs:410-426 | A component that hard-needs another which soft-needs it is reported as circular and nothing is built, although the hard dependencies alone have no cycle. |
| Context.CountProviders | crates/di-core/src/context.rs:355-363 | The provider counts equal the occurrences of each type in what the batch provides. |
| Context.Settle | crates/di-core/src/context.rs:386-391 | Booking a built component adds what it provides to the available types and takes exactly its occurrences off the counts: the saturating subtraction never saturates. |
| Context.SlotReadyIsReady | crates/di-core/src/context.rs:374-380 | The scheduler's test on its two tables says exactly that every hard dependency has a provider built and every batch provider of each soft dependency is built. |
| Context.StallIsWirable | crates/di-core/src/context.rs:370-395 | When a pass builds nothing, what has been built is exactly the least fixpoint of readiness. |
| Context.OrderIsWirable | crates/di-core/src/context.rs:370-395 | Whatever is built in dependency order belongs to the least fixpoint. |
| Context.AppContext.Sweep | crates/di-core/src/context.rs:367-395 | The main sweep ends with the available types being exactly the store's keys, has built each component at most once, after a provider of each hard dependency and every batch provider of each soft one, and stops with exactly the wirable components built. |
| Context.AppContext.BuildSlot | crates/di-core/src/context.rs:381-393 | A component is built with all its hard dependencies in the store, and building it keeps the sweep's invariant: available types, store, provider counts, empty slots and history all agree with the build order. |
| Context.AppContext.BuildRest | crates/di-core/src/context.rs:427-434 | A soft-only stall builds every leftover once, after the main sweep, at rising queue positions. |
| Context.FindLacking | crates/di-core/src/context.rs:400-409 | Finds the first leftover with a hard dependency that is neither available nor provided by the batch. |
| Context.FindBlocked | crates/di-core/src/context.rs:411-426 | Lists the leftovers with an unavailable hard dependency, in queue order. |
| Context.HardDepsHold | crates/di-core/src/context.rs:397-435 | When the result is Ok, every component was built after a provider of each of its hard dependencies. |
| Context.AppContext.Refresh | crates/di-core/src/context.rs:347-438 | Missing, Circular and Ok exactly as the verdict on the batch says (the error naming the first lacking component, or the blocked ones in order); what the main sweep built is the wirable set; on Ok every queued component is built exactly once; the queue is empty afterwards. |
| Chunked.PullSplit | crates/kernway-http-client/src/lib.rs:1310-1366 | Pulling over two pieces, keeping the unconsumed tail, is pulling over their concatenation: same output, state, tail and error. |
| Chunked.FeedIsPull | crates/kernway-http-client/src/lib.rs:1292-1366 | So is feeding any list of pieces. |
| Chunked.ChunkDecoder.Pull | crates/kernway-http-client/src/lib.rs:1310-1366 | The loop computes the pull's output, state and unconsumed tail; on an error the buffer is left alone and the state reset. |
| Chunked.DecodeChunked | crates/kernway-http-client/src/lib.rs:1250-1272 | The whole-buffer decoder succeeds exactly when one pull of a fresh decoder gets past the last chunk, with the same bytes. |
| Chunked.BodySurvivesExtension | crates/kernway-http-client/src/lib.rs:1250-1272 | A decoded body is the same with any bytes behind it. |
| ChunkGrammar.FrameIsDecoded | crates/kernway-http-client/src/lib.rs:1310-1366 | Whatever has the shape the decoder takes (size lines, data, any two bytes, a zero line, any one line) is decoded to its data and leaves exactly what follows. |
| ChunkGrammar.DoneIsFrame | crates/kernway-http-client/src/lib.rs:1310-1366 | And whenever the decoder reaches Done it has read just such a shape. |
| ChunkGrammar.MessageIsDecoded | crates/kernway-http-client/src/lib.rs:1310-1366 | Every chunked body of section 7.1 of RFC 9112 whose size lines the reader takes, with any bytes behind it, is decoded to the concatenated data of its chunks; what is left is all but the first line of its trailer section. |
| ChunkGrammar.HexLineIsSizeIff | crates/kernway-http-client/src/lib.rs:1318-1323 | The source's reader takes a size line of the standard, hexadecimal digits and an extension or none, for its number exactly if the line is UTF-8 and the number fits in 64 bits. |
| ChunkGrammar.StopsAtEndIff | crates/kernway-http-client/src/lib.rs:1354-1360 | So the decoder stops exactly at the end of such a body if and only if it has no trailer fields. |
| ChunkGrammar.DoneIsEndIff | crates/kernway-http-client/src/lib.rs:1310-1366 | Whatever bytes led to Done, what was consumed is a whole chunked body with the data delivered exactly if every chunk is closed by CRLF and a blank line follows the zero line. |
| ChunkGrammar.HeldIff | crates/kernway-http-client/src/lib.rs:1310-1366 | A buffer begins with a whole chunked body, trailer fields included, exactly if a scan finds CRLF after every chunk and a blank line among the bytes behind the zero line. |
| ChunkGrammar.RestIff | crates/kernway-http-client/src/lib.rs:1310-1366 | The scan leaves exactly what stands behind a text if and only if that text is a whole chunked body. |
| ChunkGrammar.WrittenIsDecoded | crates/kernway-http-client/src/lib.rs:1310-1366 | Chunks written with hexadecimal sizes decode, through the source's reader of size lines, to their concatenation, leaving exactly the bytes behind. |
| Pool.ConnPool.Take | crates/kernway-http-client/src/lib.rs:109-120 | Hands out the last connection of the thread's bucket that was idle under 20000 ms, dropping the stale ones above it. |
| Pool.ConnPool.Put | crates/kernway-http-client/src/lib.rs:124-138 | Files the connection behind the others of its thread and origin, with the time of the call, if there is room, and changes nothing else. |
| Streams.StepAccounts | crates/kernway-http-client/src/lib.rs:946-976 | One pass over the buffer keeps the account of what was received and delivered, and ends the stream only with all of a fixed length delivered or the decoder done. |
| Streams.EndedIsFramedIff | crates/kernway-http-client/src/lib.rs:946-976 | When the decoder is done or the length is read, the bytes consumed are just the framed body, and it is what was delivered, exactly if a chunked one has CRLF after every chunk and a blank line right behind the zero line. |
| Streams.EndIsFramedIff | crates/kernway-http-client/src/lib.rs:933-995 | So it is at every end a stream reports, one reported after a malformed chunk included. |
| Streams.EndIsAllHereIff | crates/kernway-http-client/src/lib.rs:933-995 | At every end a stream reports, the whole framed body has been read, and is what was delivered: always for a counted one, and for a chunked one exactly if every chunk has CRLF behind it and a blank line is among the bytes behind the zero line. |
| Streams.FillAccounts | crates/kernway-http-client/src/lib.rs:1016-1034 | So does reading more. |
| Streams.ReadBody | crates/kernway-http-client/src/lib.rs:1085-1111 | The buffered reader's loops compute the body, or the error, that the bytes read so far decide. |
| Streams.StreamedIsBuffered | crates/kernway-http-client/src/lib.rs:933-995 | Whenever a streamed body completes, the buffered reader gets the same body from the same bytes, however they are cut and whatever follows. |
| Streams.ReadyIsAllHereIff | crates/kernway-http-client/src/lib.rs:1250-1272 | When the buffered reader has its body, the whole framed body has been read under the same condition. |
| Streams.ReaderLeaves | crates/kernway-http-client/src/lib.rs:1085-1111 | On a connection that carries a chunked body and then other bytes, the buffered reader gets the body however the bytes arrive; what it leaves unread is stated, and the end of the body is in it exactly if it stopped short of that end. |
| Streams.NextIsOwnIff | crates/kernway-http-client/src/lib.rs:1038-1047 | What a connection gives next, whatever it is, follows the framed body exactly if the reader received that body and no byte more. |
| Streams.ZeroLineStopsReader | crates/kernway-http-client/src/lib.rs:1250-1272 | With the last CRLF in a read of its own the buffered reader is satisfied by the zero line and leaves that CRLF unread. |
| Streams.ResponseStream.FinishStream | crates/kernway-http-client/src/lib.rs:1038-1047 | Gives the connection up once; it is put into the pool if the body was framed, pooling is on and nobody asked to close, and otherwise the pool is unchanged. |
| Streams.ResponseStream.Chunk | crates/kernway-http-client/src/lib.rs:933-995 | Each part delivered is not empty and the next of the body. At the end a counted body is exactly what was delivered; of a chunked one, just the framed body was consumed exactly if every chunk has CRLF behind it and a blank line follows the zero line, and all of it was read exactly if a blank line is among the bytes behind the zero line. The connection is given up then and only then, and the pool is otherwise unchanged. |
| Connections.NextKeeps | crates/kernway-http-client/src/lib.rs:94-138 | Every event (reuse, eviction, dialling, a poll, a buffered read, a drop) keeps the invariant: one place per connection, its own thread's bucket, no bucket over the cap, one holder, at most one return per stream. |
| Connections.RunKeeps | crates/kernway-http-client/src/lib.rs:933-1047 | The invariant holds after every run of those events. A returned connection had no close asked for, and its response was framed. Its whole body was read and is what was delivered: always if counted, and if chunked exactly if every chunk has CRLF behind it and a blank line is among the bytes behind the zero line. A stream has consumed just that body exactly if that blank line comes first. |
| Connections.RunWires | crates/kernway-http-client/src/lib.rs:933-1121 | After every run, all that was read from a connection in use is what its returned responses read, head and body, one after the other, and then what the stream holding it has read. |
| Connections.EachReadsItsOwn | crates/kernway-http-client/src/lib.rs:632-694 | After every run, and whatever a connection gives next, behind each returned body comes at once what was read as the next response, exactly if each return on it had received its framed body and no byte more. |
| Connections.ReuseIsFresh | crates/kernway-http-client/src/lib.rs:109-120 | A reused connection is an entry of the bucket of the thread and origin that reuse it, stamped less than 20000 ms before. |
| ReuseTimes.ReuseIsNewest | crates/kernway-http-client/src/lib.rs:109-138 | In every run, a request is given a connection of its own thread and origin that an event before it returned, less than 20 seconds earlier by the times of the two events, and that has been in the pool since; of those, the one returned last. |
| ReuseTimes.ReuseIff | crates/kernway-http-client/src/lib.rs:109-120 | And it is given one exactly if there is one. |
| ReuseTimes.ReturnIffRoom | crates/kernway-http-client/src/lib.rs:124-138 | A connection handed back goes into the pool exactly if fewer than the cap of its thread and origin are there, and is closed otherwise. |
| ReuseTimes.ReturnedIsReused | crates/kernway-http-client/src/lib.rs:109-138 | One returned below the cap is what its own thread and origin are given next, if they ask within 20 seconds. |
| Connections.PollAfterErrorHandsBack | crates/kernway-http-client/src/lib.rs:958-968 | A run on a concrete malformed body: the poll after the error ends the stream and returns the connection to the pool, although no beginning of what was received is a whole body. |
| Connections.TrailerFieldHandsBack | crates/kernway-http-client/src/lib.rs:1354-1360 | A run on a body with a trailer field whose last CRLF is late: one poll ends the stream and returns the connection to the pool while that CRLF is still to come. |
| Connections.SurplusIsLost | crates/kernway-http-client/src/lib.rs:1038-1047 | A run in which bytes behind an empty body arrive with the head: the connection is returned, and what it gives next does not follow the body. |
| Connections.SourceReadsDigits | crates/kernway-http-client/src/lib.rs:1318-1323 | The source's reader of size lines meets what those two runs ask of it. |
| Connections.PollFromSizeFailsAgain | crates/kernway-http-client/src/lib.rs:1310-1366 | A pull that failed from a size line fails again whatever arrives. |
| DnsNames.ReadIffLaidOut | crates/kernway-dns/src/message.rs:171-225 | The reader succeeds with a layout exactly when the bytes spell that sequence of labels and backward pointers within 255 bytes and the jump budget. |
| DnsNames.EndIsInside | crates/kernway-dns/src/message.rs:171-225 | A laid-out name ends strictly after it starts and within the buffer, just after its first pointer or its terminator. |
| DnsNames.Reader.Name | crates/kernway-dns/src/message.rs:171-225 | On every buffer the loop ends (by jump budget, then bytes left), returns the dotted expansion of the layout or its error, and leaves the cursor at the name's end. |
| DnsNames.EncodeName | crates/kernway-dns/src/message.rs:108-127 | Appends the labels and a zero exactly when every label has 1 to 63 bytes and the name at most 255; the buffer only grows. |
| DnsNames.NameRoundTrip | crates/kernway-dns/src/message.rs:108-225 | An encoded name, amid any bytes, reads back as the name without its trailing dot, ending exactly where the writing ended. |
| DnsNames.PointerReads | crates/kernway-dns/src/message.rs:203-220 | Two bytes with their top bits set and an earlier position in the other fourteen are read as the name that is there, and the reader goes on behind them. |
| DnsNames.ReadIsEncodableIff | crates/kernway-dns/src/message.rs:108-225 | A name that was read can be encoded exactly if it would not take 256 octets: the encoder counts the terminator, the reader does not. |
| DnsNames.LongNameIsRead | crates/kernway-dns/src/message.rs:193-196 | Three labels of 63 bytes and one of 62 are read, although they are over 255 octets and cannot be encoded. |
| DnsMessages.MessageParses | crates/kernway-dns/src/message.rs:237-283 | Every message of well-formed questions and answers, names full or compressed, parses to exactly its 4-byte A and 16-byte AAAA records with their TTLs, in order. |
| DnsMessages.ParsedIsMessage | crates/kernway-dns/src/message.rs:237-283 | And whatever parses is such a message. |
| DnsMessages.ParseResponse | crates/kernway-dns/src/message.rs:237-283 | The cursor-moving parser computes that parse. |
| DnsMessages.SkipQuestions | crates/kernway-dns/src/message.rs:249-254 | Skipping the questions leaves the cursor where they end, or fails as reading them does. |
| DnsMessages.CollectAnswers | crates/kernway-dns/src/message.rs:256-280 | Collects the addresses of the answers in order, or fails as reading them does. |
| DnsMessages.EncodeQuery | crates/kernway-dns/src/message.rs:77-104 | Writes the header, the question and, if asked, the OPT record of section 6.1.2 of RFC 6891; fails exactly for a name that cannot be encoded. |
| DnsMessages.QueryRoundTrip | crates/kernway-dns/src/message.rs:77-104 | A written query parses as one question for the encoded name and no addresses. |
| DnsMessages.QueryStarts | crates/kernway-dns/src/message.rs:77-95 | A query starts with the twelve bytes of section 4.1.1 of RFC 1035: the identifier, recursion desired, one question, and one additional record if EDNS is asked for. |
| DnsMessages.EdnsIsRead | crates/kernway-dns/src/message.rs:95-104 | With EDNS the question is followed by one record that ends the message: the root, type 41, the payload size for its class, no flags and no data. |
| DnsMessages.NoEdnsEnds | crates/kernway-dns/src/message.rs:77-104 | Without it the message ends with the question. |
| DnsMessages.FlagsAreRead | crates/kernway-dns/src/message.rs:237-283 | Of the header's flags, whatever the others are, the truncation bit and the response code are kept. |
| DnsMessages.RecordGives | crates/kernway-dns/src/message.rs:256-280 | Type 1 with four bytes and type 28 with sixteen are addresses with their time to live, and nothing else is. |
| Expressions.SpellingParses | crates/kernleaf/src/expr.rs:809-986 | Every well-formed spelling, followed by tokens that do not carry it on, parses to its meaning and leaves those tokens. |
| Expressions.SpellingRoundTrip | crates/kernleaf/src/expr.rs:756-770 | A well-formed spelling parses to its meaning with no token left. |
| Grammar.ParserIsGrammar | crates/kernleaf/src/expr.rs:756-986 | The parser accepts exactly the flattenings of well-formed spellings, and returns their meaning. |
| Grammar.PrintedParses | crates/kernleaf/src/expr.rs:756-986 | Printing an expression with brackets only where the ladder needs them and parsing gives it back. |
| Grammar.FewestIsFewest | crates/kernleaf/src/expr.rs:809-986 | No spelling of the same expression has fewer brackets. |
| Grammar.WrappingChangesNothing | crates/kernleaf/src/expr.rs:966-982 | Wrapping any part in `( )`, `${ }` or `*{ }` does not change what is parsed. |
| Precedence.InfixIsOkIff | crates/kernleaf/src/expr.rs:826-899 | What the grammar is, with the six groups of operators named one by one: on the left of an operator stands without brackets what binds at least as tightly, on its right what binds tighter. |
| Precedence.PrefixIsOkIff | crates/kernleaf/src/expr.rs:901-909 | A prefix operator takes no operation, choice or default without brackets. |
| Precedence.ChoiceIsOkIff | crates/kernleaf/src/expr.rs:809-824 | A choice or a default takes anything but another one for its condition, and anything for its sides. |
| Precedence.OperationIs | crates/kernleaf/src/expr.rs:826-899 | Such an operation parses as its operator over what its two sides mean. |
| Precedence.TwoOperators | crates/kernleaf/src/expr.rs:826-899 | For every two of the thirteen operators and all operands: `x op1 y op2 z` groups to the right exactly if op2 binds tighter than op1. |
| Precedence.PrefixThenBinary | crates/kernleaf/src/expr.rs:901-909 | A prefix operator takes just the operand behind it, on either side of a binary one. |
| Precedence.TwoPrefixes | crates/kernleaf/src/expr.rs:901-909 | Prefix operators apply from the inside out. |
| Precedence.ChoiceParsesAs | crates/kernleaf/src/expr.rs:809-824 | `c ? y : n` is a choice between whole expressions, so choices group to the right. |
| Precedence.DefaultParsesAs | crates/kernleaf/src/expr.rs:809-824 | So does `e ?: alt`. |
| Precedence.BracketsMakeOperand | crates/kernleaf/src/expr.rs:966-982 | Anything in any of the three brackets is an operand that means what is inside. |
| Precedence.LiteralParsesAs | crates/kernleaf/src/expr.rs:911-965 | Each kind of literal token stands for its own value. |
| Precedence.PathParsesAs | crates/kernleaf/src/expr.rs:934-952 | A dotted path is a variable with its segments. |
| Precedence.CallParsesAs | crates/kernleaf/src/expr.rs:934-949 | `#object.method(…)` is a call of the part behind the last dot, with its arguments in order. |
| ExpressionParser.P.TernaryExpr | crates/kernleaf/src/expr.rs:809-824 | The bottom rung's method agrees with the parse function and moves the index to what it leaves. |
| ExpressionParser.P.BinaryExpr | crates/kernleaf/src/expr.rs:826-899 | So does each binary rung's loop, which associates to the left. |
| ExpressionParser.P.UnaryExpr | crates/kernleaf/src/expr.rs:901-909 | So do the prefix operators. |
| ExpressionParser.P.PrimaryExpr | crates/kernleaf/src/expr.rs:911-985 | So do atoms, utility calls and brackets. |
| ExpressionParser.P.ArgList | crates/kernleaf/src/expr.rs:792-807 | So do argument lists. |
| ExpressionParser.ParseTokens | crates/kernleaf/src/expr.rs:756-770 | The whole parse, refusing an empty list and trailing tokens. |
| MarkupRoundTrip.SourceReadsBack | crates/kernleaf/src/lib.rs:585-922 | For every template DOM, directives, inline expressions and raw text included, reading the text that spells it gives the DOM with all the text consumed. |
| MarkupRoundTrip.MergedReadsBack | crates/kernleaf/src/lib.rs:862-922 | Whatever the order of an element's attributes, the static ones and the directives come out each in their order, without the namespace declaration. |
| MarkupSpellings.AttrReadsAs | crates/kernleaf/src/lib.rs:744-806 | An attribute is read in double quotes, single quotes or none, with any gaps around the equals sign. |
| MarkupSpellings.LoneAttrReadsAs | crates/kernleaf/src/lib.rs:766-774 | One without a value has the empty one. |
| MarkupSpellings.MoreAttrs | crates/kernleaf/src/lib.rs:744-776 | Attributes are read one after the other, in order, behind any gap. |
| MarkupSpellings.TagEndReadsAs | crates/kernleaf/src/lib.rs:744-758 | A tag ends at `>` or closes itself at `/>`, behind any gap. |
| MarkupSpellings.SelfClosedReadsAs | crates/kernleaf/src/lib.rs:687-722 | A tag that closes itself is an element without content, whatever its name. |
| MarkupSpellings.CloseReadsAs | crates/kernleaf/src/lib.rs:707-719 | A closing tag may have a gap behind its name. |
| MarkupRoundTrip.WrittenReadsBack | crates/kernleaf/src/lib.rs:585-807 | For every such DOM without directives and inline expressions, and without values that escaping changes, reading what rendering writes gives back the DOM. |
| MarkupRoundTrip.WrittenCompiles | crates/kernleaf/src/lib.rs:585-922 | Such a template can be added whatever expressions the engine accepts. |
| Renderer.PlainRenders | crates/kernleaf/src/lib.rs:318-499 | Without a CSRF token, rendering a DOM without directives, inline expressions and values that escaping changes writes it, whatever the model, the templates and the scope. |
| Renderer.RenderedReadsBack | crates/kernleaf/src/lib.rs:318-807 | So, without a CSRF token, rendering it and parsing the output gives it back. |
| MarkupParser.Parser.ParseNodes | crates/kernleaf/src/lib.rs:604-623 | The sibling loop reads what the reading function reads and leaves the position there, or fails with it or with the first text or directive that does not compile. |
| MarkupParser.Parser.ReadElementNode | crates/kernleaf/src/lib.rs:687-722 | So does an element: tag, attributes, content by kind of tag, closing tag, directives. |
| MarkupParser.Parser.ReadTagEnd | crates/kernleaf/src/lib.rs:744-776 | So does the attribute loop, up to `>` or `/>`. |
| MarkupParser.Parser.ReadRawTextNode | crates/kernleaf/src/lib.rs:640-664 | Raw text goes up to its own closing tag, or to the end, and fails if its inline expressions do. |
| MarkupParser.Parser.ReadCommentNode | crates/kernleaf/src/lib.rs:666-675 | A comment goes up to its mark, or fails. |
| MarkupParser.Parser.ReadDeclarationNode | crates/kernleaf/src/lib.rs:677-685 | A declaration goes up to `>`, or fails. |
| MarkupParser.CompileInline | crates/kernleaf/src/lib.rs:813-859 | A text compiles exactly if every inline part, from left to right, is closed and holds an expression the engine accepts. |
| MarkupParser.BuildElementNode | crates/kernleaf/src/lib.rs:862-922 | An element compiles exactly if the value of each of its directives does. |
| MarkupParser.ParseTemplate | crates/kernleaf/src/lib.rs:260-264 | Adding a template reads its nodes, or fails if something in it does not compile. |
| Rendering.ErrorHasChain | crates/kernleaf/src/lib.rs:421-431 | Rendering only fails when the nodes start a chain of as many fragment references as there are levels left. |
| Rendering.RankedRenders | crates/kernleaf/src/lib.rs:421-493 | If a rank bounds every chain of references by the 32 levels, rendering succeeds for every model. |
| Rendering.FailsIffChain | crates/kernleaf/src/lib.rs:421-493 | In templates without `th:if`, `th:unless`, `th:each` and `th:authorize` the bound is exact for every model: rendering fails if and only if the nodes start such a chain. |
| DirectiveRules.EscapeStandsFor | crates/kernleaf/src/lib.rs:514-525 | Escaped text has no `<`, `>` or quote in it, and decoding its entities gives the text. |
| DirectiveRules.HeadReadsBack | crates/kernleaf/src/lib.rs:433-456 | Reading the open tag that is written gives the tag and, in order, the static attributes and those of the dynamic directives, each with a value that stands for what it should be. |
| DirectiveRules.TokenReadsBack | crates/kernleaf/src/lib.rs:461-475 | With a token, a form whose first `method` is not `get`, and nothing else, starts with a hidden field that carries the token. |
| DirectiveRules.LastIsInForce | crates/kernleaf/src/lib.rs:884-919 | Of each kind of directive the last one is in force; those of no known name are attributes, in order. |
| DirectiveRules.DirectiveOkIff | crates/kernleaf/src/lib.rs:884-919 | Which values a directive may have for its template to be added, by its name. |
| RenderingRules.EachRepeats | crates/kernleaf/src/lib.rs:365-389 | `th:each` writes the element without it once per item, in order, with the variable bound to the item; a value that is no list counts as an empty one. |
| RenderingRules.GatesDecide | crates/kernleaf/src/lib.rs:400-419 | An element is nothing if `th:authorize` or `th:if` fails or `th:unless` holds, and otherwise what it is without them. |
| RenderingRules.TextWrites | crates/kernleaf/src/lib.rs:485-488 | `th:text` writes between the tags a text that is inert there and stands for the value. |
| RenderingRules.UtextWrites | crates/kernleaf/src/lib.rs:489-490 | `th:utext` writes the value itself, if there is no `th:text`. |
| RenderingRules.InsertWrites | crates/kernleaf/src/lib.rs:477-484 | `th:insert` writes the fragment between the tags, whatever else would go there, and fails past 32 levels. |
| RenderingRules.ReplaceWrites | crates/kernleaf/src/lib.rs:421-431 | `th:replace` writes the fragment in place of the element, and fails past 32 levels. |
| RenderingRules.ChildrenWrite | crates/kernleaf/src/lib.rs:477-493 | Without these the children are written, in the mode that `th:inline` sets. |
| RenderingRules.VoidWrites | crates/kernleaf/src/lib.rs:457-460 | A void element is its open tag. |
| RenderingRules.FoundIsFirst | crates/kernleaf/src/lib.rs:972-987 | A fragment is the first element to open that declares it. |
| RenderingRules.ResolvesTo | crates/kernleaf/src/lib.rs:953-970 | A reference finds the whole of its template, the fragment there, or the fragment of the first template that declares it. |
| RenderingRules.ResolvesToNone | crates/kernleaf/src/lib.rs:953-970 | One to a template that is not there finds nothing. |
| RenderingRules.NamedRefIsRead | crates/kernleaf/src/lib.rs:926-948 | `t :: n`, bare or in `~{ }`, refers to the fragment n of the template t. |
| RenderingRules.AnyRefIsRead | crates/kernleaf/src/lib.rs:926-948 | `:: n` refers to the fragment n of any template. |
| RenderingRules.WholeRefIsRead | crates/kernleaf/src/lib.rs:926-948 | `t` refers to the whole of the template t. |
| RenderingRules.EachIsRead | crates/kernleaf/src/lib.rs:1052-1064 | `item : items` is a loop over the items; a second name is dropped. |
| RenderingRules.ModeIsRead | crates/kernleaf/src/lib.rs:893-899 | `javascript` and `js`, and `css`, quoted or not, set their modes, any other word that of markup. |
| RenderingRules.TextTemplate | crates/kernleaf/src/lib.rs:477-493 | From the text of a template to what is written: `th:text` anywhere among an element's attributes, read and rendered. |
| InlineRules.EscapeJsStands | crates/kernleaf/src/lib.rs:531-547 | A value escaped for a script ends neither the string it is in nor the script element, and decodes to the value. |
| InlineRules.PartWrites | crates/kernleaf/src/lib.rs:343-363 | Around an inline part the text is kept; `[(…)]` writes the value itself, and `[[…]]` one made safe for markup or for a script, by the mode. |
| InlineRules.LiteralWrites | crates/kernleaf/src/lib.rs:343-363 | A text without parts is written as it is. |
| InlineRules.PartCompilesIff | crates/kernleaf/src/lib.rs:813-859 | A text compiles exactly if the expression of its first part does, trimmed, and the rest behind it. |
| InlineRules.LiteralCompiles | crates/kernleaf/src/lib.rs:813-816 | One without parts compiles. |
| InlineRules.UnclosedFails | crates/kernleaf/src/lib.rs:837-844 | A part that is not closed does not compile. |
| Renderer.Walk.Nodes | crates/kernleaf/src/lib.rs:318-341 | Ends on every template set, cyclic ones included, appends what the rendering function gives, fails with it, and leaves the scope as it was in both cases. |
| Renderer.Walk.Loop | crates/kernleaf/src/lib.rs:365-389 | So does `th:each`, which pushes its variable and pops it on success and on error. |
| Renderer.Walk.Instance | crates/kernleaf/src/lib.rs:394-499 | So does one element: conditions, replacement, attributes, the CSRF field of a state-changing form, content. |
| Renderer.Walk.Fragment | crates/kernleaf/src/lib.rs:421-431 | So does a fragment reference, which fails past 32 levels. |
| Fields.GrowthKeepsPairs | crates/kernway-core/src/fields.rs:103-120 | Growing the buffer keeps every range in bounds and every pair's text. |
| Fields.InsertReplaces | crates/kernway-core/src/fields.rs:85-89 | After an insert exactly one pair has that name, and every other lookup is as before. |
| Fields.LookupIsMap | crates/kernway-core/src/fields.rs:130-136 | After every mix of inserts and appends, lookups agree with a map filled in the same order. |
| Fields.FieldSet.InsertPair | crates/kernway-core/src/fields.rs:85-89 | The buffer and ranges stand for the list with the name's pairs removed and the new one last. |
| Fields.FieldSet.AppendPair | crates/kernway-core/src/fields.rs:99-101 | They stand for the list with the pair added last. |
| Fields.FieldSet.Get | crates/kernway-core/src/fields.rs:130-136 | The value of the last pair whose name matches under the set's case rule. |
| Calendar.LogIsCalendar | crates/kernway-log/src/lib.rs:420-431 | For every day the logger's copy is the proleptic Gregorian calendar stepped day by day from the epoch. |
| Calendar.LogInverts | crates/kernway-log/src/lib.rs:420-431 | Its dates exist, and counting days back from them gives the day. |
| Calendar.CoreIsCalendarExactly | crates/kernway-core/src/time.rs:63-74 | The core's copy is that calendar exactly from 1 March of year 0 on and on the last day of each earlier era; everywhere else its result counts as the day after. |
| Calendar.CoreIsLateBeforeYearZero | crates/kernway-core/src/time.rs:63-74 | 28 February of year 0 comes out as the 29th, and the two copies disagree there. |
| Calendar.CivilIsMonotone | crates/kernway-core/src/time.rs:63-74 | From 1 March of year 0 on both copies agree, month and day are in range, later days get later dates, and the day count undoes them. |
| Calendar.NextDayCounts | crates/kernway-core/src/time.rs:63-74 | The day count grows by one from each date to the next. |
| Calendar.EarlierCounts | crates/kernway-core/src/time.rs:63-74 | The day count is strictly monotone in the date. |
| HttpParser.CompleteExtends | crates/kernway-http/src/parser.rs:84-101 | A completed parse gives the same request and length with any bytes behind it. |
| HttpParser.FailedExtends | crates/kernway-http/src/parser.rs:84-194 | A failed parse fails alike with any bytes behind it. |
| HttpParser.PrefixIsIncomplete | crates/kernway-http/src/parser.rs:84-101 | Every proper prefix of the consumed bytes is incomplete. |
| HttpParser.FindHeadEnd | crates/kernway-http/src/parser.rs:181-194 | The scan finds the end of the first blank line, and counts the lines before it. |
| HttpParser.ParseQueryString | crates/kernway-http/src/parser.rs:321-337 | The pairs appended are those of the parts with a key, in order. |
| HttpParser.ParseHeaderLines | crates/kernway-http/src/parser.rs:146-154 | The headers appended are those of the lines before the first blank one, names lowered, texts trimmed. |
| HttpParser.ParseHead | crates/kernway-http/src/parser.rs:134-172 | Decodes a head's request line, headers and declared length, or fails. |
| HttpParser.Parse | crates/kernway-http/src/parser.rs:84-101 | The whole parser computes the outcome the buffer decides: complete, incomplete, too large or malformed. |
| ServerRequests.RequestIsRead | crates/kernway-http/src/parser.rs:84-237 | A request with any verb, target, version or none, and any header lines, with any spaces and tabs around name and value, is read as they say, with its body, exactly if it is within the two caps and declares the length of its body. |
| ServerRequests.LineIsRead | crates/kernway-http/src/parser.rs:199-227 | The request line gives the verb in capitals, the target cut at the question mark, and version 1.0 exactly if it says so or says none. |
| ServerRequests.HeaderIsRead | crates/kernway-http/src/parser.rs:146-154 | A header line gives its name lowered and its value, without the gaps. |
| ServerRequests.LengthIsLast | crates/kernway-http/src/parser.rs:156-159 | The last `content-length` counts, and one that is no number counts as 0. |
| ServerRequests.NoLengthIsZero | crates/kernway-http/src/parser.rs:156-159 | Without one the length is 0. |
| HttpPipeline.RequestParserStands | crates/kernway-http/src/parser.rs:84-101 | The request parser makes progress and no answer of it changes when more bytes arrive. |
| HttpPipeline.FeedIsDrain | crates/kernway-http/src/parser.rs:84-101 | A parser with those two properties gives the same requests and the same end however a stream is cut into pieces. |
| HttpPipeline.ArrivalIsIrrelevant | crates/kernway-http/src/parser.rs:84-101 | So does this one. |
| HttpWire.Itoa | crates/kernway-http/src/writer.rs:124-148 | Twenty bytes filled backwards hold the decimal digits of every 64-bit number. |
| HttpWire.DigitsParse | crates/kernway-http/src/writer.rs:124-148 | Reading written digits gives the number back. |
| HttpWriter.EncodeHeadInto | crates/kernway-http/src/writer.rs:63-91 | Appends the status line, the response's headers without the transport's two, those two, and the blank line. |
| HttpWriter.EncodeResponse | crates/kernway-http/src/writer.rs:99-105 | The head and the body in one buffer. |
| HttpClient.TrimRange | crates/kernway-http-client/src/lib.rs:1211-1219 | The narrowed range spans the text without the spaces and tabs around it. |
| HttpClient.ParseHeadSpans | crates/kernway-http-client/src/lib.rs:1173-1196 | The spans stay in the block and say what the lines say, up to the blank one; fails exactly for a bad status line. |
| HttpClient.KeepableIsCleanIff | crates/kernway-http-client/src/lib.rs:1082-1121 | A response reported keepable has its whole body read, exactly if every chunk of a chunked one has CRLF behind it and a blank line is among the bytes read behind the zero line. |
| HttpClient.Inflate | crates/kernway-http-client/src/compress.rs:12-34 | Undoes a coding the client knows and drops the two stale headers; leaves any other response alone; fails if the codec does. |
| HttpClient.Receive | crates/kernway-http-client/src/lib.rs:1082-1121 | Waits for the blank line, parses, frames, reads and decompresses the body, or fails, as the bytes read decide. |
| Replies.HeadIsRead | crates/kernway-http-client/src/lib.rs:1173-1219 | Any status line and header lines, with any spaces and tabs around the values, are read as the status and the headers without them. |
| Replies.ChunkedIsRead | crates/kernway-http-client/src/lib.rs:1082-1121 | A response whose first `transfer-encoding` is `chunked`, in any case and whatever length it declares, is read as the data that the text behind its head spells, however it arrives and whatever follows. |
| Replies.CountedIsRead | crates/kernway-http-client/src/lib.rs:1082-1121 | One that is not, with a length, is read as that many bytes. |
| Replies.OpenIsRead | crates/kernway-http-client/src/lib.rs:1082-1121 | One with neither is read to the end of the connection, which cannot be kept. |
| Replies.CodedIsRead | crates/kernway-http-client/src/compress.rs:12-34 | In gzip, deflate or Brotli the body is what the codec makes of it, or the read fails; the two stale headers are gone, and those of every other name are all there in order. |
| Replies.UncodedIsRead | crates/kernway-http-client/src/compress.rs:12-34 | In no coding, or in one the client does not know, the response is left alone. |
| ResponseRoundTrip.HeadIsRead | crates/kernway-http-client/src/lib.rs:1054-1077 | However the bytes arrive, the reader stops at the end of the head and keeps what follows for the body. |
| ResponseRoundTrip.PlanIsRead | crates/kernway-http-client/src/lib.rs:1234-1247 | The client frames a written response by its written length, unless the response claims to be chunked. |
| ResponseRoundTrip.ResponseReadsBack | crates/kernway-http/src/writer.rs:63-105 | A clean response that claims neither to be chunked nor to be in a coding the client undoes is read back as the same status, the same headers with the transport's two in place of its own, and the same body, for any reads and any bytes behind it; what the client sees asks to close exactly if the server meant to. |
| ResponseFields.ResponseArrives | crates/kernway-http/src/writer.rs:63-105 | Such a response arrives, under every name but the transport's two, with just the headers the handler set, in order; under those two, once each, with the length of the body and the connection's fate. |
| HttpRequests.EncodeRequest | crates/kernway-http-client/src/lib.rs:1371-1422 | Writes the request line, the headers the caller left out, the caller's own, the length if it is needed, and the body. |
| RequestRoundTrip.LengthIsRead | crates/kernway-http-client/src/lib.rs:1402-1404 | The length the server takes is the caller's, or else that of the body. |
| RequestRoundTrip.RequestReadsBack | crates/kernway-http/src/parser.rs:84-237 | A clean request is parsed to the same method, path, query, headers and body, consuming every byte, exactly when it is within the two size caps and its declared length is that of its body. |
| RequestFields.RequestArrives | crates/kernway-http-client/src/lib.rs:1371-1422 | A request the server takes in has its method, body and version, and under every name what the caller set last, or else what the client adds: `host` with the port exactly if it is not the scheme's, `connection` by whether it is kept alive, the cookie if there is one, the length of a body, the two fixed texts, and nothing under any other name. |
| RequestFields.CallersArrive | crates/kernway-http-client/src/lib.rs:1399-1401 | The caller's headers arrive in a row, in order, names lowered, each with its value. |
| RequestFields.HeadersAreCounted | crates/kernway-http-client/src/lib.rs:1371-1422 | Beside them there is one header for each name the client adds, and no other. |
| RequestRoundTrip.PipelineReadsBack | crates/kernway-http/src/parser.rs:84-237 | Such requests sent one after the other are received one after the other, however their bytes arrive. |
| RequestRoundTrip.TargetReadsBack | crates/kernway-http/src/parser.rs:199-227 | The path and the parameters of a target come back as they went in. |

## Left out

- Sockets, TLS, timeouts, DNS transport and the async runtime: input and output only.
- Builders that fail, or queue more components while `refresh` runs: its outer loop then has no bound decided by this code.
- `get_all`, `get_as`, `build` and the other wrappers around the bean store: they add one-line variants.
- Type names on the entries of trait bindings, and the joined text of a circular error: the model keeps the list of names.
- Overflow of `pos + size + 2` in the whole-buffer chunk decoder: positions are unbounded.
- The compression formats, redirects, cookies and URL parsing: separate concerns behind foreign libraries or string assembly.
- `ResponseStream::read_to_end`: it gathers the parts of a stream and decompresses them.
- A stale pooled connection: it appears as a reuse followed by a drop and a dial.
- Lossy conversion of DNS names to text: names are bytes.
- Tokenising and evaluating expressions, and the bodies of `@{}`, `#{}` and `|…|`: tokens and values are opaque.
- The text of template errors: reading and adding a template fail or not.
- The order in which a map of templates is searched: templates are a list in that order.
- `th:authorize` rules and CSS escaping, which works on code points: left to the environment.
- The other direction of the HTML round trip: different texts can read as the same DOM.
- Text beyond 4 GiB in `Fields`, where the source panics: a precondition here.
- `parse_from_reader`, the blocking copy of the request parser, and `parse_head` on its own.
- ExpressionParser.P.BinaryExpr: one method indexed by the rung stands for the six binary methods, which differ only in their operators.
- HttpPipeline.FeedIsDrain: the server's own read loop is not part of this model; the stream is a list of pieces.
