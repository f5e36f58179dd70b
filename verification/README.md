# A verified model of the web server and of its matching library

The Dafny modules in this directory model the parts of the repository that have the most state and the most
ways to go wrong, and prove what they are for. `dafny verify dfyconfig.toml` checks them all.

**Matching and expectations** (the copy of gmock the repository builds its tests with).
`MatchMatrix.dfy` and `Matching.dfy`: the in-place Ford-Fulkerson search over arrays returns a matching of
maximum size, and the verdict on unordered containers is that of the pairing that is asked for.
`PrerequisiteGraph.dfy` and `Expectation.dfy`: the three worklist walks over prerequisites, the invariant they
rest on, and what calls and sequences do to it.

**Chunked coding.** `DecodeChunkedBody.dfy` and `SendChunked.dfy`: framing a growing body under arbitrary
partial writes, the resumable decoder, when its loop ends at all, what later input changes, and that the two
are inverse. `Iteration.dfy` has steps repeated as often as one likes.

**Requests and CGI replies.** `HttpRequest.dfy` (the state machine), `ReceiveHttpRequest.dfy` (the object with
its fields), `HttpRoundTrip.dfy` (requests written down again), `CgiParser.dfy`, `CgiClasses.dfy` (which headers
have which class). How the bytes are cut into reads does not matter, and exactly when it does.

**The event loop.** `EventLoop.dfy`: one step for every ready event and every report of the system; in all runs
the Sockets that events share are freed once and not used afterwards.

**Configuration.** `Lexer.dfy` (two-stage lexer and one-pass scanner), `Configuration.dfy` (contexts, what each
directive means, and one-pass reading as a function), `Directives.dfy` (what each directive accepts, in plain
terms), `Grammar.dfy` (what is read is what is spelt), `Parser.dfy` (cursor and handlers),
`ConfigurationRoundTrip.dfy`.

**Paths and codecs.** `Path.dfy`, `PercentCodec.dfy`, and `Text.dfy` and `Numbers.dfy` for what the others use
of `std::string` and `strtol`.

Objects whose methods update fields are classes here; their methods are proved against functions of their
state, and the theorems are lemmas about these functions. System calls are parameters: `write` returns any
count it may return, `read` any bytes, `accept` any descriptor that is not open. A thrown exception is a result
(`None`, `Refused`, `Failed`, or a flag).

## What came out

- `Compute` needs each left node once: right nodes seen by a failed search stay a dead end for all later ones.
- The two walks over prerequisites agree in every state of every run if excessive calls alone never satisfy an
  expectation (`HandleCalls`), and gmock's own cardinalities keep that law. The law is exact: every cardinality
  of a user's own that breaks it makes the walks disagree (`UnlawfulCardinalityMisleads`).
- The chunk decoder takes a negative size line: it decodes all that is left and moves its head back. Its loop has
  no end exactly if a last size line leads back to itself (`ForeverIff`), as in ten bytes (`SpinningBody`). The
  method is proved for all other input; the event loop would stand still on such a request (`HangsIff`).
- If one or two bytes of the data of a chunk are missing, the decoder calls `substr` with a position behind its
  buffer (`OutOfRangeIff`, and `ShortBody` in six bytes). The `std::out_of_range` is caught neither by
  `ReceiveRequestFromClient::Do` nor by `Server::EventExec`, which catches `std::runtime_error` only, and not in
  `main`: it ends the process. A read that ends one or two bytes in front of the end of a chunk's data is enough
  (`CutReadCrashesIff`); `CrashesIff` has the condition for every chunked request.
- `SendLastChunk` never sends what a partial write leaves over. The emitted bytes still decode to the body, but
  completely only if the last write took all five bytes; every smaller number can happen (`PartialLastWrite`).
- A listener keeps a pointer to the Socket of its last connection, which may have been freed; the loop never
  follows it.
- A chunked request has its verdict with the read that ends its headers, complete or not. Whether the rest of
  the body would have changed it depends on where that read ends: `ChunkedCutsMatter` has the exact condition.
- Input is appended as a C string: bytes behind a NUL in a read are lost. A verdict before the first NUL is not
  in danger; otherwise `NulCutsAgreeIff` says when the cuts matter.
- The `Host` header ":80" names a host "80" and no port.
- The 2048-byte limit on CGI headers applies to what has been read, line ends included, and a double LF inside a
  CRLF header may end it early: the exact conditions are `CutsDoNotMatterIff` and `RefusedHoweverCutIff`.
- A comment in `Cgi.cpp` (line 141) says that a percent sign without two hexadecimal digits is kept as it is.
  The code drops it, and so does the model. Bytes above 127 behind a percent sign may be looked up outside the
  decoding table; `LooksUpInTable` says exactly when, and that none are is the precondition of `Decode`.
- In `StoreErrorPage` the check of the page after the loop looks at the semicolon under the cursor and can never
  fail; the page has been checked as the token before. Several `error_page` directives share the last page.
- In `IsValidStatusCode` all code after the first loop is unreachable: three alphanumeric characters are enough.
- `utils::StrToLong` takes an empty string for zero and accepts leading white space and a sign; the model does too.

## Model

| member | source | states |
|---|---|---|
| `MatchMatrices.SetEdgeIsLocal` | tests/unit_test/googletest-release-1.12.1/googlemock/include/gmock/gmock-matchers.h:3504-3523 | in the flattened matrix no two (element, matcher) coordinates share a cell: an edge that is set is seen there and nowhere else |
| `MatchMatrices.RowStartIsProduct` | tests/unit_test/googletest-release-1.12.1/googlemock/include/gmock/gmock-matchers.h:3521-3523 | the start of a row, counted up row by row, is the row number times the number of matchers |
| `MatchMatrices.MatchingAtMostCover` | tests/unit_test/googletest-release-1.12.1/googlemock/src/gmock-matchers.cc:131-163 | weak duality: no set of edges with distinct left and distinct right ends is larger than any vertex cover |
| `MatchMatrices.CoverageBySize` | tests/unit_test/googletest-release-1.12.1/googlemock/src/gmock-matchers.cc:420-447 | a matching covers all elements, or all matchers, exactly when it has as many pairs as there are elements, or matchers |
| `BipartiteMatching.DeadEndGivesCover` | tests/unit_test/googletest-release-1.12.1/googlemock/src/gmock-matchers.cc:133-144 | the right nodes seen by failed searches and the matched left nodes with partners elsewhere meet every edge |
| `BipartiteMatching.DeadEndCoverSize` | tests/unit_test/googletest-release-1.12.1/googlemock/src/gmock-matchers.cc:133-144 | that cover has exactly as many nodes as the matching has pairs |
| `BipartiteMatching.LinkAugments` | tests/unit_test/googletest-release-1.12.1/googlemock/src/gmock-matchers.cc:196-203 | linking a left node to a right node that is free, or was just vacated by the recursive call, restores mutual reference and matches exactly one more left node |
| `BipartiteMatching.MaxBipartiteMatchState.constructor` | tests/unit_test/googletest-release-1.12.1/googlemock/src/gmock-matchers.cc:124-129 | starts from the empty matching |
| `BipartiteMatching.MaxBipartiteMatchState.TryAugment` | tests/unit_test/googletest-release-1.12.1/googlemock/src/gmock-matchers.cc:184-208 | terminates; on failure both vectors are unchanged and the newly seen right nodes are a dead end the left node cannot leave; on success one more left node is matched, none is unmatched, and no right node of an earlier dead end moves |
| `BipartiteMatching.MaxBipartiteMatchState.Compute` | tests/unit_test/googletest-release-1.12.1/googlemock/src/gmock-matchers.cc:131-163 | the result is a matching listed without repetition, and some vertex cover is as large as it, although each left node is tried once only |
| `BipartiteMatching.FindMaxBipartiteMatching` | tests/unit_test/googletest-release-1.12.1/googlemock/src/gmock-matchers.cc:228-230 | the result is a matching, ordered by element, and no matching of the graph is larger |
| `BipartiteMatching.FindPairing` | tests/unit_test/googletest-release-1.12.1/googlemock/src/gmock-matchers.cc:420-459 | true exactly when an assignment exists that covers all matchers (Superset) and all elements (Subset), as the flags ask |
| `BipartiteMatching.FlagsMean` | tests/unit_test/googletest-release-1.12.1/googlemock/include/gmock/gmock-matchers.h:3541-3547 | bit 0 asks that every matcher has a pair, bit 1 that every element has one, both for both |
| `BipartiteMatching.VerifyMatchMatrix` | tests/unit_test/googletest-release-1.12.1/googlemock/src/gmock-matchers.cc:370-418 | true exactly when every matcher (Superset) and every element (Subset) has an edge at all |
| `BipartiteMatching.PrecheckIsNecessary` | tests/unit_test/googletest-release-1.12.1/googlemock/src/gmock-matchers.cc:367-369 | whenever the assignment asked for exists, the size test and the quick check succeed |
| `BipartiteMatching.MatchAndExplain` | tests/unit_test/googletest-release-1.12.1/googlemock/include/gmock/gmock-matchers.h:3624-3651 | the two shortcuts change nothing: the verdict is whether the assignment asked for exists |
| `BipartiteMatching.ExactMatchIsBijection` | tests/unit_test/googletest-release-1.12.1/googlemock/include/gmock/gmock-matchers.h:3541-3547 | with both flags that assignment exists exactly when there is a bijection between elements and matchers along edges |
| `PrerequisiteGraphs.AddingKeepsAcyclic` | tests/unit_test/googletest-release-1.12.1/googlemock/src/gmock-spec-builders.cc:746-754 | a new immediate prerequisite keeps the graph acyclic exactly when it is neither the node itself nor behind it |
| `PrerequisiteGraphs.FrontierDecides` | tests/unit_test/googletest-release-1.12.1/googlemock/src/gmock-spec-builders.cc:155-182 | if all behind every expectation that is called and satisfied is satisfied, the walk that goes on behind uncalled ones only finds nothing exactly when all transitive prerequisites are satisfied |
| `Expectations.BetweenIsLawful` | tests/unit_test/googletest-release-1.12.1/googlemock/src/gmock-cardinalities.cc:48-90 | gmock's own cardinality keeps the law, for any bounds: excessive calls alone never satisfy it |
| `Expectations.BetweenMeans` | tests/unit_test/googletest-release-1.12.1/googlemock/src/gmock-cardinalities.cc:48-90 | from min to max calls satisfy it and max calls saturate it; a negative minimum counts as zero, and a maximum below the minimum as the minimum |
| `Expectations.UnlawfulCardinalityMisleads` | tests/unit_test/googletest-release-1.12.1/googlemock/src/gmock-spec-builders.cc:155-182 | the law is exact: any cardinality that some number of excessive calls satisfies leads, by that many calls and one more, to a state in which the checking walk returns false and the collecting one finds nothing |
| `PrerequisiteGraphs.CallKeepsBacked` | tests/unit_test/googletest-release-1.12.1/googlemock/include/gmock/gmock-spec-builders.h:1202-1213 | for any set of expectations that only the call can change: all behind its members stays satisfied and retired exactly when the called one is not in it afterwards or all behind it is retired |
| `PrerequisiteGraphs.AddingKeepsBacked` | tests/unit_test/googletest-release-1.12.1/googlemock/src/gmock-spec-builders.cc:746-754 | a new prerequisite of an expectation that is neither retired nor in the set disturbs neither retirement nor what is behind its members |
| `PrerequisiteGraphs.AcyclicHasMeasure` | tests/unit_test/googletest-release-1.12.1/googlemock/src/gmock-spec-builders.cc:135-151 | an acyclic graph has a measure in which a node weighs more than all its immediate prerequisites together: walks without a visited set end |
| `Expectations.ExpectationBase.RetireAllPreRequisites` | tests/unit_test/googletest-release-1.12.1/googlemock/src/gmock-spec-builders.cc:107-131 | if the retired set is closed under prerequisites, exactly the transitive prerequisites are added and it stays closed, although the walk stops at retired nodes |
| `Expectations.ExpectationBase.RetireImmediate` | tests/unit_test/googletest-release-1.12.1/googlemock/src/gmock-spec-builders.cc:121-129 | the inner loop retires the immediate prerequisites and pushes exactly those that were not retired |
| `Expectations.ExpectationBase.AllPrerequisitesAreSatisfied` | tests/unit_test/googletest-release-1.12.1/googlemock/src/gmock-spec-builders.cc:135-151 | true exactly when all transitive prerequisites are satisfied; terminates without a visited set |
| `Expectations.ExpectationBase.FindUnsatisfiedPrerequisites` | tests/unit_test/googletest-release-1.12.1/googlemock/src/gmock-spec-builders.cc:155-182 | adds exactly the unsatisfied nodes one edge behind chains of satisfied, uncalled prerequisites; terminates without a visited set |
| `Expectations.ExpectationBase.ShouldHandleArguments` | tests/unit_test/googletest-release-1.12.1/googlemock/include/gmock/gmock-spec-builders.h:1102-1112 | true exactly when the expectation is active, all its transitive prerequisites are satisfied and the arguments match |
| `Expectations.ExpectationBase.GetActionForArguments` | tests/unit_test/googletest-release-1.12.1/googlemock/include/gmock/gmock-spec-builders.h:1196-1222 | a call retires exactly the transitive prerequisites (and itself on saturation) and keeps the run invariant, whatever the cardinality; all behind called and satisfied expectations stays satisfied and retired except when the call is excessive, leaves the expectation satisfied, and finds a prerequisite active |
| `Expectations.HandleCalls` | tests/unit_test/googletest-release-1.12.1/googlemock/include/gmock/gmock-spec-builders.h:1196-1222 | over any sequence of calls, put to any expectations with any cardinalities, the run invariant holds throughout; if the cardinalities keep the law, the two walks agree for every expectation wherever the sequence ends |
| `Expectations.RunInvariantAtStart` | tests/unit_test/googletest-release-1.12.1/googlemock/src/gmock-spec-builders.cc:82-95 | before the first call: nothing is retired before its prerequisites, and all behind an expectation with a call that was not excessive is satisfied and retired |
| `Expectations.WalksAgree` | tests/unit_test/googletest-release-1.12.1/googlemock/src/gmock-spec-builders.cc:135-182 | in every state in which all behind called and satisfied expectations is satisfied and retired, the collecting walk finds nothing exactly when the checking walk returns true |
| `Expectations.Sequence.AddExpectation` | tests/unit_test/googletest-release-1.12.1/googlemock/src/gmock-spec-builders.cc:746-754 | makes the expectation added last an immediate prerequisite of the new one, unless they are the same |
| `Expectations.SequencingKeepsRunInvariant` | tests/unit_test/googletest-release-1.12.1/googlemock/src/gmock-spec-builders.cc:746-754 | chaining an expectation that is neither called nor retired keeps the run invariant exactly when it is not behind the other one already |
| `ChunkedDecoding.NormalReturn` | srcs/Server/DecodeChunkedBody.cpp:13-61 | every normal return, negative size lines included, extends the decoded body and leaves it within the maximal size; a waiting decoder has no line end behind its head |
| `ChunkedDecoding.ForeverIff` | srcs/Server/DecodeChunkedBody.cpp:18-59 | a call does not end exactly if it comes to a size line that is the last in the buffer and, being negative, leads the head back to the beginning of that very line |
| `ChunkedDecoding.SpinningBody` | srcs/Server/DecodeChunkedBody.cpp:36-50 | such input of ten bytes: one chunk and the size line -6 |
| `ChunkedDecoding.OutOfRangeIff` | srcs/Server/DecodeChunkedBody.cpp:36-58 | a call throws std::out_of_range exactly if it comes to a size line that does not end the body, and whose data keep the body within the maximal size but would stop one or two bytes behind the buffer |
| `ChunkedDecoding.ShortBody` | srcs/Server/DecodeChunkedBody.cpp:46-56 | such input of six bytes: the size line 5 and three bytes of data |
| `ChunkedDecoding.ChunkedBody.DecodeChunkedBody` | srcs/Server/DecodeChunkedBody.cpp:13-61 | the resumable loop, whenever it ends, computes the decoding of all input received so far, for sizes of any sign; the fields are those that it leaves |
| `ChunkedDecoding.ChunkedBody.TakeSizeLine` | srcs/Server/DecodeChunkedBody.cpp:19-35 | a complete size line of any sign moves the read head behind it; a malformed one, or -1, is an error; an incomplete one is waited for |
| `ChunkedDecoding.ChunkedBody.TakeData` | srcs/Server/DecodeChunkedBody.cpp:36-58 | takes the data of a chunk, all that is left if the size is negative, and moves the head forwards or back; or fails as too large, unterminated or out of range |
| `ChunkedDecoding.InSizeLineWaits` | srcs/Server/DecodeChunkedBody.cpp:19-35 | a decoder that has come to an incomplete size line waits there |
| `ChunkedDecoding.DecodeResumes` | srcs/Server/DecodeChunkedBody.cpp:13-61 | and goes on from there, when more comes, as if all had been there from the start |
| `ChunkedDecoding.ResumesIff` | srcs/Server/DecodeChunkedBody.cpp:13-61 | of two calls that both return, the second has the outcome of one call on all input exactly if the first stopped in a size line without having gone backwards |
| `ChunkedDecoding.LaterInputIff` | srcs/Server/DecodeChunkedBody.cpp:13-61 | bytes that come later leave the outcome of a call what it is exactly if it stopped at the end of the body or at an error, or in a size line or a line end that they do not complete; or if it was 413 after going backwards |
| `ChunkedDecoding.PiecesDecodeAsOne` | srcs/Server/DecodeChunkedBody.cpp:13-61 | several calls, each earlier one stopping in a size line, have the same decoded body and status as one call on all input |
| `ChunkedDecoding.DecodeFrames` | srcs/Server/DecodeChunkedBody.cpp:13-61 | any sequence of framed non-empty chunks is decoded to their concatenation, whatever follows, with each size in any hexadecimal spelling, upper or lower case and with zeros in front (section 7.1 of RFC 9112) |
| `ChunkedDecoding.DecodeTooManyFrames` | srcs/Server/DecodeChunkedBody.cpp:43-45 | framed chunks that together exceed the maximal size are answered with 413, however their sizes are spelt |
| `ChunkedDecoding.DecodeLastChunk` | srcs/Server/DecodeChunkedBody.cpp:36-41 | what any beginning of the last chunk does, whose line has n zeros: fewer than n + 2 bytes are waited for, all n + 4 complete the body, n + 2 or n + 3 are an error |
| `ChunkedDecoding.DecodeSpelt` | srcs/Server/DecodeChunkedBody.cpp:13-61 | a body framed with any spellings of the sizes and any part of the last chunk behind it is decoded in one call to the body, with the status of that part |
| `ChunkedDecoding.MalformedLineIsError` | srcs/Server/DecodeChunkedBody.cpp:19-35 | behind any frames, a size line that is no number, or says -1, is an error, with the body decoded up to it |
| `ChunkedDecoding.WrongLineEndIsError` | srcs/Server/DecodeChunkedBody.cpp:42-58 | behind any frames, data of the size announced with another end than CRLF are an error, and decoded |
| `ChunkedDecoding.WrapsAround` | srcs/Server/DecodeChunkedBody.cpp:46-58 | behind any frames, a negative size that leads in front of the buffer makes the head wrap around modulo 2^64: all that is left is taken for data, and it is an error |
| `ChunkedDecoding.CutInSizeLineWaits` | srcs/Server/DecodeChunkedBody.cpp:19-35 | a framed body, however its sizes are spelt, cut inside a size line makes the decoder wait |
| `ChunkedDecoding.FramedPiecesDecode` | srcs/Server/DecodeChunkedBody.cpp:13-61 | a framed body, however its sizes are spelt, in several calls, each cut inside a size line, decodes to exactly the body |
| `ChunkedDecoding.CutInData` | srcs/Server/DecodeChunkedBody.cpp:42-58 | a framed body cut inside the data of a chunk, whatever chunks are before it: one or two missing bytes make substr throw, three or more are taken for a missing line end |
| `ChunkedSending.FramingIsBounded` | srcs/Server/SendChunked.cpp:16-21 | framing makes a body at most six times as long |
| `ChunkedSending.SentByteIsExact` | srcs/Server/SendChunked.cpp:57-61 | SentByte, with its unsigned subtraction, equals the body size exactly when the whole body has been framed and nothing is pending |
| `ChunkedSending.SendKeepsAccount` | srcs/Server/SendChunked.cpp:11-27 | after any partial write, sent and pending bytes together are still the frames of the pieces framed so far, none of them empty |
| `ChunkedSending.GrowthKeepsAccount` | srcs/Server/CgiResponse.cpp:49-54 | the body growing in between disturbs no counter |
| `ChunkedSending.RunKeepsWire` | srcs/Server/CgiResponse.cpp:44-76 | in every run without failing writes the wire has the header, frames of the body and a beginning of the last chunk, in this order |
| `ChunkedSending.NeverThrows` | srcs/Server/SendChunked.cpp:11-24 | in every run, failing writes included, the position given to substr, an unsigned difference of byte counters, stays inside the body |
| `ChunkedSending.FailureFinishes` | srcs/Server/CgiResponse.cpp:68-76 | a write that fails adds nothing; the response goes no further if the output of the script has ended, and otherwise still waits for that end |
| `ChunkedSending.EmittedBytesDecode` | srcs/Server/CgiResponse.cpp:44-57 | for any schedule of partial writes and any growth, what was emitted decodes in one call to exactly the final body; completely if and only if the last write took the whole last chunk |
| `ChunkedSending.PartialLastWrite` | srcs/Server/SendChunked.cpp:29-38 | for any header, body and number of bytes below five there is a run whose last write takes only so many; it has no further step, and what it sent never decodes completely |
| `ChunkedSending.SendChunked.Send` | srcs/Server/SendChunked.cpp:11-27 | throws exactly when the unsigned subtraction leads behind the body, with nothing changed; otherwise the fields and the bytes on the wire follow the sender for whatever the system call returns |
| `ChunkedSending.SendChunked.SendLastChunk` | srcs/Server/SendChunked.cpp:29-38 | what a partial write leaves of the last chunk is never sent |
| `ChunkedSending.CgiResponse.Do` | srcs/Server/CgiResponse.cpp:44-57 | one call in any state whatever does what the response state machine does for some result of its write, or throws exactly when that is out of range |
| `EventLoop.StepKeepsInvariant` | srcs/Server/Server.cpp:39-85 | one turn of the loop, whatever the ready event reports, keeps: the two maps agree, every event but a listener uses a live Socket, and every live Socket is held by an event that will free it |
| `EventLoop.TurnKeepsInvariant` | srcs/Server/Server.cpp:39-59 | from a state with the invariant every turn is defined, so it leads to one step's outcome, which has the invariant |
| `EventLoop.StepKeepsOthers` | srcs/Server/Server.cpp:39-48 | a turn never unregisters or changes another event, so every descriptor of a batch still has its event |
| `EventLoop.StepFreesOnce` | srcs/Server/Server.cpp:69-85 | what has been freed stays freed |
| `EventLoop.StepIsLocal` | srcs/Server/CgiRead.cpp:26-58 | a turn of an event other than a listener changes one Socket and the events of its descriptors only, and leaves these as the invariant wants them |
| `EventLoop.ParserReports` | srcs/Server/CgiRead.cpp:10-25 | whatever a script writes, in any pieces, is reported by the parser as the loop expects it, redirections without a document excepted |
| `EventLoop.EveryReport` | srcs/Server/ReceiveRequestFromClient.cpp:8-62 | every result that accept, read, write and the request parser can have for an event is a report of the model, new descriptors being any that are not in use |
| `EventLoop.ReceiveDisconnects` | srcs/Server/Server.cpp:75-79 | a closed connection: the event is gone from both maps and the Socket, which had no other descriptor, is freed once |
| `EventLoop.ListenAccepts` | srcs/Server/ListenToClient.cpp:17-31 | an accepted connection: a Socket and the event that receives its request are created and monitored for reading, and nothing else changes but the listener's pointer |
| `EventLoop.ReceiveWaits` | srcs/Server/ReceiveRequestFromClient.cpp:8-62 | an incomplete request: the event stays registered for reading on its live Socket |
| `EventLoop.ReceiveAnswers` | srcs/Server/ReceiveRequestFromClient.cpp:8-62 | an error or a static page: the response takes the place of the event, registered for writing |
| `EventLoop.ReceiveStartsScript` | srcs/Server/ReceiveRequestFromClient.cpp:27-58 | a CGI request: the script's event takes over the Socket, and the connection is in neither map any more |
| `EventLoop.CgiWriteFinishes` | srcs/Server/CgiWrite.cpp:10-30 | when the body has been written, or cannot be, the reader of the output takes the place of the writer |
| `EventLoop.CgiReadRejects` | srcs/Server/CgiRead.cpp:10-58 | a reply that is refused: the reader goes, and an error response is registered for the connection |
| `EventLoop.CgiReadGivesUp` | srcs/Server/CgiRead.cpp:10-58 | a read that fails before the header has ended: the same |
| `EventLoop.CgiReadPublishes` | srcs/Server/CgiRead.cpp:71-75 | a document reply: from now on two events, registered for the two descriptors, share the live Socket |
| `EventLoop.CgiResponseFinishes` | srcs/Server/CgiResponse.cpp:39-76 | the response frees the Socket, once, when the reader is gone and all has been sent or nothing can be; no event is left for either descriptor |
| `EventLoop.CgiResponseContinues` | srcs/Server/CgiResponse.cpp:68-76 | otherwise the Socket lives on, held by the response and by the reader if there is one |
| `EventLoop.CgiReadEnds` | srcs/Server/CgiRead.cpp:84-90 | at the end of the output the reader goes and leaves the live Socket to the response |
| `EventLoop.ResponseContinues` | srcs/Server/ResponseToTheClient.cpp:6-29 | a response that is not finished stays registered on its live Socket |
| `EventLoop.ResponseFinishes` | srcs/Server/ResponseToTheClient.cpp:5-21 | the static response frees the Socket, once, when it is finished; no event and no registration is left for its descriptors |
| `EventLoop.RunsAreSafe` | srcs/Server/Server.cpp:39-85 | in every run from the start, for any number of connections, any ready order and any reports, with a turn that finds no event or a freed Socket leading anywhere: no such turn ever comes, the maps have the same descriptors, no Socket is freed twice, and none is lost |
| `EventLoop.InvariantMeans` | srcs/Server/CgiResponse.cpp:39-42 | the invariant makes the next turn defined whatever descriptor is ready; every live Socket is held by an event registered for one of its descriptors |
| `EventLoop.ListenerKeepsFreed` | srcs/Server/ListenToClient.cpp:27-31 | the exception: a listener keeps a pointer to the Socket of its last connection, which dangles once that connection is closed |
| `EventLoop.EventServer.EventExec` | srcs/Server/Server.cpp:39-59 | the events of the batch are executed, one after the other and each once, by turns that are defined and lead from the old state to the new one; all of them, or all in front of a read of a request that throws what nothing catches; the invariant is kept |
| `EventLoop.BatchExtendsRun` | srcs/Server/Server.cpp:31-59 | the turns of a batch that starts where a run of the loop has come to make it a longer run, so that what holds in all runs holds in the middle of batches |
| `EventLoop.EventServer.RegisterNewEvent` | srcs/Server/Server.cpp:61-67 | stores and monitors the published event |
| `EventLoop.EventServer.NextEvent` | srcs/Server/Server.cpp:69-85 | replaces the event, or unregisters and deletes it as its state says |
| `EventLoop.EventServer.AddEventToMonitored` | srcs/Server/Server.cpp:26-30 | the event map is overwritten, while the map of the poller keeps an entry it has |
| `HttpRequests.CutsDoNotMatter` | srcs/Server/ReceiveHttpRequest.cpp:213-308 | two ways of cutting a stream without NUL bytes into reads have the same verdict, that of parsing it at once; only a chunked body is excepted |
| `HttpRequests.RunIsParse` | srcs/Server/ReceiveHttpRequest.cpp:213-308 | for all streams without NUL bytes, chunked ones included: the verdict is that on the text read up to then, parsed at once, where a chunked body may have none because the decoder does not return |
| `HttpRequests.HangsIff` | srcs/Server/ReceiveHttpRequest.cpp:301-304 | a request gets no verdict exactly if its chunked body leads the decoder to a size line that leads back to itself |
| `HttpRequests.CrashesIff` | srcs/Server/ReceiveHttpRequest.cpp:301-304 | a request ends the process exactly if its chunked body leads the decoder to a size line whose data would stop one or two bytes behind what was read |
| `HttpRequests.CutReadCrashesIff` | srcs/Server/ReceiveHttpRequest.cpp:301-304 | a well-formed chunked request whose read ends inside the data of a chunk ends the process exactly if one or two bytes of them are missing |
| `HttpRequests.AdvanceContinues` | srcs/Server/ReceiveHttpRequest.cpp:228-307 | a waiting state goes on as if all input had been there from the start; a verdict is not changed by later input |
| `HttpRequests.VerdictBeforeNulAgrees` | srcs/Server/ReceiveHttpRequest.cpp:226-227 | with a verdict before the first NUL byte of a stream the cuts do not matter, whatever comes behind it, more NUL bytes included |
| `HttpRequests.NulCutsAgreeIff` | srcs/Server/ReceiveHttpRequest.cpp:226-227 | a stream with any number of NUL bytes has the same verdict for all cuts exactly if there is a verdict before the first, or none whatever bytes behind each NUL are lost with it |
| `HttpRequests.ChunkedRest` | srcs/Server/ReceiveHttpRequest.cpp:301-304 | what a chunked request hands to the decoder is a suffix of the input, and all that comes with it |
| `HttpRequests.ChunkedCutsMatter` | srcs/Server/ReceiveHttpRequest.cpp:301-307 | the verdict on a chunked request comes with the read that ends its headers; wherever in the body that read ends, the verdict is that on the whole stream exactly if the rest of the body makes no difference to the decoder there |
| `HttpRequests.ChunkedRequestInOneRead` | srcs/Server/ReceiveHttpRequest.cpp:301-304 | a chunked request in one read gives exactly the body whose chunks were framed, however their sizes are spelt |
| `HttpRequests.ChunkedTooLarge` | srcs/Server/ReceiveHttpRequest.cpp:301-307 | a chunked request whose chunks exceed the limit of its server is answered with 413, however it goes on |
| `RequestReceiving.InputHttpRequestLine` | srcs/Server/ReceiveHttpRequest.cpp:128-154 | method, target and version, or 400 or 505, as the request line has them |
| `HttpRequests.RequestLineMeans` | srcs/Server/ReceiveHttpRequest.cpp:112-154 | a request line is accepted exactly if it has three parts, one of three methods and HTTP/1.1; with another version of the form HTTP/d or HTTP/d.d it is refused with 505, and in all other cases with 400 |
| `HttpRequests.TargetMeans` | srcs/Server/ReceiveHttpRequest.cpp:136-144 | the last question mark of a target starts the query if there is a slash in front of it and none behind it; otherwise all of it is the path |
| `RequestReceiving.SplitRequestHeaderLine` | srcs/Server/ReceiveHttpRequest.cpp:156-181 | name in lower case and value without the space around it, or 400 |
| `HttpRequests.HeaderLineMeans` | srcs/Server/ReceiveHttpRequest.cpp:156-181 | a name, a colon and a value with white space around it are the name in lower case and the value; an empty name or value, or no colon, is 400 |
| `HttpRequests.LowerMeans` | srcs/Server/ReceiveHttpRequest.cpp:176-176 | each upper-case letter becomes the lower-case one at the same place of the alphabet, and all else stays |
| `RequestReceiving.SelectServerContext` | srcs/Server/ReceiveHttpRequest.cpp:315-340 | the first server of several that serves host and port, otherwise the first |
| `HttpRequests.HostHeaderMeans` | srcs/Utils/Utils.cpp:131-143 | of "host" the host and no port, of "host:port" both, of three parts neither; a port with no host in front of its colon is taken for a host |
| `RequestReceiving.ReceiveHttpRequest.ReadHttpRequest` | srcs/Server/ReceiveHttpRequest.cpp:213-308 | one call, decoder object included, advances the parser over all input so far, and is over exactly when the parser is |
| `RequestReceiving.ReceiveHttpRequest.IsValidHeader` | srcs/Server/ReceiveHttpRequest.cpp:53-81 | sets the framing of the body as section 6.3 of RFC 9112 has it for requests with a body, or refuses |
| `RequestReceiving.ReceiveHttpRequest.ReadHeaders` | srcs/Server/ReceiveHttpRequest.cpp:241-286 | the loop over header lines stops at the first incomplete line, the first bad one, or the empty one |
| `HttpRequests.LengthIff` | srcs/Server/ReceiveHttpRequest.cpp:53-81 | the body of a POST request has length n exactly if there is one content length, which says n, no chunked coding, and one host |
| `HttpRequests.ChunkedIff` | srcs/Server/ReceiveHttpRequest.cpp:53-81 | the body of a POST request is chunked exactly if there is one chunked transfer coding, no content length, and one host |
| `HttpRequests.NoBodyIff` | srcs/Server/ReceiveHttpRequest.cpp:49-81 | a GET or DELETE request has no body, whatever its headers say, and is refused with 400 exactly if it has not one host |
| `HttpRequests.CompleteBody` | srcs/Server/ReceiveHttpRequest.cpp:288-300 | a complete GET or DELETE request has an empty body; that of a complete POST request is the first n bytes behind the first empty line of the text, n being its only content length |
| `HttpRoundTrip.WrittenWithoutBody` | srcs/Server/ReceiveHttpRequest.cpp:53-81 | a written request with no host or several is refused with 400; a GET or DELETE request with one host is complete |
| `HttpRoundTrip.WrittenWithLength` | srcs/Server/ReceiveHttpRequest.cpp:287-300 | a written POST request with content length n is refused with 413 if n exceeds the limit of its server, waited for while fewer than n bytes have come, and otherwise complete with the first n |
| `HttpRoundTrip.BadRequestLine` | srcs/Server/ReceiveHttpRequest.cpp:213-240 | a request line that is refused is the verdict on the text, whatever follows |
| `HttpRoundTrip.BadHeaderLine` | srcs/Server/ReceiveHttpRequest.cpp:241-286 | so is a header line that is refused, behind any good ones and whatever follows |
| `HttpRequests.FirstServingIsFirst` | srcs/Server/ReceiveHttpRequest.cpp:315-340 | of several servers the first with the name and, if one is given, the port of the only host header is selected, and the first of all if none has them; a single server serves everybody |
| `HttpRoundTrip.ParsedIsValid` | srcs/Server/ReceiveHttpRequest.cpp:128-181 | every request read completely has lower-case names, trimmed values, a framing that fits its body, and the server that was selected |
| `HttpRoundTrip.WrittenIsParsed` | srcs/Server/ReceiveHttpRequest.cpp:128-181 | a valid request that is written down is read back, body included |
| `HttpRoundTrip.CompleteRequestRoundTrip` | srcs/Server/ReceiveHttpRequest.cpp:213-308 | any request that was read completely, written down and cut anywhere, is read as the same request for the same server |
| `CgiParsing.RunKeepsInput` | srcs/Server/CgiParser.cpp:4-27 | bytes are conserved: while in the header, the header is all input; afterwards header, twice its line end, and body are |
| `CgiParsing.HeaderEndMeans` | srcs/Server/CgiParser.cpp:8-20 | the first double CRLF ends the header wherever it is, and the first double LF only if there is no double CRLF at all |
| `CgiParsing.CutsDoNotMatterIff` | srcs/Server/CgiParser.cpp:4-48 | a reply with a content type that is accepted at once may be cut anywhere exactly if its header, with all of its two line ends but the last byte, fits in 2048 bytes and, if these are CRLF, has no double LF |
| `CgiParsing.RunInHeader` | srcs/Server/CgiParser.cpp:8-26 | under that condition header list, class and body are those of the whole reply, for CRLF and for LF line ends (section 6 of RFC 3875) |
| `CgiParsing.CutThatMatters` | srcs/Server/CgiParser.cpp:11-23 | otherwise cutting before the last byte of the two line ends is noticed |
| `CgiParsing.RefusedHoweverCutIff` | srcs/Server/CgiParser.cpp:4-48 | a reply with a content type that is refused at once is refused however it is cut exactly if no header that can be read ends with a double LF in front of its double CRLF |
| `CgiParsing.ClassIgnoresBody` | srcs/Server/CgiParser.cpp:28-48 | with a content type the class does not depend on whether any of the body has come yet |
| `CgiClasses.ClassIff` | srcs/Server/CgiParser.cpp:28-118 | the exact headers of each class and of a refusal: forbidden headers, content type, a status that starts with three letters or digits, an absolute http or https location, a lone path as location |
| `CgiClasses.HeadersMean` | srcs/Server/CgiParser.cpp:119-129 | header lines are read as a list of headers exactly if each line is read as the header at its place and no name occurs twice |
| `CgiClasses.HeaderMeans` | srcs/Server/CgiParser.cpp:130-160 | a name of two characters at least, a colon and a value with white space around it are the name in upper case and the value; a shorter name, no value or no colon is a failure |
| `CgiParsing.CgiParser.Parse` | srcs/Server/CgiParser.cpp:4-27 | one call makes one step of the state machine, or throws exactly when that fails, with the type still open or that of an error |
| `CgiParsing.StepIsProper` | srcs/Server/CgiParser.cpp:4-48 | empty output is refused while the type of the reply is open; once it is settled nothing is refused and the type stays |
| `CgiParsing.CgiParser.ParseHeader` | srcs/Server/CgiParser.cpp:119-129 | the headers of all lines, or failure at the first bad or repeated one |
| `CgiParsing.CgiParser.ValidateHeader` | srcs/Server/CgiParser.cpp:28-48 | the class of the reply, or failure |
| `CgiParsing.MakeHeader` | srcs/Server/CgiParser.cpp:130-160 | name in upper case and value without the space around it, or failure |
| `CgiParsing.HeaderRoundTrip` | srcs/Server/CgiParser.cpp:172-177 | the headers of a reply with CRLF line ends, printed as they are sent on, are read as the same headers |
| `Lexing.Lexer.Tokenize` | srcs/Config/Lexer.cpp:18-24 | line by line, the lexer appends exactly the tokens of the one-pass scanner |
| `Lexing.Lexer.DecomposeAndStoreLineWithDelimiters` | srcs/Config/Lexer.cpp:25-35 | appends the tokens of one line |
| `Lexing.Lexer.SeparateAndStoreDelimiterCharacters` | srcs/Config/Lexer.cpp:36-46 | appends the tokens of a piece without blanks |
| `Lexing.ScanByLines` | srcs/Utils/File.cpp:66-83 | scanning the lines one by one is scanning the text, with or without a newline at its end |
| `Lexing.TokensCut` | srcs/Config/Lexer.cpp:18-50 | the tokens are the only way to cut the text into single separators and words that go on as far as they can, each in the line its number says |
| `Lexing.TokensKeepText` | srcs/Config/Lexer.cpp:18-50 | the tokens concatenated are the text without its blanks |
| `Lexing.LinesNeverDecrease` | srcs/Config/Lexer.cpp:18-50 | line numbers never decrease, and every token is a separator or a word |
| `Lexing.LayoutIsScannedIff` | srcs/Config/Lexer.cpp:18-50 | tokens laid out with gaps of blanks behind them, empty ones included, are found again exactly if no two words touch |
| `Parsing.TokenManager.Next` | srcs/Config/TokenManager.cpp:15-19 | moves the cursor by one, or throws at the last token and stays |
| `Parsing.Parser.Parse` | srcs/Config/Parser.cpp:23-34 | terminates; either throws, exactly when the tokens spell no configuration, or uses up all tokens and stores the contexts they mean |
| `Parsing.Parser.StoreServDirectives` | srcs/Config/Parser.cpp:36-44 | one server, up to its closing brace |
| `Parsing.Parser.MakeLocationDirectives` | srcs/Config/Parser.cpp:46-54 | one location, up to its closing brace |
| `Parsing.Parser.StoreListen` | srcs/Config/Parser.cpp:55-86 | host and port of one argument, once, the port between 1 and 65535 and the host one that `inet_aton` accepts |
| `Parsing.Parser.StoreClientBodySize` | srcs/Config/Parser.cpp:87-99 | one non-negative number, once |
| `Parsing.Parser.StoreServerName` | srcs/Config/Parser.cpp:100-106 | one word, once |
| `Parsing.Parser.StoreErrorPage` | srcs/Config/Parser.cpp:107-130 | one or more codes from 300 to 599 and a page, which all codes of the server get |
| `Parsing.Parser.StoreLocation` | srcs/Config/Parser.cpp:132-144 | a key not used before and its location |
| `Parsing.Parser.StoreLimitExcept` | srcs/Config/Parser.cpp:146-160 | one or more of the three methods, none of them twice |
| `Parsing.Parser.StoreRedirect` | srcs/Config/Parser.cpp:161-175 | a code from 0 to 999 and perhaps a target, once |
| `Parsing.Parser.StoreRoot` | srcs/Config/Parser.cpp:176-187 | one full, valid path, once, normalised |
| `Parsing.Parser.StoreAutoIndex` | srcs/Config/Parser.cpp:188-197 | on or off, once |
| `Parsing.Parser.StoreIndex` | srcs/Config/Parser.cpp:198-204 | one word, once |
| `Parsing.Parser.StoreCgiExtension` | srcs/Config/Parser.cpp:205-218 | one or more extensions with a single dot in front, added to those before |
| `Grammar.ParsedIffSpelt` | srcs/Config/Parser.cpp:23-54 | one pass over the tokens yields contexts exactly if the whole token list spells directives, separator checks by character being exact, that mean those contexts |
| `Grammar.ServersAreRead` | srcs/Config/Parser.cpp:23-54 | every spelt configuration is read with its meaning, or refused if it has none |
| `Grammar.ServersWereSpelt` | srcs/Config/Parser.cpp:23-54 | whatever is read was spelt, to the last token |
| `ConfigurationRoundTrip.MeaningIsValid` | srcs/Config/Parser.cpp:55-218 | all contexts that can be read: ports, codes and methods in range, roots normalised, one page for all codes of a server |
| `Directives.LimitExceptMeans` | srcs/Config/Parser.cpp:146-160 | exactly which arguments are accepted, and what they change: one or more of three methods, none of them twice, are added, and nothing else is accepted |
| `Directives.ReturnMeans` | srcs/Config/Parser.cpp:161-175 | exactly which arguments are accepted, and what they change: a code from 0 to 999 and perhaps a target, once |
| `Directives.RootMeans` | srcs/Config/Parser.cpp:176-187 | exactly which arguments are accepted, and what they change: one path that starts with a slash and never leads above the root, once; it is stored normalised |
| `Directives.AutoIndexMeans` | srcs/Config/Parser.cpp:188-197 | exactly which arguments are accepted, and what they change: on or off, once |
| `Directives.IndexMeans` | srcs/Config/Parser.cpp:198-204 | exactly which arguments are accepted, and what they change: one word, once |
| `Directives.CgiExtensionMeans` | srcs/Config/Parser.cpp:205-218 | exactly which arguments are accepted, and what they change: one or more words, each a dot with something without a dot behind it, are added to those before |
| `Directives.ListenMeans` | srcs/Config/Parser.cpp:55-86 | exactly which arguments are accepted, and what they change: exactly one argument, once: a port alone, or a host that inet_aton accepts, a colon and a port, the port a number from 1 to 65535 |
| `Directives.ClientBodySizeMeans` | srcs/Config/Parser.cpp:87-99 | exactly which arguments are accepted, and what they change: one non-negative number, once |
| `Directives.ServerNameMeans` | srcs/Config/Parser.cpp:100-106 | exactly which arguments are accepted, and what they change: one word, once |
| `Directives.ErrorPageMeans` | srcs/Config/Parser.cpp:107-130 | exactly which arguments are accepted, and what they change: codes from 300 to 599 and a page; afterwards the server has these codes and those before, all with this page |
| `Directives.DefaultBodySize` | srcs/Config/ServerContext.cpp:4-4 | a server whose directives do not set the size of bodies takes up to 100000 bytes |
| `Directives.SeparatorsMean` | srcs/Config/Lexer.cpp:4-6 | the blanks and the separators of the language, listed |
| `Directives.SmallServer` | srcs/Config/Parser.cpp:23-54 | the tokens of a server with a directive and a location, keywords, braces and semicolons included |
| `ConfigurationRoundTrip.LocationIsRead` | srcs/Config/Parser.cpp:146-218 | what is written for a location is read as that location |
| `ConfigurationRoundTrip.ServerItemsAreRead` | srcs/Config/Parser.cpp:36-144 | what is written for a server is read as that server |
| `ConfigurationRoundTrip.RepeatedInLocation` | srcs/Config/Parser.cpp:161-204 | a location with `return`, `root`, `autoindex` or `index` twice is refused, wherever they stand |
| `ConfigurationRoundTrip.RepeatedInServer` | srcs/Config/Parser.cpp:55-144 | a server with `listen`, `client_max_body_size`, `server_name` or a location key twice is refused |
| `ConfigurationRoundTrip.ParseOfWritten` | srcs/Config/Parser.cpp:23-218 | printing valid contexts and parsing the tokens gives the same contexts |
| `ConfigurationRoundTrip.TextRoundTrip` | srcs/Config/Lexer.cpp:18-50 | valid contexts printed in any layout in which no two words touch, lexed and parsed, come back |
| `ConfigurationRoundTrip.ParsedTextIsValid` | srcs/Config/Parser.cpp:23-218 | the contexts of any text that can be parsed are valid, so the two round trips apply to all of them |
| `ConfigurationRoundTrip.Load` | srcs/Main/main.cpp:12-15 | lexer and parser together: the contexts that the text means, or the exception |
| `Paths.SplitWithMultipleSpecifier` | srcs/Utils/Utils.cpp:44-58 | the non-empty pieces between separators |
| `Paths.SplitAtSeparator` | srcs/Utils/Utils.cpp:44-58 | a separator splits what is before it from what is behind it |
| `Paths.PiecesAreClean` | srcs/Utils/Utils.cpp:44-58 | pieces are not empty and have no separator |
| `Paths.IsValidPath` | srcs/Server/Path.cpp:52-65 | true exactly when the segments can be resolved |
| `Paths.ResolvableByDepth` | srcs/Server/Path.cpp:52-65 | segments can be resolved exactly when no beginning of them leads above the start |
| `Paths.Normalize` | srcs/Server/Path.cpp:81-108 | the normalised path, or the exception exactly when the segments cannot be resolved |
| `Paths.NormalizesIffWithinRoot` | srcs/Server/Path.cpp:81-108 | succeeds exactly on paths that never lead above the root, which is when the path is valid |
| `Paths.SegmentsOfNormalized` | srcs/Server/Path.cpp:81-108 | the result has no empty, `.` or `..` segment, names the same place, and keeps a slash at the end |
| `Paths.NormalizedMeans` | srcs/Server/Path.cpp:81-108 | the segments of the result are, in order, exactly the plain segments of the path from which it never comes back to where they stand, by the depth that the beginnings of the path lead to |
| `Paths.SlashesOfNormalized` | srcs/Server/Path.cpp:81-108 | the result starts with a slash, and no slash follows another |
| `Paths.NormalizeCancels` | srcs/Server/Path.cpp:88-97 | a plain segment and .. behind it cancel, and a . might as well not be there, anywhere in a path, failures included |
| `Paths.NormalizeIsIdempotent` | srcs/Server/Path.cpp:81-108 | normalising twice is normalising once (compare section 5.2.4 of RFC 3986) |
| `Paths.NormalizeInSteps` | srcs/Server/Path.cpp:81-108 | normalising the first part of a path beforehand changes nothing, failures included |
| `Paths.FindBestLocation` | srcs/Server/Path.cpp:17-37 | the entry whose key is the longest non-empty prefix of the path; the exception exactly when there is none |
| `Paths.BestIsUnique` | srcs/Server/Path.cpp:17-37 | the choice does not depend on the order of the entries |
| `PercentCodec.Encode` | srcs/Server/Cgi.cpp:156-168 | computes the encoding byte by byte |
| `PercentCodec.Decode` | srcs/Server/Cgi.cpp:169-190 | computes the decoding, whose look-ups stay inside the table |
| `PercentCodec.LooksUpInTable` | srcs/Server/Cgi.cpp:172-176 | all look-ups stay inside the table exactly if behind every percent sign with two bytes more there is a byte below 128 and, if that is a digit, another one |
| `PercentCodec.LookUpsOutside` | srcs/Server/Cgi.cpp:172-176 | the bytes 25 FF 30 are looked up outside the table; in 25 7A FF the last byte is not looked up |
| `PercentCodec.DecodeEncode` | srcs/Server/Cgi.cpp:156-190 | decoding undoes encoding for every byte string |
| `PercentCodec.EncodedIsCanonical` | srcs/Server/Cgi.cpp:148-168 | encoding emits only unreserved characters and upper-case triplets of other bytes (sections 2.1 and 2.3 of RFC 3986) |
| `PercentCodec.EncodeDecode` | srcs/Server/Cgi.cpp:156-190 | encoding undoes decoding exactly on such strings |
| `PercentCodec.PercentOnlyFromTriplet` | srcs/Server/Cgi.cpp:172-176 | a percent sign comes out exactly if the encoded one, %25, goes in; all others are dropped or start triplets |
| `PercentCodec.PiecesDecode` | srcs/Server/Cgi.cpp:169-190 | a plus sign is decoded to a space, a triplet with digits in either case to the byte they spell, a lone percent sign to nothing, and any other byte to itself |
| `PercentCodec.DecodedConcat` | srcs/Server/Cgi.cpp:169-190 | decoding goes piece by piece wherever no triplet is cut |
| `PercentCodec.StrayPercentIsDropped` | srcs/Server/Cgi.cpp:172-176 | in front of anything but two digits a percent sign is dropped and the rest is decoded as if it had not been there |
| `PercentCodec.SafeMeans` | srcs/Server/Cgi.cpp:148-150 | the characters that are not encoded are the letters, the digits and - . _ ~ (section 2.3 of RFC 3986) |
| `PercentCodec.TablesMean` | srcs/Server/Cgi.cpp:145-166 | the encoding table has the upper-case hexadecimal digits in order, and the decoding table gives the value of the digits of either case |
| `Numbers.StrToLongOfPrint` | srcs/Utils/Utils.cpp:30-43 | a number in range, printed in either base, is read back |
| `Numbers.ValueOfPrint` | srcs/Utils/Utils.cpp:30-43 | printing and reading digits are inverse |
| `Numbers.DigitsMean` | srcs/Utils/Utils.cpp:30-43 | the hexadecimal digit with value d is the d-th of 0-9a-f or of 0-9A-F, and no other character is; in base 10, the d-th of 0-9 |
| `Numbers.HexPlaces` | srcs/Utils/Utils.cpp:37-43 | positional notation: the digit k places in front of the last is what k divisions of the value by 16 leave, modulo 16, and there is nothing left behind the first |
| `Numbers.DecimalPlaces` | srcs/Utils/Utils.cpp:30-36 | the same in base 10 |
| `Numbers.NumeralIsRead` | srcs/Utils/Utils.cpp:30-43 | white space, perhaps a sign, perhaps 0x in base 16, and digits are read as the number they spell if that fits a long, otherwise as -1 |
| `Numbers.OnlyNumeralsAreRead` | srcs/Utils/Utils.cpp:30-43 | any text that is read as another number than -1, the empty one apart, is of that form |
| `Text.CharactersMean` | srcs/Server/ReceiveHttpRequest.cpp:156-181 | digits, letters and white space of the C locale, listed, and which characters change their case |

## Left out

- ChunkedDecoding.ChunkedBody.DecodeChunkedBody: asks that the call ends, which `ForeverIff` says exactly when it does; a method here cannot run for ever.
- ChunkedSending.EmittedBytesDecode: asks that six times the body size fits in `size_t`, so that the byte counters do not overflow, and that no write fails.
- ChunkedSending.SentByteIsExact: asks for the same bound; the wrap-around of the subtraction itself is modelled.
- ChunkedSending.NeverThrows: asks for the same bound, but writes may fail.
- EventLoop.RunsAreSafe: covers static connections and CGI replies of document type, with new descriptors that are not open and `epoll_ctl` that succeeds; client and local redirects have another ownership of the Socket.
- EventLoop.EventServer.EventExec: a batch has distinct descriptors, as the kernel reports them; each report is one the event can get. A read in which the chunk decoder does not return is none; one in which it throws ends the process, and when that is, `CrashesIff` says and not the loop.
- HttpRequests.CutsDoNotMatter: excepts chunked bodies and NUL bytes, for which `ChunkedCutsMatter`, `VerdictBeforeNulAgrees` and `NulCutsAgreeIff` say what happens.
- HttpRequests.NulCutsAgreeIff: asks that what is before the first NUL does not end inside a chunked body.
- RequestReceiving.ReceiveHttpRequest.ReadHttpRequest: asks that the call ends; `HangsIff` says exactly when it does not.
- PercentCodec.Decode: asks that look-ups stay inside the table of 128 entries; what lies behind it in memory is not modelled.
- Parsing.Parser.Parse: asks that the tokens come from the lexer, and leaves open what has been stored when it throws.
- The texts of error messages and their line numbers; exceptions are told apart by status code where the code has one.
- `ServerContext::ToMap`, getters, enum-to-string tables, logging, dates and timers: no property beyond the body.
- `CgiParser::ParseQuery` and the local path it stores: used by local redirects only.
- `Get`, `Post`, `Delete`, `ErrorPage`, `Listen`, `Cgi::Run`: file system, processes and HTML text.
- The destructor of `Server`, which deletes Sockets that the events delete as well: it runs when the process ends.
- `NextGraph`, `Randomize` and the explanations written to a listener in gmock; the rest of googletest.
- `inet_aton` is an arbitrary predicate; `strtol` and the character classes are those of the C locale.
