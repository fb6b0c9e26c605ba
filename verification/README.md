# Verified models of an emulator's parsers, codecs and profiler

This project models five parts of the emulator's source tree and proves what they promise:

- **getopt** (`externals/getopt/getopt.c`): the parser that moves options in front of operands while it reads them. The
  calls are proved against a plain left-to-right scan of the untouched command line.
- **httplib** (`externals/httplib/httplib.h`): the multipart/form-data parser and serializer (RFC 7578 section 4, RFC 2046
  section 5.1.1), chunked transfer coding (section 7.1 of RFC 9112), base64 (section 4 of RFC 4648), query strings
  (section 2.1 of RFC 3986), the thread pool, and the client's in-flight protocol for its socket.
- **microprofile** (`externals/microprofile/microprofile.h`): packed log entries in a ring, their replay into inclusive,
  exclusive and group times, and the pool of per-thread logs.
- **the resampler** (`src/audio_core/interpolate.cpp`): fixed-point positions, state carried between calls.
- **the GC-ADPCM decoder** (`src/audio_core/codec.cpp`).

Code that works in place is modelled by methods and classes, each tied by its `ensures` to a function of its inputs; the
properties are lemmas about those functions. Protocols between threads are state machines whose steps are what a thread
does while it holds a mutex. Bytes are chars below 256, machine integers are written out where their width matters, and
what a socket, a clock or a scheduler may do is left open: an arbitrary choice or an arbitrary sequence of steps.

## Main results

1. For every command line, option table and ordering, the calls of getopt report what the scan reports, and in the end
   argv is the used-up elements in their order followed by the operands in theirs (`Getopt.ParseAll`). Settings written in
   any legal spelling, among operands and mistakes, are reported exactly (`GetoptForms.LineReads`), and every command line
   is one of these (`GetoptForms.EveryLine`). The caller's loop
   misses a report exactly when some long option returns -1 (`GetoptSpec.AlwaysQuiet`).
2. However a serialized form is cut into chunks, the multipart parser gives back exactly its items if and only if its
   opening line comes in one chunk (`MultipartForm.RoundTrip`, `MultipartLost.OpeningDecides`); for other inputs too,
   cutting makes no difference (`MultipartChunks.ChunksDoNotMatter`).
3. The resampler's output does not depend on how its input is split into calls (`Interpolate.SplitDoesNotMatter`), and its
   unsigned arithmetic gives the signed interpolation (`Interpolate.LinearRun`).
4. Chunked messages read back whatever pieces the sockets move them in and however the writes are grouped into calls of
   the provider (`Chunked.SendAndReceive`); exactly when the call that ends the message is reached
   (`Chunked.ProviderReads`, `Chunked.ScriptReads`). What the reader accepts is characterised in both directions
   (`ChunkedForms.FormReads`, `ChunkedForms.OnlyForms`).
5. In every interleaving of puts and flips, with scopes that span frames and a ring that wraps around, a profiler group
   is charged the length of the union of its scopes (`ProfileRing.Record`, on `ProfileScopes.GroupTimeIsUnion`);
   timers get sums over their closed scopes (`ProfileTimers.TimerTimes`); exclusive times are conserved for any log at all
   (`ProfileSpec.ExclusiveConserved`).
6. In every interleaving the client's asserts hold and no socket is closed under another thread's request
   (`ClientSocket.NobodyElseIsUsingIt`); the thread pool runs jobs in order, loses no wake-up and always finishes
   shutting down (`ThreadPool.ShutdownFinishes`), with every job done if and only if none came after the last worker had
   gone (`ThreadPool.ShutdownCompletes`).
7. base64, query strings and ADPCM equal their definitions and read back (`Base64.RoundTrip`, `Query.RoundTrip`,
   `QueryForms.DecodesWriting`, `AdpcmFrames.DecodesWhatWasPacked`); the exact coefficients for which ADPCM stays inside
   32 bits are given (`Adpcm.FitsExactly`).

## Where the code differs from what one would expect

- A form whose opening line does not come in one chunk is never read back (`MultipartLost.OpeningDecides`); one of several
  items can lose its first and still be reported as valid (`MultipartLost.FirstItemIsLost`).
- A chunked body ends without its last chunk exactly when some call before the one that ends the message gives up or has
  an empty write as the last thing it does (`Chunked.ProviderReads`); other empty writes do no harm.
- `parse_query_text` drops repeated pairs, so the query round trip holds exactly without them (`Query.RoundTrip`).
- An exit never clears the thread's log pointer. The pool is right after an exit if and only if the log was still the
  thread's own (`ThreadLogs.ExitSoundExactly`): a second exit ties the free list into a ring
  (`ThreadLogs.ExitEndsExactly`) or puts a log in use on it.
- A job enqueued after every worker has gone stays in the queue for good (`ThreadPool.LateJobIsStranded`,
  `ThreadPool.StrandedRun`).
- `src/audio_core/codec.h:26` promises `sample_count` samples; the decoder returns that number rounded up to even, so it
  keeps the promise exactly when the number is even (`Adpcm.DecodeADPCM`).
- The assert at `externals/microprofile/microprofile.h:1700` admits 32 open scopes (`Profile.GuardsExactly`), but the child
  tick stack has room for 31 (`Profile.InsideExactly`): the 32nd writes behind it (`Profile.DeepLogWritesOutside`).

## Model

| member | source | states |
|---|---|---|
| Getopt.SwapBlocks | externals/getopt/getopt.c:84-89 | swaps two equally long blocks of argv in place, everything else untouched |
| Getopt.ExchangeStep | externals/getopt/getopt.c:80-103 | one round leaves a smaller exchange with the same outcome |
| Getopt.GetoptData.Exchange | externals/getopt/getopt.c:72-107 | argv[first..last) and argv[last..optind) change places, each in its own order; the indices follow |
| Getopt.FindLong | externals/getopt/getopt.c:203-226 | the single pass finds the first exact name, else the one meaning all completions share, else ambiguity or nothing |
| GetoptSpec.LookUp | externals/getopt/getopt.c:203-226 | its result satisfies the declarative meaning of an abbreviation |
| GetoptSpec.LookupUnique | externals/getopt/getopt.c:203-226 | that meaning admits one answer only |
| Getopt.GetoptData.SkipOperands | externals/getopt/getopt.c:152-161 | moving used-up elements forward and skipping operands keeps what the rest of the run comes to |
| Getopt.GetoptData.EndAtDashes | externals/getopt/getopt.c:162-171 | at `--` the scan is over and the two halves of argv are in place |
| Getopt.GetoptData.FindWord | externals/getopt/getopt.c:146-184 | ends the run, reports an operand or finds the next option word, keeping what is to come |
| Getopt.GetoptData.TakeLong | externals/getopt/getopt.c:187-316 | reads a long option word as the scan does, with its argument, optopt, longind and flag |
| Getopt.GetoptData.TakeShort | externals/getopt/getopt.c:317-475 | reads the next short option of a cluster as the scan does, with its argument |
| Getopt.GetoptData.NextLong | externals/getopt/getopt.c:185-316 | one long option: what is to come loses exactly this report |
| Getopt.GetoptData.NextShort | externals/getopt/getopt.c:317-475 | one short option: what is to come loses exactly this report |
| Getopt.GetoptData.Begin | externals/getopt/getopt.c:108-145 | initialisation and sign stripping do not change what is to come |
| Getopt.GetoptData.Next | externals/getopt/getopt.c:129-477 | every call reports the first of what is to come and leaves the rest, or ends with argv partitioned; 1 <= first <= last <= optind <= argc until then |
| Getopt.ParseAll | externals/getopt/getopt.c:129-186 | the whole run: reports, and what is left in optopt, longind and flags, equal those of the scan of the original argv, argv ends as used-up elements then operands, both in original order |
| GetoptSpec.ScanPartitions | externals/getopt/getopt.c:129-186 | the scan's two halves interleave to the original arguments |
| GetoptSpec.ScanBound | externals/getopt/getopt.c:135-186 | there are no more reports than characters and elements, so every caller's loop ends |
| GetoptSpec.ScanQuiet | externals/getopt/getopt.c:291-296 | no report looks like the end unless an abbreviation selects a row with value -1 |
| GetoptSpec.AlwaysQuiet | externals/getopt/getopt.c:291-296 | a loop that stops at -1 sees every report of every command line if and only if no such row can be selected |
| GetoptForms.KindIs | externals/getopt/getopt.c:318-330 | whether a character takes an argument, off the characters of optstring alone |
| GetoptForms.ShortReads | externals/getopt/getopt.c:317-475 | a word of flags, unknown characters and a last option with its attached, separate or missing optional argument reports exactly these |
| GetoptForms.LongReads | externals/getopt/getopt.c:187-316 | a long option by name or abbreviation, with or without an argument, reports its row's value, index and store; mistakes are complaints |
| GetoptForms.EndReads | externals/getopt/getopt.c:129-475 | `--`, a first operand, or an option that lacks its required argument end the command line |
| GetoptForms.LineReads | externals/getopt/getopt.c:129-475 | every command line put together from settings, operands and mistakes is read as exactly these |
| GetoptForms.EveryLine | externals/getopt/getopt.c:129-475 | every command line can be put together so |
| GetoptForms.SameEffectExactly | externals/getopt/getopt.c:219-224 | rows are interchangeable if and only if they report the same for every argument |
| GetoptForms.SignMeans | externals/getopt/getopt.c:108-145 | what the sign of optstring and POSIXLY_CORRECT decide |
| Text.TrimRange | externals/httplib/httplib.h:2456-2465 | the two scans meet in the trimmed piece |
| Text.TrimCopy | externals/httplib/httplib.h:2467-2470 | the string without blanks at its ends |
| Text.Split | externals/httplib/httplib.h:2479-2497 | the callback gets the trimmed, non-empty pieces between separators |
| Text.FieldsOfJoin | externals/httplib/httplib.h:2479-2497 | splitting undoes joining |
| Text.FieldsOfParts | externals/httplib/httplib.h:2479-2497 | splitting any text gives its parts trimmed, only blank ones left out |
| Query.FromHexToI | externals/httplib/httplib.h:2208-2223 | the number written by so many hexadecimal digits, or failure |
| Query.EncodeQueryParam | externals/httplib/httplib.h:2348-2367 | percent encoding of every byte that is not kept |
| Query.DecodeAt | externals/httplib/httplib.h:2406-2432 | one turn of the decoder, with %XX, %uXXXX, plus signs and malformed escapes |
| Query.DecodeUrl | externals/httplib/httplib.h:2401-2436 | decodes the whole text |
| Query.DecodeEncode | externals/httplib/httplib.h:2348-2436 | decoding undoes encoding for all byte strings and both treatments of plus signs |
| Query.ParamsToQueryStr | externals/httplib/httplib.h:4164-4174 | the pairs in order, joined with & |
| Query.SplitPair | externals/httplib/httplib.h:4183-4191 | the first piece is the key, the last other piece the value |
| Query.ParseQueryText | externals/httplib/httplib.h:4176-4197 | each different field is decoded and inserted once, in multimap order |
| Query.ParseWritten | externals/httplib/httplib.h:4164-4197 | reading a written query gives the pairs, each once |
| Query.RoundTrip | externals/httplib/httplib.h:4164-4197 | it gives back the multimap if and only if no pair is repeated |
| QueryForms.DecodesWriting | externals/httplib/httplib.h:2401-2436 | every text, by the way it is written (plain characters, plus signs, %XX and %uXXXX in either case, stray percent signs), decodes to what that means |
| QueryForms.EveryTextIsWritten | externals/httplib/httplib.h:2401-2436 | every text is written in some such way |
| QueryForms.Utf8Reads | externals/httplib/httplib.h:2235-2267 | a UTF-8 reader recovers the code point; the form is the shortest, and surrogates give nothing |
| QueryForms.EscapeIs | externals/httplib/httplib.h:2358-2363 | escapes are in upper case |
| QueryForms.EncodedSize | externals/httplib/httplib.h:2348-2367 | exactly the listed characters are sent as they are |
| QueryForms.LessExactly | externals/httplib/httplib.h:4176-4197 | keys are ordered by their first difference |
| QueryForms.ParseInOrder | externals/httplib/httplib.h:4176-4197 | for every query the parameters are sorted by key, those of one key in the order of the text |
| QueryForms.KeyValueOfMany | externals/httplib/httplib.h:4183-4191 | of several pieces the first is the key and the last the value |
| Multipart.StartWithCaseIgnore | externals/httplib/httplib.h:4426-4433 | prefix test without regard to case |
| Multipart.ParseDispositionParams | externals/httplib/httplib.h:4210-4232 | the parameters in insertion order, unquoted, each field once |
| Multipart.ParseHeader | externals/httplib/httplib.h:4323-4366 | what one header line changes, or that it is refused |
| Multipart.MultipartFormDataParser.BufFind | externals/httplib/httplib.h:4465-4486 | the first occurrence in the window, or the window's size |
| Multipart.MultipartFormDataParser.BufAppend | externals/httplib/httplib.h:4488-4504 | the window moves to the front and grows by the new bytes |
| Multipart.MultipartFormDataParser.BufErase | externals/httplib/httplib.h:4506-4506 | drops bytes from the front of the window |
| Multipart.MultipartFormDataParser.ReadHeaderLines | externals/httplib/httplib.h:4308-4372 | reads all complete header lines up to the empty one |
| Multipart.MultipartFormDataParser.StepOpening | externals/httplib/httplib.h:4295-4302 | state 0 does what one pass over the bytes does |
| Multipart.MultipartFormDataParser.StepHeaders | externals/httplib/httplib.h:4308-4372 | state 2 likewise, with the length limit |
| Multipart.MultipartFormDataParser.StepBody | externals/httplib/httplib.h:4373-4395 | state 3 likewise, keeping back what may be the start of a delimiter |
| Multipart.MultipartFormDataParser.StepBoundary | externals/httplib/httplib.h:4396-4412 | state 4 likewise |
| Multipart.MultipartFormDataParser.Parse | externals/httplib/httplib.h:4288-4417 | one call equals one pass over the bytes left over and the new ones |
| Multipart.ParseChunks | externals/httplib/httplib.h:4288-4417 | a series of calls, up to the first refusal |
| MultipartSpec.FindFirst | externals/httplib/httplib.h:4465-4486 | searching finds the first occurrence, and none before it |
| MultipartSpec.FindBeforeMark | externals/httplib/httplib.h:4557-4600 | CRLF--boundary cannot overlap itself, so the first one after the content is found there |
| MultipartChunks.HeadersAbsorb | externals/httplib/httplib.h:4308-4372 | header lines read in two goes are read as in one |
| MultipartChunks.BodyAbsorb | externals/httplib/httplib.h:4373-4395 | a body read in two goes gives the same content and delimiter as in one |
| MultipartChunks.Absorb | externals/httplib/httplib.h:4288-4417 | stopping for more input anywhere and going on gives what reading it all at once gives |
| MultipartChunks.ChunksDoNotMatter | externals/httplib/httplib.h:4288-4417 | every way of cutting the input gives the same headers, contents, validity and result |
| MultipartForm.SerializeItemBegin | externals/httplib/httplib.h:4557-4573 | the boundary and header lines of an item |
| MultipartForm.Serialize | externals/httplib/httplib.h:4587-4600 | the whole body, with or without the closing delimiter |
| MultipartForm.IsBoundaryValid | externals/httplib/httplib.h:4545-4555 | letters, digits, - and _ only |
| MultipartForm.HeadersRead | externals/httplib/httplib.h:4557-4573 | written header lines are read back as the item's name, filename and type |
| MultipartForm.ItemsRead | externals/httplib/httplib.h:4288-4417 | from a new entry on, serialized items are read back one by one |
| MultipartForm.WholeFormReads | externals/httplib/httplib.h:4587-4600 | a form read at once is valid and gives its items |
| MultipartForm.RoundTrip | externals/httplib/httplib.h:4288-4417 | the same for every way of cutting it whose first chunk holds the opening line |
| MultipartLost.PieceIsDropped | externals/httplib/httplib.h:4295-4302 | a chunk shorter than the opening line is thrown away whole |
| MultipartLost.OpeningLate | externals/httplib/httplib.h:4557-4600 | any other opening line in a form lies behind its first item's headers, or ends a Content-Type line |
| MultipartLost.DelimiterLate | externals/httplib/httplib.h:4557-4600 | behind an item's delimiter another one comes only when the next item's content has begun, or never |
| MultipartLost.DrainAhead | externals/httplib/httplib.h:4288-4417 | a parser that has lost bytes of the form stays ahead of it in every state |
| MultipartLost.AheadAtEnd | externals/httplib/httplib.h:4288-4417 | such a parser does not end with the form's items |
| MultipartLost.OpeningDecides | externals/httplib/httplib.h:4288-4417 | for every form and cutting: read back if and only if the opening line comes in one chunk |
| MultipartLost.FirstItemIsLost | externals/httplib/httplib.h:4295-4302 | a form cut inside its opening line loses its first item and is still valid |
| MultipartRules.TypeLineReads | externals/httplib/httplib.h:4321-4325 | a Content-Type line in any letter case, with any blanks |
| MultipartRules.ParamsRead | externals/httplib/httplib.h:4210-4232 | of the parameters, quoted or not, with any blanks, the value given first is found |
| MultipartRules.DispositionLineReads | externals/httplib/httplib.h:4326-4361 | every Content-Disposition line of the grammar: name, filename, filename* and the refusals |
| MultipartRules.ExtendedMeans | externals/httplib/httplib.h:4345-4354 | an extended file name means what its percent encoding means |
| MultipartRules.OtherLinesRefused | externals/httplib/httplib.h:4358-4361 | any other line is refused |
| MultipartRules.BlockReads | externals/httplib/httplib.h:4308-4372 | header lines in whatever order describe the part or are refused |
| MultipartRules.LongLineRefused | externals/httplib/httplib.h:4309-4310 | a first header line of more than 8192 bytes is refused |
| MultipartRules.ValidOnlyWhenClosed | externals/httplib/httplib.h:4396-4412 | however the input is cut, without a closing delimiter it never becomes valid |
| MultipartRules.BoundaryExactly | externals/httplib/httplib.h:4545-4555 | the accepted boundary characters, by their codes |
| Base64.Absorb | externals/httplib/httplib.h:2279-2286 | one byte into the wrapping accumulator, and the digits it completes |
| Base64.Encode | externals/httplib/httplib.h:2269-2295 | equals the three-byte-group definition for every length |
| Base64.RoundTrip | externals/httplib/httplib.h:2269-2295 | a decoder recovers the input |
| Base64.EncodedLength | externals/httplib/httplib.h:2290-2292 | the length is 4 * ceil(n / 3) |
| Chunked.SocketStream.Read | externals/httplib/httplib.h:5316-5360 | hands out the next bytes in order, some of them, through its own buffer |
| Chunked.StreamLineReader.Append | externals/httplib/httplib.h:2551-2562 | keeps the byte whether or not the fixed buffer is full |
| Chunked.StreamLineReader.Getline | externals/httplib/httplib.h:2525-2549 | exactly the first line, and what follows stays in the stream |
| Chunked.ReadContentWithLength | externals/httplib/httplib.h:3735-3755 | exactly so many bytes, or failure when there are fewer |
| Chunked.ReadContentWithoutLength | externals/httplib/httplib.h:3768-3785 | everything up to the end |
| Chunked.SkipTrailer | externals/httplib/httplib.h:3821-3839 | everything up to the empty line |
| Chunked.ReadContentChunked | externals/httplib/httplib.h:3787-3840 | succeeds exactly on chunked messages, gives their body and leaves what follows |
| Chunked.FromIToHex | externals/httplib/httplib.h:2225-2233 | the hexadecimal digits, most significant first |
| Chunked.WriteData | externals/httplib/httplib.h:3939-3947 | all of the data, however little each write takes |
| Chunked.ChunkedWriter.Write | externals/httplib/httplib.h:4035-4060 | one chunk per non-empty write |
| Chunked.ChunkedWriter.Finish | externals/httplib/httplib.h:4062-4106 | the last chunk and the empty trailer |
| Chunked.RunCall | externals/httplib/httplib.h:4035-4109 | one call of the provider sends all its writes; only what it does last decides whether the loop goes on |
| Chunked.WriteContentChunked | externals/httplib/httplib.h:4026-4127 | what any provider's calls send, up to the one that stops the loop; success unless one gives up |
| Chunked.NothingAfterDone | externals/httplib/httplib.h:4062-4067 | ending the message as the last thing a call does ends the loop |
| Chunked.GoesOnAfterData | externals/httplib/httplib.h:4035-4038 | a call that writes something last is followed by the next one |
| ChunkedSpec.SizeLineReads | externals/httplib/httplib.h:3801-3806 | strtoul reads back every size that from_i_to_hex writes |
| ChunkedSpec.RoundTrip | externals/httplib/httplib.h:3787-3840 | written chunks are read back in full, and reading stops right behind them |
| Chunked.OpsRead | externals/httplib/httplib.h:4035-4109 | what was sent reads as a message if and only if it was ended, with all that was written before |
| Chunked.ProviderReads | externals/httplib/httplib.h:4110-4127 | for every provider: a message if and only if the call that ends it is reached |
| Chunked.ScriptReads | externals/httplib/httplib.h:4026-4127 | for every grouping of the writes into calls: the round trip holds if and only if no call but the last ends in an empty write |
| Chunked.SendAndReceive | externals/httplib/httplib.h:3787-4127 | the same end to end, whatever pieces both sockets move |
| ChunkedForms.SizeReads | externals/httplib/httplib.h:3801-3806 | a size with white space, sign, 0x, digits in either case and an extension reads as its value, saturating or wrapped |
| ChunkedForms.NoSizeReads | externals/httplib/httplib.h:3801-3803 | without a digit there is no size |
| ChunkedForms.SizeWritten | externals/httplib/httplib.h:2225-2233 | sizes are written in lower case without leading zeros and mean themselves |
| ChunkedForms.FormReads | externals/httplib/httplib.h:3787-3840 | a message with chunk extensions and trailer lines within the limit gives its content and leaves what follows |
| ChunkedForms.OnlyForms | externals/httplib/httplib.h:3787-3840 | nothing else is accepted |
| ThreadPool.StepKeeps | externals/httplib/httplib.h:597-668 | every step keeps the queue's order, loses no job and no wake-up |
| ThreadPool.FirstInFirstOut | externals/httplib/httplib.h:609-655 | enqueued is always dequeued then queued; each job is finished at most once |
| ThreadPool.ShutdownCompletes | externals/httplib/httplib.h:618-655 | once all workers are joined, every job ever enqueued has completed if and only if none came after the last worker had gone |
| ThreadPool.EarlyJobsComplete | externals/httplib/httplib.h:618-655 | what was enqueued before shutdown has completed by then in any case |
| ThreadPool.NeverStuck | externals/httplib/httplib.h:609-655 | with work or a worker left to join, some thread can go on without a spurious wake-up |
| ThreadPool.ShutdownEnds | externals/httplib/httplib.h:618-631 | after shutdown every schedule without new work is finite, with a bound |
| ThreadPool.ShutdownFinishes | externals/httplib/httplib.h:618-655 | every such schedule that cannot go on has joined all workers |
| ThreadPool.LateJobIsStranded | externals/httplib/httplib.h:643-646 | with every worker gone no job is ever taken or completed again, in any continuation |
| ThreadPool.StrandedRun | externals/httplib/httplib.h:643-646 | such a run exists |
| ClientSocket.StepKeeps | externals/httplib/httplib.h:6772-6869 | every step of send and stop keeps the in-flight count that of the mutex owner |
| ClientSocket.AssertsNeverFail | externals/httplib/httplib.h:6717-6734 | the asserts of close_socket, send_ and its scope exit hold in every interleaving |
| ClientSocket.InFlightIsOwned | externals/httplib/httplib.h:6824-6850 | requests in flight belong to the recorded thread, which holds request_mutex_ |
| ClientSocket.NobodyElseIsUsingIt | externals/httplib/httplib.h:7865-7886 | the socket is closed only with no request of another thread in flight |
| ClientSocket.AllReturned | externals/httplib/httplib.h:6843-6858 | when all sends have returned, nothing is in flight and the mutex is free |
| ClientSocket.OpenExactly | externals/httplib/httplib.h:6717-6734 | the socket is lost by closing steps only, every closing step loses it, and a send has one exactly when it could reuse or connect it |
| ClientSocket.StopCloses | externals/httplib/httplib.h:7865-7886 | in every interleaving, stop closes the socket at once, or at the next request to finish unless a send begins first |
| ClientSocket.MarkedExactly | externals/httplib/httplib.h:7868-7880 | the socket is marked if and only if there was a stop with a request in flight and no send has begun since |
| ClientSocket.NeverDeadlocks | externals/httplib/httplib.h:6772-6869 | from every reachable state the sends in progress can be finished in at most three steps each, without new ones; then every thread can send |
| ProfileSpec.Unpack | externals/microprofile/microprofile.h:835-854 | type, timer and tick of a packed entry come back |
| ProfileSpec.DifferenceIsExact | externals/microprofile/microprofile.h:856-862 | tick differences are right across the 48-bit wrap-around |
| ProfileSpec.RunConcat | externals/microprofile/microprofile.h:1683-1756 | replaying a log in two goes is replaying it at once |
| ProfileSpec.FramesAddUp | externals/microprofile/microprofile.h:1751-1755 | the group ticks of all frames add up to those of the whole log |
| ProfileSpec.StepConserves | externals/microprofile/microprofile.h:1687-1750 | one entry charges as exclusive time what the child tick stack gains |
| ProfileSpec.ExclusiveConserved | externals/microprofile/microprofile.h:1687-1750 | so does any log, well nested or not |
| ProfileSpec.ExclusiveIsOutermost | externals/microprofile/microprofile.h:1718-1735 | from empty stack to empty stack, exclusive times add up to the outermost scopes |
| ProfileScopes.TrueDuration | externals/microprofile/microprofile.h:1725-1726 | a LEAVE is charged the true duration of its scope |
| ProfileScopes.StepMatches | externals/microprofile/microprofile.h:1696-1748 | the replay's stacks and group depths follow the open scopes |
| ProfileScopes.BusyIsUnion | externals/microprofile/microprofile.h:1736-1746 | the reference set is the union of the group's scopes |
| ProfileScopes.LeaveSettles | externals/microprofile/microprofile.h:1737-1746 | closing the outermost scope of a group adds all of it to the union, an inner one nothing |
| ProfileScopes.GroupTimeIsUnion | externals/microprofile/microprofile.h:1648-1757 | a group's ticks are the size of the union of its scopes outside scopes still open |
| ProfileScopes.ClosedGroupTime | externals/microprofile/microprofile.h:1648-1757 | with none of its scopes open, exactly the size of the union |
| ProfileScopes.ExclusiveNeverShrinks | externals/microprofile/microprofile.h:1727-1733 | with ticks that do not run back, no exclusive increment is negative |
| ProfileScopes.NestedIsShallow | externals/microprofile/microprofile.h:1700-1704 | such logs stay within the stacks |
| ProfileTimers.TimerTimes | externals/microprofile/microprofile.h:1724-1734 | a timer's inclusive time, count and exclusive time are sums over its closed scopes, less direct children for the exclusive one |
| ProfileTimers.WaitingIsChildren | externals/microprofile/microprofile.h:1727-1729 | what the child tick stack holds when a scope closes is the time of its direct children |
| Profile.GetRange | externals/microprofile/microprofile.h:1481-1498 | the ring range as at most two intervals, in order |
| Profile.ThreadLog.LogPut | externals/microprofile/microprofile.h:1387-1402 | appends to the ring unless it is full; open scopes whose entries are not overwritten keep them |
| Profile.ThreadLog.ReplayLeave | externals/microprofile/microprofile.h:1718-1748 | one LEAVE entry equals a step of the replay |
| Profile.ThreadLog.ReplayEntry | externals/microprofile/microprofile.h:1693-1748 | one entry equals a step of the replay |
| Profile.ThreadLog.ReplayInterval | externals/microprofile/microprofile.h:1689-1749 | an interval of the ring equals a run of the replay |
| Profile.GuardsExactly | externals/microprofile/microprofile.h:1700-1700 | the asserts admit a log if and only if it never has more than 32 scopes open |
| Profile.InsideExactly | externals/microprofile/microprofile.h:1703-1704 | the child tick stack is never overrun if and only if there are never more than 31 |
| Profile.DeepLogWritesOutside | externals/microprofile/microprofile.h:1696-1704 | 32 nested ENTERs pass every assert and write at index 32 |
| Profile.ThreadLog.ReplayFrame | externals/microprofile/microprofile.h:1650-1756 | one flip equals a run over the ring range, and its group ticks are added to the log and the frame |
| ProfileSpec.SameRun | externals/microprofile/microprofile.h:1683-1756 | what a replay adds to the group times depends on the open scopes alone |
| ProfileRing.FullExactly | externals/microprofile/microprofile.h:1391-1396 | the test for a full ring is exact |
| ProfileRing.RangeIs | externals/microprofile/microprofile.h:1481-1498 | the ring range between two recorded positions holds the events between them |
| ProfileRing.SlotsBetweenIs | externals/microprofile/microprofile.h:1693-1722 | replaying it leaves the ring indices of the open ENTERs, also around the end of the ring |
| ProfileRing.PutKept | externals/microprofile/microprofile.h:1387-1402 | a put that overwrites nothing needed keeps everything still to be replayed and every open ENTER |
| ProfileRing.FlipKept | externals/microprofile/microprofile.h:1658-1756 | a flip moves the replay on by one frame, with the stacks, slots and times of a replay of the whole history |
| ProfileRing.Recorder.LogEvent | externals/microprofile/microprofile.h:1387-1402 | one put as a step of the history |
| ProfileRing.Recorder.FlipFrame | externals/microprofile/microprofile.h:1558-1756 | one flip as a step of the history: notes the put position and replays the frame of three flips ago |
| ProfileRing.Record | externals/microprofile/microprofile.h:1387-1757 | for every interleaving of puts and flips: a group's ticks are the size of the union of its scopes in all frames replayed |
| ThreadLogs.LogPool.OnThreadCreate | externals/microprofile/microprofile.h:1170-1207 | a new thread gets the log freed last, which is empty, or a new one; nobody else has it; the whole pool makes one step of the history |
| ThreadLogs.LogPool.OnThreadExit | externals/microprofile/microprofile.h:1209-1237 | the thread's log goes to the head of the free list, emptied, as one step of the history; after a second exit the pool is not right any more |
| ThreadLogs.LogPool.Put | externals/microprofile/microprofile.h:1387-1402 | writing to an active log is a step of the history |
| ThreadLogs.LogPool.Flip | externals/microprofile/microprofile.h:1601-1616 | a flip reads every log up to its end, the free ones too, as one step of the history |
| ThreadLogs.LogPool.FindLog | externals/microprofile/microprofile.h:1215-1224 | the pool index of a log |
| ThreadLogs.ListEnds | externals/microprofile/microprofile.h:1225-1229 | following the links visits different logs, exactly the listed ones in order, and then ends at -1 |
| ThreadLogs.PopKeeps | externals/microprofile/microprofile.h:1173-1180 | taking the head keeps list and ownership right |
| ThreadLogs.PushKeeps | externals/microprofile/microprofile.h:1225-1229 | so does putting a log back |
| ThreadLogs.ExitEndsExactly | externals/microprofile/microprofile.h:1209-1229 | putting a log back leaves a list that ends if and only if the log was not on it |
| ThreadLogs.ExitSoundExactly | externals/microprofile/microprofile.h:1209-1237 | after an exit some reading of the free list and the owners is right if and only if the log was still the thread's own |
| ThreadLogs.HistoryKeeps | externals/microprofile/microprofile.h:1170-1237 | after every history of threads starting, ending, writing and of flips the free list is exactly the inactive logs, no log is shared, and there are as many logs as were ever active at once |
| ThreadLogs.FlipReadsAll | externals/microprofile/microprofile.h:1601-1616 | after a flip nothing is left to read, and nothing else has changed |
| Interpolate.MakeSamples | src/audio_core/interpolate.cpp:32-44 | the loop makes the samples of the walk and stops where it stops |
| Interpolate.StepOverSamples | src/audio_core/interpolate.cpp:19-51 | one call, with the state and input it leaves behind |
| Interpolate.None | src/audio_core/interpolate.cpp:53-58 | the zero-order hold |
| Interpolate.LinearResample | src/audio_core/interpolate.cpp:60-74 | the first-order hold |
| Interpolate.WalkTaps | src/audio_core/interpolate.cpp:32-44 | the j-th sample is the one at position p + j * step, as many as fit |
| Interpolate.CallMoves | src/audio_core/interpolate.cpp:46-50 | a call drops samples from the front and rebases its position by exactly those |
| Interpolate.RunIsTaps | src/audio_core/interpolate.cpp:19-51 | over any series of calls the outputs are the samples of the whole stream and the leftover is its suffix |
| Interpolate.SplitDoesNotMatter | src/audio_core/interpolate.cpp:19-51 | two ways of splitting the same input agree, and are equal once both have used it up |
| Interpolate.LinearIsBetween | src/audio_core/interpolate.cpp:66-71 | the wrapping unsigned arithmetic equals x0 + floor(fraction * delta / 2^24), which lies between the samples |
| Interpolate.LinearRun | src/audio_core/interpolate.cpp:60-74 | so does every sample of every run, however long |
| Interpolate.LinearIsMean | src/audio_core/interpolate.cpp:66-71 | unless the samples differ by more than s16 holds, it is the weighted mean, rounded down |
| Interpolate.HoldRun | src/audio_core/interpolate.cpp:53-58 | output j of any run of the zero-order hold is the sample at the whole part of its position |
| Interpolate.CallMakesAll | src/audio_core/interpolate.cpp:32-44 | a call stops for lack of room or exactly where the samples run out |
| Adpcm.FilterIsNearest | src/audio_core/codec.cpp:46-59 | a sample is the s16 value nearest to the exact filter output, the greater of two equally near |
| Adpcm.DecodePair | src/audio_core/codec.cpp:63-73 | the two samples of a byte fill the next two slots |
| Adpcm.DecodeFrame | src/audio_core/codec.cpp:36-74 | a frame, or what is left of it up to an even number of samples |
| Adpcm.DecodeADPCM | src/audio_core/codec.cpp:16-80 | every slot of the even-rounded output is the filter's sample, and the state is carried; the length is as promised exactly for even counts |
| Adpcm.DecodeInTwo | src/audio_core/codec.cpp:16-80 | decoding m + n samples is decoding m, whole frames, and then n from there |
| AdpcmFrames.DecodesWhatWasPacked | src/audio_core/codec.cpp:36-73 | for every list of frames, the packed bytes decode to the filter run over the written values, scaled, with their coefficients, in order |
| AdpcmFrames.PackUnpack | src/audio_core/codec.cpp:36-73 | every eight bytes are such a frame |
| Adpcm.FitsExactly | src/audio_core/codec.cpp:46-54 | the filter's intermediates always fit 32 bits if and only if the pair's lower extreme does |
| Adpcm.SmallCoefficientsFit | src/audio_core/codec.cpp:42-54 | coefficients with absolute values adding up to at most 49151 are such |
| Adpcm.DecodingFits | src/audio_core/codec.cpp:46-54 | with such pairs no sample of any data overflows |

## Left out

- Getopt.GetoptData.Next: the `W;` extension of optstring, which its precondition excludes; `long_only` and the wide-character twin.
- Getopt.ParseAll: the same.
- GetoptForms.LineReads: the same; a `W` followed by a semicolon is a plain flag to the scan.
- ClientSocket.StopCloses: what a request in flight notices of the shutdown of its socket.
- Getopt.GetoptData.NextShort: the same.
- Getopt.GetoptData.TakeShort: the same; and characters are not negative, so a byte 0xFF in optstring does not return -1.
- Error messages, `opterr` and `getenv`; POSIXLY_CORRECT is a parameter.
- Multipart.MultipartFormDataParser.Parse: after a callback has refused, only that the parser is not valid.
- Multipart.ParseHeader: the two regular expressions are written out as functions; of equal parameter names the first counts.
- MultipartChunks.ChunksDoNotMatter: inputs with header lines of 8192 bytes or more, text after the closing line break, or an opening line in pieces.
- Chunked.ReadContentChunked: what trailer lines say; `unsigned long` has 64 bits.
- Chunked.SkipTrailer: what trailer lines add to the headers.
- Chunked.WriteContentChunked: compressors other than the identity, and trailers.
- Interpolate.RunIsTaps: single calls that find more than 2^40 samples waiting, for which a position would leave 64 bits.
- Interpolate.StepOverSamples: the float rate, of which only the resulting step size is used.
- Adpcm.DecodeADPCM: overflow of 32-bit integers, which `Adpcm.FitsExactly` rules out or shows.
- Profile.ThreadLog.ReplayEntry: meta counters, 64-bit overflow of the totals, and what becomes of memory when a write is outside, which its precondition excludes.
- Profile.ThreadLog.ReplayFrame: GPU timestamps and pausing.
- ProfileRing.Record: what is replayed once an unreplayed entry or an open ENTER has been overwritten, and ticks of other logs.
- ThreadLogs.LogPool.OnThreadCreate: more threads at once than the pool holds, which the code does not check.
- ThreadLogs.LogPool.OnThreadExit: the start positions kept per frame, which it resets.
- ClientSocket.StepKeeps: TLS, proxies and authentication, and whether a stop during a redirect is remembered.
- ThreadPool.StepKeeps: what the jobs do.
- `DecodePCM8`, `DecodePCM16`, `encode_url`, sockets, compression, the web server, context switches and drawing.
