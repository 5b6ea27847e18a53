# Verified model of Meowbot's protocol and text algorithms

Meowbot is an IRC bot written in C and C++. This project models the self-contained algorithms inside it in
Dafny and proves what they are for. `dafny verify dfyconfig.toml` checks everything.

What is modelled, by module:

- `LineStream`, `TcpSock`: `readline` reads lines from a socket through a push-back buffer and keeps an
  unfinished line across calls that time out. The reference is one pass over the bytes.
- `Quote`, `IrcLine`, `IrcMessage`: the writer that frames one protocol line, and the parser that takes a line
  apart (section 2.3.1 of RFC 2812).
- `StableSort`, `SendQueue`, `SendQueueRuns`: the outgoing queue, its sender thread and the message timer
  (section 8.10 of RFC 1459), as a class, as atomic steps, and over all runs.
- `Md5Rfc`, `Md5Value`, `Md5`, `Md5Body`, `Md5Sum`: the streaming digest against the definition of RFC 1321. What is proved
  of buffering holds for every kind of register and every compression function; `Md5Body` shows that those of
  the source, 64-bit registers whose upper halves are never cleared, give the digest of the RFC, and `Md5Sum`
  joins the two.
- `Wildcard`, `WildcardCase`: the glob matcher that only ever returns to the last star, and what it takes for
  the same character.
- `Utf8`, `Utf8Cut`, `Utf8Code`: counting, slicing, cutting, encoding and decoding UTF-8.
- `Sink`, `Number`, `FormatSpec`, `Formatter`, `FormatLaws`, `FormatScan`, `Atoi`, `PrintAndRead`: the bounded
  formatter, what it prints, and the reader of integers.
- `Base64`, `Base64Decoder`, `UrlCode`: two codecs of arbitrary bytes and of strings.
- `Wrappers`, `Buffers`: an optional value, and stores of several elements.
- `Hangul`, `Trifler`, `TriflerText`: the two scripts that shift consonants between Hangul syllables.
- `Remember`: looking a word up through links.

Where the source updates variables or buffers in place, so does the model: classes for the socket, the sender,
the digest context and the bounded output, arrays for buffers, loops where the source has loops. Reads of the
network, the clock, the database and the scheduler are parameters: a sequence of arrivals, the time each step
reads, a map, a sequence of actions.

Where the code differs from what its comments or the standard say, the model follows the code:

- `quote` reports an overflow already for a line of exactly 510 bytes, of which nothing is cut off
  (irc.cpp:539 speaks of exceeding the limit): `Quote.Quote`.
- The parser's token buffer holds 509 bytes, not the 511 of the comment at irc.cpp:660, and the byte that
  overflows it is dropped, so parts of more than 509 bytes do not come back: `IrcMessage.ParseInvertsRendering`.
- The four-byte branches of the UTF-8 coder shift by 15 instead of the 18 of section 3 of RFC 3629. Round trips
  hold exactly below U+40000 (`Utf8Code.RoundTrip`), and the bytes are the standard ones exactly from U+90000 to
  U+97FFF (`Utf8Code.EncodedIsStandard`).
- Cutting a string relies on continuation bytes of the form 10xxxxxx, while the scanner only looks at the top
  bit. `Utf8Cut.CutIsExact` says for which valid strings and limits the cut is right, and
  `Utf8Cut.LaxContinuationIsCutApart` gives one that is cut inside a character.
- `base64_decode` stores one byte for a last group such as `A===` without counting it in its room test.
  `Base64Decoder.OverrunsExactly` says for which texts and lengths that byte lies beyond the length given.
- The reader of integers takes the `x` of a `0x` prefix for a digit of value 33, so it misreads every text with
  that prefix but a zero behind spaces: `Atoi.HexPrefixIsMisread`.
- `MD5_Final` clears as many bytes of the context as a pointer has, not the whole context.
- The Choseong script does not undo the Jongseong script where final 13 meets initial 11 before one of seven
  vowels, because the exception list names final 25 but not final 13: `Trifler.ChoseongAbsorbsJongseong`.

## Model

| member | source | states |
|---|---|---|
| LineStream.NextTakesOneLine | tcpsock.cpp:1277-1336 | One call removes from the fold of the stream exactly the line it returns, and keeps the rest with the unfinished line, also over failed reads that leave the socket open |
| LineStream.RunConservesLines | tcpsock.cpp:1277-1336 | After any number of calls on any stream, the lines returned followed by the fold of what is left are the fold of the whole: none lost, repeated or reordered |
| LineStream.NextIsBounded | tcpsock.cpp:1306-1307 | A size limit of n bounds the line returned and the line kept by n + 1 |
| LineStream.NextProgresses | tcpsock.cpp:1277-1300 | Each call consumes something until the socket is closed |
| LineStream.RunReachesEnd | tcpsock.cpp:1280-1292 | Enough calls consume the whole stream, with nothing left in the unfinished line |
| LineStream.RunReturnsTheFold | tcpsock.cpp:1259-1342 | Reading until the socket closes returns the fold of all bytes, including a last line without a line feed; a failed read ends the unfinished line |
| LineStream.OneSection | tcpsock.cpp:1277-1300 | Where no read fails, the stream is one text, whatever times out |
| LineStream.SplitAllFault | tcpsock.cpp:1280-1292 | A failed read hands out the unfinished line, and nothing if there is none |
| LineStream.ReceivedIsRun | irc.cpp:708-748 | A caller that passes over empty lines and stops at a socket error misses nothing but empty lines, if no read fails without closing |
| LineStream.ReceivedIsABeginning | irc.cpp:719-724 | With such failed reads it gets a beginning of the lines |
| LineStream.ReceivingEnds | irc.cpp:719-724 | On a socket that closes it stops |
| LineStream.SplitLinesAreClean | tcpsock.cpp:1304-1320 | No line holds CR, LF or NUL or exceeds the limit |
| LineStream.AllLinesAreClean | tcpsock.cpp:1304-1320 | The same over failed reads |
| LineStream.SplitInvertsTerminated | tcpsock.cpp:1302-1321 | Where the limit cuts nothing, joining the lines with line feeds gives back the text without CR and NUL |
| TcpSock.Socket.Close | tcpsock.cpp:576-607 | Closing drops the push-back buffer and leaves the unfinished line |
| TcpSock.Socket.AppendToReadBuffer | tcpsock.cpp:1156-1162 | Pushed-back bytes go behind those already there |
| TcpSock.Socket.TimedRead | tcpsock.cpp:760-872 | A read takes pushed-back bytes first, then what has arrived, and removes from what is pending exactly what it returns or reports |
| TcpSock.Socket.ScanChunk | tcpsock.cpp:1302-1321 | Scanning one read agrees with the one-pass reader, and pushes back exactly the unused bytes |
| TcpSock.Socket.ReadLine | tcpsock.cpp:1259-1342 | Result, line, unfinished line and pending bytes agree with the one-pass reader, for every limit and every way the bytes arrive; between calls fewer than 512 bytes are pushed back |
| TcpSock.TakeArrived | tcpsock.cpp:841-843 | Reading part of an arrival leaves its other bytes in order |
| TcpSock.CarriedIsSections | tcpsock.cpp:1279-1300 | The text of a stream is the concatenation of its arrivals up to the close, without the timeouts, cut at the reads that fail |
| TcpSock.CuttingIsInvisible | tcpsock.cpp:1259-1342 | The lines depend only on the bytes carried between failed reads, not on how they were cut into arrivals or what timed out |
| TcpSock.CallerHearsEveryLine | irc.cpp:708-748 | The loop around readline gets every line but the empty ones, and ends |
| TcpSock.OneTurn | irc.cpp:710-748 | One turn of it takes over a line, passes over an empty line or a timeout, or ends |
| TcpSock.ReadLines | irc.cpp:708-748 | The loop around readline, for any number of turns: lines kept, empty lines and timeouts passed over, ended by a socket error |
| Quote.PayloadRead | irc.cpp:517-529 | Where the copying loop stops, it holds the sanitised and truncated text |
| Quote.SanitisedKeeps | irc.cpp:519-528 | Every byte but line feed and carriage return is copied |
| Quote.SanitisedDrops | irc.cpp:522-523 | Those two are dropped wherever they stand |
| Quote.ProtocolLine | irc.cpp:517-532 | A protocol line has at most 512 bytes and ends with its only line break (section 2.3 of RFC 2812) |
| Quote.Quote | irc.cpp:494-545 | Queues the text without CR and LF, cut to 510 bytes, and one CRLF; the result is -1 exactly when 510 bytes or more were to be sent |
| Quote.SplitSent | irc.cpp:516-532 | The fold of a concatenation of quoted lines is those lines in order |
| Quote.SentIsReadBack | irc.cpp:494-545 | Quoted lines are read back exactly if and only if the reader's limit admits the longest |
| Quote.ConnectionDeliversLines | irc.cpp:708-720 | The same over a connection, however the bytes arrive |
| StableSort.SortIsStable | irc.cpp:1523-1524 | The queue comes out by falling priority, entries of one priority in their old order |
| StableSort.StableOrderIsUnique | irc.cpp:1464-1469 | There is only one such order |
| StableSort.SameByPriorityIsPermutation | irc.cpp:1523-1524 | The same entries per priority means a permutation |
| StableSort.SortedHead | irc.cpp:1527 | The head of a sorted queue has the highest priority and is the first of it |
| SendQueue.Sender.constructor | irc.cpp:1554-1574 | The sender starts waiting, with an empty queue |
| SendQueue.Sender.Send | irc.cpp:1528 | The line goes to the wire at the time read |
| SendQueue.Sender.FromFirstSpace | irc.cpp:1537-1539 | The length of the line from its first space on |
| SendQueue.LineCosts | irc.cpp:1532-1541 | A line costs two seconds, and one for each 120 bytes from its first space on |
| SendQueue.Sender.AddToSendQueue | irc.cpp:1436-1460 | Refuses an empty line; otherwise queues it, marks the queue unsorted and signals, or sends at once without flood protection |
| SendQueue.Sender.Transmit | irc.cpp:1521-1542 | Sorts if something was added, sends the head and charges two seconds and the penalty for a long line |
| SendQueue.Sender.Pass | irc.cpp:1487-1545 | Waits, sleeps with the lock released, or sends, by the timer and the clock |
| SendQueueRuns.AddAccepts | irc.cpp:1436-1460 | Every line but the empty one is accepted: queued behind the others, or sent at once without flood protection |
| SendQueueRuns.StepKeepsInv | irc.cpp:1436-1545 | Every step keeps: not marked unsorted means sorted, the sleeper has something to send, nobody waits beside a queue without a signal, and sent plus queued lines are a permutation of the lines added |
| SendQueueRuns.RunsConserveLines | irc.cpp:1436-1545 | The same over every run, with flood protection switched on and off at will |
| SendQueueRuns.StepKeepsFifo | irc.cpp:1521-1542 | Every step keeps, per priority, that sent followed by queued lines are the added ones in order |
| SendQueueRuns.RunsAreFifo | irc.cpp:1436-1545 | The same over every run with flood protection on |
| SendQueueRuns.StepSendsMostUrgent | irc.cpp:1521-1542 | A step that sends sends one line, of the highest priority queued and the first of it not yet sent |
| SendQueueRuns.EverySendIsMostUrgent | irc.cpp:1436-1545 | The same at every point of every run, although lines are added while the sender sleeps unlocked |
| SendQueueRuns.NeverStuck | irc.cpp:1483-1488 | A sender with lines to send can take a step, and if it waits it has been signalled |
| SendQueueRuns.StepDrains | irc.cpp:1487-1545 | Each step of the sender lowers the number of steps it still needs |
| SendQueueRuns.QueueDrains | irc.cpp:1487-1545 | Once adds stop, the queue is empty after two steps for each line and one to wake up |
| SendQueueRuns.EverythingIsSent | irc.cpp:1436-1545 | Then every line ever accepted has been sent, each once |
| SendQueueRuns.SendKeepsPace | irc.cpp:1503-1541 | A send with the timer at most ten seconds ahead keeps all earlier sends paced and charged |
| SendQueueRuns.ClampedTimerCovers | irc.cpp:1498-1499 | Raising the timer to the present makes it cover the last send too |
| SendQueueRuns.StepKeepsPace | irc.cpp:1487-1541 | Every step with a monotone clock and full sleeps keeps the pacing invariant |
| SendQueueRuns.RunsKeepPace | irc.cpp:1487-1541 | So does every run |
| SendQueueRuns.FloodControl | irc.cpp:1487-1541 | In every run, the cost of the lines sent strictly between two sends is at most the time between those plus ten seconds, so at most (T + 10) / 2 lines lie between, even when sleeps overrun |
| SendQueueRuns.SendKeepsPrompt | irc.cpp:1532-1541 | A send drives the timer no further than what was charged since some send |
| SendQueueRuns.StepKeepsPrompt | irc.cpp:1487-1541 | Every step keeps the timer there, over clamping, sleeping and resuming |
| SendQueueRuns.RunsKeepPrompt | irc.cpp:1487-1541 | So does every run |
| SendQueueRuns.HeldBackByTimerOnly | irc.cpp:1498-1520 | In every run, a line that could go out and does not is held back by the message timer alone: the lines since some send have used up the time since and ten seconds more, and the sleep ends ten seconds before the timer they set |
| SendQueueRuns.NothingHeldBack | irc.cpp:1491-1509 | Without flood protection, or when the clock has gone back, a line goes out at once |
| Md5Rfc.CompressAllAppend | md5_impl.c:82-166 | Compressing blocks in two goes is compressing them in one |
| Md5.CountedCounts | md5_impl.c:192-195 | The carry test counts bytes: lo and hi are the length modulo 2^29 and the rest |
| Md5.MoreData | md5_impl.c:197-218 | State and leftover after more data depend only on the old leftover followed by the data |
| Md5.FirstBlock | md5_impl.c:207-216 | Filling the buffer and compressing it first changes nothing |
| Md5.FinalBlocks | md5_impl.c:225-250 | The one or two blocks compressed at the end are the rest of the padded message of sections 3.1 and 3.2 of RFC 1321 |
| Md5.LengthBytes | md5_impl.c:240-248 | The eight bytes stored are the length in bits modulo 2^64, low-order byte first |
| Md5.Context.constructor | md5_impl.c:176-185 | The state of the empty message |
| Md5.Context.Body | md5_impl.c:69-174 | The fold of the compression step over the blocks |
| Buffers.Store | md5_impl.c:203-218 | Copies into a buffer and leaves the rest of it |
| Md5.Context.FillUp | md5_impl.c:207-210 | The buffer filled up is compressed as one block |
| Md5.Context.AbsorbWhole | md5_impl.c:213-218 | Whole blocks are compressed straight from the data, and the rest is kept |
| Md5.Context.Absorb | md5_impl.c:197-218 | Compresses the whole blocks of leftover and data, and keeps the new leftover |
| Md5.Context.Update | md5_impl.c:187-219 | The context is that of the concatenated message, however it was split |
| Md5.Context.StoreLength | md5_impl.c:240-248 | The length field goes behind the first 56 bytes |
| Md5.Context.PadTail | md5_impl.c:225-238 | The one bit and the zeros, in one block or two |
| Md5.Context.CompressTail | md5_impl.c:225-250 | The digest is the fold over the padded message |
| Md5.Context.Final | md5_impl.c:221-270 | The result is the digest of everything passed in since the start |
| Md5.DigestOf | md5_impl.c:176-270 | The digest of any pieces is that of their concatenation |
| Md5Body.LowOfSum | md5_impl.c:36-39 | The lower half of a 64-bit sum is the sum of the lower halves |
| Md5Body.LowOfF | md5_impl.c:28 | The shorter macro F is F of the RFC on the lower halves |
| Md5Body.LowOfG | md5_impl.c:29 | The shorter macro G is G of the RFC on the lower halves |
| Md5Body.LowOfRotate | md5_impl.c:38 | Masking only the right shift rotates the lower half |
| Md5Body.LowOfWord | md5_impl.c:55-60 | Four bytes make the same word in both widths |
| Md5Body.LinesAgree | md5_impl.c:88-158 | The words, constants and rotations of the sixty-four STEP lines are those of section 3.4 of RFC 1321 |
| Md5Body.StepNarrows | md5_impl.c:36-39 | One STEP on wide registers is one operation of section 3.4 of RFC 1321 on their lower halves |
| Md5Body.AddedNarrows | md5_impl.c:83-86 | Adding the saved registers completes one compression step on the lower halves |
| Md5Body.RoundsNarrow | md5_impl.c:88-159 | The sixty-four steps on the wide registers are those of the RFC on their lower halves |
| Md5Body.CompressNarrows | md5_impl.c:82-166 | So is one turn of the outer loop |
| Md5Body.BytesOfLow | md5_impl.c:252-267 | The stores of the result take nothing from the upper halves |
| Md5Body.FoldNarrows | md5_impl.c:82-166 | Whatever the upper halves hold, the lower ones go through the RFC's compression of all blocks |
| Md5Body.WideHashIsMd5 | md5_impl.c:176-270 | The digest computed on the wide registers is the MD5 of RFC 1321 |
| Md5Body.Rounds | md5_impl.c:88-159 | The sixty-four lines compute those steps |
| Md5Body.Body | md5_impl.c:69-174 | The registers after all blocks, whose lower halves are those of the RFC |
| Md5Sum.Sum | md5.cpp:11-18 | The buffered context on 64-bit registers gives the MD5 of RFC 1321 with one call of each |
| Md5Sum.SumOf | md5_impl.c:176-270 | And with any number of updates |
| Md5Value.DigestOfAbc | md5_impl.c:69-270 | The definition gives the value of section A.5 of RFC 1321 for abc |
| Wildcard.CaseConverter.Apply | wildcard.cpp:80-110 | Each converter maps NUL and only NUL to NUL |
| Wildcard.SameLetter | ircstring.cpp:42-60 | Two characters are the same for a converter if they are equal, or capital and small letter: none, A to Z, or the codes 65 to 94 and those 32 above |
| Wildcard.StarAndAny | wildcard.cpp:47-75 | A star matches every string and a question mark every single character |
| Wildcard.LiteralMask | wildcard.cpp:37-46 | A mask without them matches the strings of its length with the same characters |
| WildcardCase.TablesAgree | ircstring.cpp:42-80 | The tables for capitals and small letters belong together |
| WildcardCase.CaseIsIgnored | wildcard.cpp:104-114 | For IRC names, strings and masks that differ in case only match alike |
| WildcardCase.CapitalsMatchAlike | wildcard.cpp:104-114 | So writing either in capitals changes no answer |
| Wildcard.StarMatchesLater | wildcard.cpp:49-57 | A star matches exactly when the mask behind it matches here or later |
| Wildcard.MatchFits | wildcard.cpp:58-63 | A match begins by fitting any star-free beginning of the mask |
| Wildcard.EarliestFitIsEnough | wildcard.cpp:49-57 | At a new star, the earliest fit of the mask before it loses no match |
| Wildcard.FailedAttemptMovesOn | wildcard.cpp:64-68 | A failed attempt moves the restart point on by one and loses no match |
| Wildcard.ExhaustedStringDecides | wildcard.cpp:70-75 | When the string runs out, there is a match exactly if only stars are left |
| Wildcard.StarsMatchEmpty | wildcard.cpp:70-75 | A mask matches the empty rest exactly if it is all stars |
| Wildcard.WcMatch | wildcard.cpp:32-76 | True exactly when the recursive meaning of the mask admits the string, for all three converters; the loops terminate |
| IrcLine.ParseIrcLine | irc.cpp:592-674 | Prefix, command, parameters and result are those of the scan, for every line, also an overlong or empty one |
| IrcLine.UpperCase | ircstring.cpp:62-80 | The command's codes 97 to 126 go down by 32, and no others change |
| IrcMessage.ScanToken | irc.cpp:658-669 | A run of token characters that fits is taken whole |
| IrcMessage.ScanSpaces | irc.cpp:648-652 | Any number of spaces ends the token once |
| IrcMessage.ScanMiddles | irc.cpp:618-638 | Middle parameters pass one by one, whatever spaces stand between |
| IrcMessage.MiddlesBecomeParams | irc.cpp:622-625 | They become the parameters, in order |
| IrcMessage.ScanEnding | irc.cpp:643-657 | The end commits the last token and keeps free text whole |
| IrcMessage.ScanBody | irc.cpp:640-670 | From the command on, the parts are found |
| IrcMessage.ScanPrefix | irc.cpp:631-635 | The prefix is taken whole |
| IrcMessage.ShortIsUnderstood | irc.cpp:592-674 | A message whose parts fit the token buffer is taken apart into those parts |
| IrcMessage.ScanKeeps | irc.cpp:618-638 | What is committed stays |
| IrcMessage.TooLongIsCut | irc.cpp:660-663 | A part of more than 509 bytes is committed as its first 509 |
| IrcMessage.LongMiddle | irc.cpp:660-663 | The first middle parameter that is too long comes out cut |
| IrcMessage.LongBody | irc.cpp:640-670 | A command or parameter that is too long does not come back |
| IrcMessage.ParseInvertsRendering | irc.cpp:592-674 | For every message of section 2.3.1 of RFC 2812 and any spaces between its parts: the same parts come back, with the command in upper case and result 0, exactly if each part has at most 509 bytes |
| IrcMessage.LongCommandIsCut | irc.cpp:660-663 | A command of 510 letters loses its last |
| IrcMessage.PingIsParsed | irc.cpp:592-674 | A line with prefix, command, parameter and free text comes apart as it should |
| Utf8.GetSizeChar | utf8_impl.c:246-258 | The size of a complete character, negative for a broken one |
| Utf8.CharsAreABeginning | utf8_impl.c:260-274 | The characters of a string, joined, are a beginning of it |
| Utf8.ScanOne | utf8_impl.c:266-270 | A forward scan stays on the character list |
| Utf8.ScanEnd | utf8_impl.c:264-273 | It ends at the last whole character, and at the end of the string exactly if that is valid |
| Utf8.Strlen | utf8_impl.c:260-274 | The number of characters, or -1 for a broken string |
| Utf8.StrposGetpos | utf8_impl.c:276-313 | Place and size of the character named, counted from either end; -1 exactly when there is none |
| Utf8.CountedFromTheEnd | utf8_impl.c:302-312 | A negative position counts characters from the end of a valid string |
| Utf8.SubstrGetpos | utf8_impl.c:339-399 | The span from character start to character min(start + nchar, count), or to the end of the bytes; -1 exactly when there is no such start |
| Utf8.SpanHoldsCharacters | utf8_impl.c:339-399 | The bytes of such a span are the characters of the slice, joined |
| Utf8Cut.GreedyIsLongest | utf8_impl.c:439-442 | The greedy length is a boundary within the limit, and no later boundary fits |
| Utf8Cut.ValidIsWhole | utf8_impl.c:424-437 | A string is valid exactly if the scan by positions meets no broken character |
| Utf8Cut.GreedyByPosition | utf8_impl.c:439-442 | The greedy length of the character list is that of the scan by positions |
| Utf8Cut.GreedyFromBegin | utf8_impl.c:439-442 | It ends at the limit or where the character at the limit begins |
| Utf8Cut.ScanBackStops | utf8_impl.c:449-470 | The backward scan stops at the last byte inside that character that looks like a beginning, or at its own |
| Utf8Cut.CutBySize | utf8_impl.c:442-472 | The length cut is that of the backward scan, in any bytes |
| Utf8Cut.CutIsExact | utf8_impl.c:442-472 | On every valid string and for every limit, the backward scan gives the longest run of whole characters that fits exactly if nothing inside the character at the limit looks like a beginning, or it ends just there with that character |
| Utf8Cut.CutIsGreedy | utf8_impl.c:442-472 | With continuation bytes 10xxxxxx it always does |
| Utf8Cut.LaxContinuationIsCutApart | utf8_impl.c:251 | With lax continuation bytes it can cut a character apart |
| Utf8Cut.LaxContinuationCanBeHarmless | utf8_impl.c:251 | With others it need not |
| Utf8Code.Encode | utf8_impl.c:88-132 | Writes the bytes of the code and nothing else, or nothing if they do not fit |
| Utf8Code.RoundTrip | utf8_impl.c:88-196 | Decoding gives back what was encoded exactly for 1 to U+3FFFF without the surrogates |
| Utf8Code.EncodedIsStandard | utf8_impl.c:93-119 | The bytes are those of section 3 of RFC 3629 below U+10000, and above exactly from U+90000 to U+97FFF |
| Utf8Code.LeadIsAnnounced | utf8_impl.c:230-243 | The first byte announces the length of the encoding exactly if the shift leaves it its form |
| Utf8Code.EncodedIsCharacter | utf8_impl.c:246-258 | Then, and only then, an encoding is one character of its length for the scanner |
| Utf8Code.ValueOfFour | utf8_impl.c:182-187 | Four bytes carry the low eighteen bits of the number |
| Sink.Output.constructor | my_vsprintf_core_impl.h:35-41 | Nothing is put yet and the buffer is as it was |
| Sink.Output.Put | my_vsprintf_core_impl.h:29 | The character counts, and is written only inside the buffer |
| Sink.Output.PutMany | my_vsprintf.cpp:102-106 | The same for a run of one character |
| Sink.Output.Close | my_vsprintf_core_impl.h:464-468 | The buffer holds what fits, a NUL, and beyond that what it held before |
| Number.TextLength | my_vsprintf.cpp:74-100 | The text has max(field width, sign + prefix + max(digits, precision)) characters |
| Number.DigitsAreReversed | my_vsprintf.cpp:96-97 | The digits found last first are the number's digits |
| Number.DigitCount | my_vsprintf.cpp:61 | Sixty-four places are enough for any base |
| Number.ConvertLoop | my_vsprintf.cpp:96-97 | Collects the digits without overrunning its 66 places |
| Number.Convert | my_vsprintf.cpp:93-97 | The digits, and one zero for zero |
| Number.SplitSign | my_vsprintf.cpp:73-92 | Sign, magnitude and remaining width, also for the least integer |
| Number.PutLead | my_vsprintf.cpp:101-133 | Padding on the left goes before the sign as spaces or behind the prefix as zeros |
| Number.PutParts | my_vsprintf.cpp:101-149 | Padding, sign, prefix, zeros and digits in their order |
| Number.PutDigits | my_vsprintf.cpp:139-143 | The digits, last found first |
| Number.PrintNumber | my_vsprintf.cpp:59-150 | Prints the text of the number through the bounded output; refuses a base outside 2 to 36 |
| Formatter.ParseFlags | my_vsprintf_core_impl.h:51-62 | The flags, and where they end |
| Formatter.SkipAtoi | my_vsprintf.cpp:42-49 | The number, and where it ends |
| Formatter.ParseWidth | my_vsprintf_core_impl.h:64-80 | The width, from digits or an argument; a negative argument justifies left |
| Formatter.ParsePrecision | my_vsprintf_core_impl.h:82-105 | The precision, from digits, an argument or a bare dot |
| Formatter.ParseQualifier | my_vsprintf_core_impl.h:107-117 | The qualifier; two l count as L |
| Formatter.ParseSpec | my_vsprintf_core_impl.h:51-117 | All of them in their order |
| Formatter.PutChar | my_vsprintf_core_impl.h:123-144 | One character in its field |
| Formatter.PutString | my_vsprintf_core_impl.h:146-185 | At most precision characters in a field |
| Formatter.PutPointer | my_vsprintf_core_impl.h:334-350 | A pointer, zero-filled to sixteen places unless a width is given |
| Formatter.Convert | my_vsprintf_core_impl.h:119-462 | One conversion prints its text and consumes its part of the format and its arguments |
| Formatter.Vsnprintf | my_vsprintf_core_impl.h:5-474 | Exact truncation: the result is the length of the full text as an int, the buffer holds its first min(length, size - 1) characters and a NUL, and nothing else changes; a size larger than the buffer, as my_vsprintf.cpp:263 passes, is served if text and NUL fit |
| FormatScan.FlagsAreScanned | my_vsprintf_core_impl.h:51-62 | A run of - + space # 0 sets the five flags that it holds |
| FormatScan.NumberIsScanned | my_vsprintf.cpp:42-49 | A number in decimal digits is scanned as that number |
| FormatScan.DirectiveIsScanned | my_vsprintf_core_impl.h:51-117 | Flags, width, precision and qualifier written one behind the other are found again |
| FormatScan.StarWidth | my_vsprintf_core_impl.h:68-79 | A star takes the width from an int; a negative one justifies left |
| FormatScan.StarPrecision | my_vsprintf_core_impl.h:88-96 | And the precision |
| FormatScan.PlainText | my_vsprintf_core_impl.h:43-49 | Text without percent signs is printed as it is |
| FormatScan.DirectiveIsPrinted | my_vsprintf_core_impl.h:43-463 | A directive prints its conversion, and the rest goes on with the arguments left |
| FormatScan.CutString | my_vsprintf_core_impl.h:146-185 | %.Ns prints the first N bytes |
| FormatScan.RightString | my_vsprintf_core_impl.h:168-178 | %Ns prints the string behind the missing spaces |
| FormatScan.LeftString | my_vsprintf_core_impl.h:175-184 | %-Ns prints it before them |
| FormatScan.UnsignedInFormat | my_vsprintf_core_impl.h:404-462 | %u prints the low 32 bits of the argument in decimal |
| FormatScan.PingFormat | irc.cpp:740 | The bot's ping carries its number in decimal |
| FormatLaws.UnsignedDecimal | my_vsprintf_core_impl.h:404-405 | u prints the argument, as wide as its qualifier says, in base 10 |
| FormatLaws.Octal | my_vsprintf_core_impl.h:391-393 | o prints it in base 8 |
| FormatLaws.SignedDecimal | my_vsprintf_core_impl.h:401-405 | d and i print it as a signed number in base 10 |
| FormatLaws.Hexadecimal | my_vsprintf_core_impl.h:395-399 | x and X print it in base 16 with small letters and with capitals, behind 0x or 0X if that is asked for |
| FormatLaws.Pointer | my_vsprintf_core_impl.h:334-350 | p prints the whole word in base 16, in at least sixteen places without spaces in front if no width is given |
| FormatLaws.IntegerField | my_vsprintf.cpp:59-150 | The length of the field, the side it is filled on, and its sign |
| FormatLaws.Character | my_vsprintf_core_impl.h:123-144 | c prints the low byte of the argument in its field |
| FormatLaws.String | my_vsprintf_core_impl.h:146-185 | s and S print a string up to its NUL, cut to the precision, in its field |
| FormatLaws.NullString | my_vsprintf_core_impl.h:163-164 | A null pointer prints as (null) |
| FormatLaws.PercentAndOther | my_vsprintf_core_impl.h:384-418 | %% prints a percent sign, an unknown letter itself behind one |
| FormatLaws.TrimmedReads | my_vsprintf.cpp:59-150 | Behind its spaces the text of an integer reads as that integer |
| FormatLaws.SignLaw | my_vsprintf.cpp:74-86 | A minus exactly for what is negative, a plus only if asked for |
| FormatLaws.PaddingLaw | my_vsprintf.cpp:100-148 | Spaces in front, zeros in front, or spaces at the end, as the flags say |
| FormatLaws.TextCharacters | my_vsprintf.cpp:63-67 | Only spaces, a sign and numerals of one kind of letters appear |
| Atoi.MyAtoiBase | etc.cpp:243-310 | The signed value of the digits at the start of the string |
| Atoi.DigitsRead | etc.cpp:261-303 | Reading a number's digits gives the number, without overflow up to the largest int |
| Atoi.ShapeReads | etc.cpp:261-303 | Zeros before and spaces behind do not matter |
| Atoi.HexPrefixReads | etc.cpp:276-296 | The prefix 0x adds at least 33 to what follows it |
| Atoi.NumberReadsBack | my_vsprintf.cpp:59-150 | What number prints is read back exactly if it has no hexadecimal prefix, or, where it begins with a space or the base is above 16, if the integer is 0; and a magnitude an int can hold causes no overflow on the way |
| Atoi.HexPrefixIsMisread | etc.cpp:288-291 | Every text with the hexadecimal prefix is misread, but for a zero behind spaces |
| Atoi.HexOneIsMisread | etc.cpp:288-291 | So 0x1 is read as 529 |
| PrintAndRead.DecimalFormat | my_vsprintf_core_impl.h:401-462 | The format %d prints the number's decimal text, for every int |
| PrintAndRead.DecimalReadsBack | etc.cpp:243-310 | What %d prints for an int is its value in base 10, and reading it overflows exactly for the least int |
| Base64.GroupDecodes | base64_impl.c:68-76 | A group of one to three bytes comes back from its four characters |
| Base64.EncodeIsClean | base64_impl.c:117-133 | An encoding holds nothing the decoder skips |
| Base64.CodeIsTable | base64_impl.c:90 | The alphabet is Table 1 of RFC 4648 |
| Base64.OneLetter | base64_impl.c:124-133 | One value of section 10 of RFC 4648 with two pads |
| Base64.TwoLetters | base64_impl.c:124-133 | One with a single pad |
| Base64.ThreeLetters | base64_impl.c:117-123 | Two full groups, whatever follows |
| Base64.DecodeInvertsEncode | base64_impl.c:42-142 | Decoding an encoding gives back the bytes and asks for exactly their room, for all lengths |
| Base64.AcceptedTexts | base64_impl.c:52-82 | A text is accepted exactly if it is whole groups with at most three pads, all at the end |
| Base64.NoiseIsSkipped | base64_impl.c:8-32 | The table marks exactly the bytes that no encoding holds |
| Base64.CleanIsExact | base64_impl.c:54-55 | Filtering a text gives back another exactly if it is that text with such bytes inserted |
| Base64.FilteredEncodingDecodes | base64_impl.c:42-142 | Decoding an encoding through the filter gives back the bytes |
| Base64.NoiseIsIgnored | base64_impl.c:54-55 | So does decoding it with any such bytes inserted anywhere |
| Base64.CleanSkips | base64_impl.c:54-55 | Such bytes vanish wherever they are inserted |
| Base64Decoder.RefusedCharacter | base64_impl.c:57-66 | A character the loop refuses makes the text bad, whatever follows |
| Base64Decoder.AcceptedCharacter | base64_impl.c:68 | An accepted character joins its group |
| Base64Decoder.LastOfGroup | base64_impl.c:70-78 | A full group is written if it has room, and ends the text if it is padded |
| Base64Decoder.EndOfText | base64_impl.c:80-83 | The text is good exactly if no group is left open |
| Base64Decoder.WriteGroup | base64_impl.c:74-76 | One to three bytes are stored, and nothing behind them |
| Base64Decoder.FlushGroup | base64_impl.c:70-78 | The room test and the stores of a full group |
| Base64Decoder.TakeCharacter | base64_impl.c:56-78 | One character is refused, taken up, or completes its group |
| Base64Decoder.OverrunsExactly | base64_impl.c:71-74 | One byte is stored beyond the length given exactly if the first pad is second in its group, two more follow, and the groups before fill that length; never more than one |
| Base64Decoder.ThreePadsOverrun | base64_impl.c:71-74 | So it is for A=== and the length 0 |
| Base64Decoder.RoomForInput | base64.cpp:12-17 | A length of at least that of the text is always safe |
| Base64Decoder.EncodingsStayInside | base64_impl.c:117-133 | So is every length for an encoding, even with other bytes inserted |
| Base64Decoder.DecodedRoom | base64_impl.c:70-83 | An accepted text yields one byte more than its room just if three pads end it, and fewer bytes than it has characters |
| Base64Decoder.Base64Decode | base64_impl.c:42-86 | Succeeds exactly if the cleaned text is good and has room, with its bytes and their number; and for every text, accepted or not, the buffer afterwards holds exactly what is stored and is otherwise untouched |
| Base64Decoder.DecodeString | base64.cpp:8-37 | The caller's buffer, as long as the text, is enough for the bytes and their NUL |
| Base64.EncodeGroups | base64_impl.c:116-123 | The whole groups are written |
| Base64.FinishEncoding | base64_impl.c:124-136 | The padded group and the NUL are written |
| Base64.Base64Encode | base64_impl.c:100-142 | Writes the encoding and a NUL and nothing behind it, or says what room is needed |
| Base64.EncodedLength | base64_impl.c:110 | The length computed is the length written |
| UrlCode.UnescapeInvertsEscape | etc.cpp:342 | An escape is read back as its character |
| UrlCode.DecodeInvertsEncode | etc.cpp:312-411 | Decoding undoes encoding, for every string |
| UrlCode.EncodedAppend | etc.cpp:328-345 | Encoding goes character by character |
| UrlCode.PlainOrEscaped | etc.cpp:330-344 | Letters, digits and - _ . * stand for themselves, everything else becomes an escape of two small hexadecimal digits |
| UrlCode.EncodingAlphabet | etc.cpp:328-345 | So an encoding holds no other characters |
| UrlCode.UrlEncode | etc.cpp:312-352 | The encoding and a NUL; or -1 and as many whole characters as fit |
| UrlCode.PartOfDecoded | etc.cpp:386-407 | In a string of whole escapes, what fits is a beginning of the decoding |
| UrlCode.OneTurn | etc.cpp:388-407 | One turn makes one character of one character or escape |
| UrlCode.UrlDecode | etc.cpp:373-411 | The decoding and a NUL; or -1 and as much of it as fits, also if escapes are cut short behind that |
| UrlCode.EncodingIsDecoded | etc.cpp:312-411 | What was encoded comes back whole in a buffer that holds it and its NUL |
| Hangul.Disorganize | extcmds/ChoseongTrifler.php:58-65 | The three parts put together again are the syllable |
| Hangul.DisorganizeInverts | extcmds/JongseongTrifler.php:58-69 | Taking apart undoes putting together |
| Hangul.Composition | extcmds/JongseongTrifler.php:67-69 | The number is that of the arithmetic composition of section 3.12 of the Unicode standard |
| Hangul.TablesInvert | extcmds/ChoseongTrifler.php:94-116 | The tables of the two scripts are inverse to each other |
| Hangul.AbsorbJoinsLetters | extcmds/ChoseongTrifler.php:94-116 | A final and an initial become the final written with the letters of both |
| Hangul.LettersAreAbsorbed | extcmds/ChoseongTrifler.php:94-116 | Wherever there is such a final, but for the silent initial and the last |
| Hangul.ChoseongShifts | extcmds/ChoseongTrifler.php:126-131 | What becomes of a boundary: initials 3 and 16 stay before the vowels 2, 3, 6, 7, 12, 17 and 20 |
| Hangul.JongseongShifts | extcmds/JongseongTrifler.php:127-132 | Finals 7 and 25 stay before these vowels, finals 0, 6, 15, 21 and 27 always, and all before an initial other than 11 |
| Hangul.JongseongAfterChoseong | extcmds/JongseongTrifler.php:127-132 | At one boundary, shifting back after shifting forward is shifting back |
| Hangul.ChoseongAfterJongseong | extcmds/ChoseongTrifler.php:126-131 | The other way round, exactly unless final 13 meets initial 11 before one of the vowels 2, 3, 6, 7, 12, 17 and 20 |
| Hangul.ShiftIsIdempotent | extcmds/ChoseongTrifler.php:126-131 | Shifting a boundary twice is shifting it once |
| Trifler.ShiftBoundary | extcmds/ChoseongTrifler.php:120-132 | One turn rewrites the final and the initial at its boundary and nothing else |
| Trifler.TurnAgrees | extcmds/JongseongTrifler.php:119-134 | A turn finishes a syllable as judged on the original text, although it reads a rewritten one |
| Trifler.Turn | extcmds/ChoseongTrifler.php:119-133 | One turn, with everything before it finished and everything behind it untouched |
| Trifler.TriflePass | extcmds/ChoseongTrifler.php:118-133 | The in-place pass is all boundaries judged at once on the original text |
| Trifler.PassesCompose | extcmds/JongseongTrifler.php:118-134 | Two passes are one pass exactly if that holds boundary by boundary |
| Trifler.JongseongAbsorbsChoseong | extcmds/JongseongTrifler.php:118-134 | The Jongseong pass after the Choseong pass is the Jongseong pass, always |
| Trifler.ChoseongAbsorbsJongseong | extcmds/ChoseongTrifler.php:118-133 | The Choseong pass after the Jongseong pass is the Choseong pass exactly if nowhere final 13 meets initial 11 before one of the vowels 2, 3, 6, 7, 12, 17 and 20 |
| Trifler.SomeTextResists | extcmds/JongseongTrifler.php:128-131 | There are two syllables that the Choseong script leaves alone and does not restore |
| Trifler.PassIsIdempotent | extcmds/ChoseongTrifler.php:118-133 | A pass done twice is a pass done once |
| Trifler.PassKeeps | extcmds/JongseongTrifler.php:123-133 | Vowels, other characters and the places of syllables stay |
| TriflerText.DecodeInvertsEncode | extcmds/ChoseongTrifler.php:15-56 | Decoding undoes encoding for every code point |
| TriflerText.EncodeIsUtf8 | extcmds/JongseongTrifler.php:15-27 | The bytes have the forms of section 3 of RFC 3629 and stand for the number |
| TriflerText.SpelledOnce | extcmds/ChoseongTrifler.php:15-27 | A text spells at most one sequence of code points |
| TriflerText.PassKeepsLength | extcmds/ChoseongTrifler.php:135-137 | A pass keeps the length in bytes |
| TriflerText.DecodeText | extcmds/ChoseongTrifler.php:76-92 | The first loop finds the code points |
| TriflerText.CharacterAt | extcmds/ChoseongTrifler.php:77-91 | One turn of it reads one code point and passes over its spelling |
| TriflerText.EncodeText | extcmds/ChoseongTrifler.php:135-139 | The last loop spells them |
| TriflerText.PassSkipsBom | extcmds/ChoseongTrifler.php:74-75 | Setting a byte order mark aside changes nothing |
| TriflerText.Trifle | extcmds/ChoseongTrifler.php:71-140 | Well-formed text comes out as the shifted code points, with its length |
| TriflerText.TextJongseongAbsorbsChoseong | extcmds/JongseongTrifler.php:71-141 | On text, the Jongseong script undoes the Choseong script |
| TriflerText.TextChoseongAbsorbsJongseong | extcmds/ChoseongTrifler.php:71-140 | On text, the other order agrees exactly if no boundary is of the resisting kind |
| Remember.LinkNamesWord | modules/mod_remember.cpp:109-128 | link: and a word without spaces is a link to that word |
| Remember.OnlyThoseAreLinks | modules/mod_remember.cpp:109-128 | And nothing else is a link |
| Remember.StopsOnce | modules/mod_remember.cpp:117-144 | A chain of links ends at one place at most |
| Remember.CycleNeverStops | modules/mod_remember.cpp:130-138 | A chain that comes back to itself never ends |
| Remember.AnswersAreExact | modules/mod_remember.cpp:106-157 | Each answer is given exactly when its reason holds: a text when at most nine links lead to an entry, a refusal for a missing word, a dangling link or a cycle |
| Remember.GetRemDb | modules/mod_remember.cpp:106-157 | The answer, the nick and the word reached are those of the chain of links |

## Left out

- Sockets, poll, threads, mutexes, conditions, clocks and the database themselves: they appear as sequences of arrivals, actions and times, and as a map.
- The encoding conversions conv_m2s and conv_s2m in quote and readline, and everything that uses regular expressions except the link pattern of mod_remember.
- SendQueue.Sender.AddToSendQueue: without flood protection the line is sent without the mutex; the model makes that one step, as it does each stretch of code under the mutex.
- SendQueue.Sender.Pass: does not model kill_send_thread, which clears send_ready and drops the queue.
- SendQueueRuns.RunsAreFifo: speaks of runs with flood protection on; without it a line overtakes those still queued.
- SendQueueRuns.FloodControl: assumes a clock that never runs backwards and sleeps that never end early; the branch for a skewed clock (irc.cpp:1505-1509) is in the steps, and only this bound does not hold there.
- SendQueueRuns.QueueDrains: counts the steps of the sender; that the scheduler lets it take them, and how long they last, is not modelled.
- TcpSock.Socket.ReadLine: the lock that keeps two readers apart and the time it may take to get it are not modelled.
- TcpSock.Socket.AppendToReadBuffer: readline is its only caller in the model; bytes that another module pushes back while a line is being read are not covered.
- TcpSock.ReadLines: reads with the limit 65535 that tcpsock.h:146 gives by default; quitting, pinging and the handling of a line are left out, and the number of turns is a parameter.
- The other readers of tcpsock.cpp (readline_delim, timed_read_acc): easier variants, or faulty in how they place their bytes.
- Md5.Context.Update: one call takes fewer bytes than an unsigned long counts; longer pieces do not exist.
- Md5Body.Rounds: the 64 unrolled lines are one loop over their constants, rotations and word numbers; the block copy in the context is not kept.
- Wildcard.CaseConverter.Apply: tolower is that of the C locale, and the IRC table is that of the configured character map (ircstring.h:19, ircstring.cpp:42-60).
- Utf8.SubstrGetpos: positions are unbounded integers; the overflow of start + nchar in an int is undefined in C and not modelled.
- Formatter.Vsnprintf: the conversions f, J and n, the Lua variant, a format whose arguments are missing or of the wrong kind, a buffer at the end of the address space, and widths and precisions that overflow an int.
- Formatter.ParseSpec: numbers in a format are unbounded.
- Atoi.MyAtoiBase: a value beyond an int is undefined in C and excluded by a precondition.
- my_atoi with its prefixes, except as urldecode uses it: its `0b` prefix selects base 1.
- Base64Decoder.Base64Decode: a buffer that is too short for the stores of an overrunning text is excluded by a precondition, with the exact condition; null pointers are not modelled.
- Base64Decoder.DecodeString: not for the empty text, for which base64.cpp:20 stores a NUL in a buffer without bytes.
- Base64.Base64Encode: lengths near the largest unsigned int, where the length needed wraps, are not modelled.
- UrlCode.UrlDecode: an escape that is reached and cut short by the end of the string makes the source read past the end, and is excluded by a precondition.
- TriflerText.Trifle: on malformed text the source's decoding loop may never end; the model takes text that spells code points.
- Remember.GetRemDb: the database is a map from a word to its nick and text, taken as constant during one lookup; stripping the host from the nick is part of the map.
- The event threads, timers, modules, scripting interfaces and the configuration of the bot: plumbing, or without a property beyond their bodies.
