# Verified models of the server's engines

The repository is a Lua server framework. This project models, in Dafny, the parts of it whose
correctness is hardest to see from the code, and proves what those parts are for:

- **Number printing** (`lae/source/dtoa.c`): multi-word integers kept in blocks from free lists
  (`Words.dfy`, `Bigints.dfy`), how numbers get into blocks (`Conversions.dfy`), the two digit loops,
  as functions with their theorems (`DigitSpec.dfy`) and as code on blocks that computes those functions
  (`DigitLoops.dfy`), what a double and its neighbours are (`Doubles.dfy`), the floating-point estimate of
  the decimal exponent (`Estimate.dfy`), the path for small whole numbers (`SmallInteger.dfy`), and mode 0
  from a double's words to the printed digits (`Mode0.dfy`).
- **Worker pool** (`LuaThread.cpp`, `LuaThreadMgr.cpp`, `lae/include/LXZLock.h`): posters, workers and
  the main loop as a state machine; the theorems hold in every state of every interleaving
  (`WorkerPool.dfy`) and say what whole runs do (`WorkerPoolRuns.dfy`).
- **JSON** (`lae/source/lua_cjson.c`, `lae/source/strbuf.c`, `lae/source/strbuf.h`): the string buffer
  (`StrBuf.dfy`), what encoding and decoding mean (`Json.dfy`), the code that computes it
  (`JsonEncoder.dfy`, `JsonParser.dfy`), JSON texts and their values by RFC 8259, apart from the code
  (`JsonGrammar.dfy`), that the decoder takes all of them (`JsonAccepts.dfy`) and little else
  (`JsonSound.dfy`), that the encoder writes them and the round trip (`JsonRoundTrip.dfy`), shapes of tables
  and independence of the order of entries (`JsonOrder.dfy`), and depth limits and code points
  (`JsonLimits.dfy`).
- **MIME filters** (`lae/source/mime.c`): Base64 and wrapping (`Base64.dfy`), quoted-printable
  (`QuotedPrintable.dfy`) and what it is by the standard (`QpStandard.dfy`), line ends and dot stuffing (`LineEnds.dfy`), what they share
  (`MimeText.dfy`).
- **WebSocket frames** (`lae/source/LXZMessage.cpp`) over the in-memory file
  (`lae/source/IMemFile.cpp`, `lae/include/FastBufAlloc.h`): `MemFile.dfy`, `WebSocket.dfy`.

Code that changes things in place is modelled by methods on classes and arrays, each proved against
a function of its inputs or of the old state; the theorems are lemmas about those functions. What a
standard lays down (Base64, quoted-printable, JSON, WebSocket frames) is stated apart from the functions
of the code and proved to be what they compute.
`dafny verify dfyconfig.toml` checks everything.

What the proofs found about the code:

- The mode-0 digit loop, on arbitrary operands, misses the nearest of the shortest digit strings exactly
  in `DigitSpec.NineCorner` (`ShortestNearest`, `CornerIsFar`, `CornerWitness`). `dtoa` never builds such
  operands: `Doubles.NoCorner` shows it for every double, so mode 0 always prints a nearest shortest
  string (`Doubles.DoubleCorrect`, `Mode0.Print`).
- The floating-point estimate of the decimal exponent is right or one too large for every positive double,
  as its comment promises (`Estimate.EstimateExponent`). It is a tangent to the logarithm that touches it at
  1.5 times a power of two; what the proof needs is that at each power of ten it lies above the logarithm by
  at least 10^-9 (`Estimate.AllMarked`), while all rounding errors together stay below 10^-12
  (`Estimate.SumClose`).
- A string buffer set to grow by a fixed increment does not grow: its old size is rounded up instead of the
  size needed, and there is room if and only if both take the same number of increments
  (`StrBuf.LinearMakesRoom`, `LinearWitness`). Nothing in the repository sets such an increment.
- `cmp` tells a zero stored with no word from a zero stored as one word (`Bigints.Dtoa.Cmp`). The
  mode-0 loop meets this when the remainder is zero and mhi equals S (`DigitSpec.CompareHigh`); its
  theorems hold all the same.
- A number whose text is longer than 14 bytes comes back from JSON as a string
  (`JsonRoundTrip.NumberReturnsExactly`), and may even stand for a key (`JsonGrammar.KeyOk`). Beyond that the
  decoder takes control characters in strings, numbers as the C library scans them, and anything behind a
  zero byte, and nothing else that is not JSON (`JsonSound.DecodeSound`).
- With invalid numbers allowed the encoder writes what is not JSON (`JsonRoundTrip.NanIsNotJson`); with the
  other two settings every text it writes is JSON (`EncodingIsJson`).
- The one-call forms of the two MIME decoders return nil when the decoded string is empty or begins
  with a zero byte; streaming loses nothing (`OneCallDecodes`, `UnstreamedIsDecoded`).
- Wrapped quoted-printable comes back for every string if and only if the line length is at least four
  (`QuotedPrintable.LengthFourExactly`).
- Three line-end characters such as CR CR LF make three line ends, because equal neighbours are
  consumed as a pair (`LineEnds.Normal`, `RunIsNormal`); this follows the comment in the code.
- The file's `Write` reports -1 whenever the store had to grow, although the bytes were written
  (`MemFile.CIMemFile.Write`).
- Six of the ten WebSocket frame types are read back as written (`WebSocket.KindReturns`), and an
  empty unmasked frame at the end of the input is never delivered (`WebSocket.StreamReturns`).
- The length test for a WebSocket frame leaves the four mask bytes out. A masked frame of which the last
  one to four bytes have not arrived is taken for a whole one: its payload ends with whatever follows
  in memory, and the length reported is beyond what was received (`WebSocket.ClientPart`,
  `ClientPartReadsOn`, `LostByteWitness`).
- The same test adds header and announced length in an int. From a sum of 2^31 on it wraps, the test passes
  whatever was received, and a frame that is not there is taken: eleven bytes are enough
  (`WebSocket.LongEnoughExactly`, `IncompleteExactly`, `OverflowWitness`).

## Model

| member | source | states |
|---|---|---|
| Words.ValConcat | lae/source/dtoa.c:533-538 | the value of words in base 2^32, least significant first, splits at any word |
| Words.TopWordDecides | lae/source/dtoa.c:1055-1065 | with equal words above, the first word that differs decides the order of the numbers, whatever lies below |
| Words.MulAddLoop | lae/source/dtoa.c:632-656 | words and outgoing carry together are the old value times m plus a; every 64-bit intermediate fits |
| Words.AddProduct | lae/source/dtoa.c:846-859 | one row of long multiplication adds exactly y times a at its place, leaving the words below as they were |
| Words.MulInto | lae/source/dtoa.c:838-859 | the rows together leave the product of the two numbers in the cleared words |
| Words.SubtractMultiple | lae/source/dtoa.c:2160-2190 | the words lose exactly q times the divisor when that is not more than their value |
| Words.SubtractWords | lae/source/dtoa.c:1105-1124 | words are exactly the difference when the first number is the larger |
| Words.ShiftLoop | lae/source/dtoa.c:1002-1012 | words and the last carry are the value times 2^r, for a shift inside a word |
| Words.CompareWords | lae/source/dtoa.c:1055-1065 | the sign of the difference of two numbers of equal length |
| Words.Trim | lae/source/dtoa.c:910-911 | the length without leading zero words; value unchanged |
| Bigints.Dtoa.Balloc | lae/source/dtoa.c:544-583 | a block of 2^k words that nobody uses, taken off its list or new; no block in use, cached or listed elsewhere changes |
| Bigints.Dtoa.Bfree | lae/source/dtoa.c:585-609 | the block leaves use and nothing else does; every list still holds only unused blocks of its own size |
| Bigints.Dtoa.MultAdd | lae/source/dtoa.c:612-667 | the block stands for b*m + a, in a block of twice the size when the carry needs one more word; all other numbers kept |
| Bigints.Dtoa.Mult | lae/source/dtoa.c:805-913 | a new block stands for the product; every word written lies inside it |
| Bigints.Dtoa.Lshift | lae/source/dtoa.c:974-1032 | the result stands for b * 2^k and b's block is given back |
| Bigints.Dtoa.Cmp | lae/source/dtoa.c:1034-1066 | the sign of a - b for any two numbers; two zeros compare by how they are stored |
| Bigints.Dtoa.Diff | lae/source/dtoa.c:1068-1160 | a new block stands for the absolute difference, its sign telling which operand was larger |
| Bigints.EstimateIsClose | lae/source/dtoa.c:2143-2149 | for an aligned divisor and b < 10 S the one-word quotient estimate is never too big and at most one too small |
| Bigints.Dtoa.DivideStep | lae/source/dtoa.c:2143-2241 | estimate, subtraction and correction together give the exact quotient digit and leave the remainder |
| Bigints.Dtoa.Quorem | lae/source/dtoa.c:2119-2241 | returns floor(b/S) and leaves b mod S in b, for every b < 10 S with S aligned; says when the zero remainder has no word |
| Bigints.Dtoa.Dshift | lae/source/dtoa.c:2106-2117 | the further shift after which the divisor is aligned |
| Bigints.ShiftAligns | lae/source/dtoa.c:2106-2117 | shifting by the leading zeros less four, up to whole words, leaves exactly four leading zero bits in the top word |
| Bigints.Hi0bits | lae/source/dtoa.c:707-739 | the number of leading zero bits: shifted by it the word reaches its top bit; 32 for zero |
| Bigints.Dtoa.I2b | lae/source/dtoa.c:789-803 | a new block for a one-word number |
| Bigints.PowerSquares | lae/source/dtoa.c:951-968 | node i + 1 of the cache is the square of node i, which is how 5^(4*2^i) continues |
| Bigints.Dtoa.NeedPower | lae/source/dtoa.c:934-968 | the cache reaches node i; its old nodes stay, new ones are blocks that were not in use, and node i holds 5^(4*2^i) |
| Bigints.Dtoa.Pow5Mult | lae/source/dtoa.c:917-972 | the result stands for b * 5^k for every k and every cache; the cache only grows and keeps its shape, no other number changes |
| Conversions.S2b | lae/source/dtoa.c:669-705 | the block stands for the number that the nd digits write, wherever the decimal point of dplen bytes stands among them |
| Conversions.Lo0bits | lae/source/dtoa.c:741-787 | the number of trailing zero bits and the odd word left; 32 for zero |
| Conversions.D2b | lae/source/dtoa.c:1274-1404 | for every non-zero double, normal or not: b * 2^e is its value, b is odd, and bits is exactly its length in bits |
| DigitSpec.LoopAccepts | lae/source/dtoa.c:4196-4283 | wherever the loop stops, digits so far and the decision give a value inside the rounding interval |
| DigitSpec.LoopMinimal | lae/source/dtoa.c:4196-4283 | no value with fewer digits lies inside the interval, for any loop state |
| DigitSpec.ShortestCorrect | lae/source/dtoa.c:4196-4322 | the printed digits are digits, do not begin or end with zero, lie between (b-mlo)/S and (b+mhi)/S, the ends only when the mantissa is even, and no shorter string does; trailing-nine carry included |
| DigitSpec.ShortestNearest | lae/source/dtoa.c:4223-4267 | among strings of that length in the interval the printed one is nearest, if and only if the input is not the nine corner |
| DigitSpec.CornerIsFar | lae/source/dtoa.c:4206-4221 | for loop operands in the corner the loop goes up to 10 although 9 is accepted and strictly nearer |
| DigitSpec.CornerWitness | lae/source/dtoa.c:4206-4221 | the corner is not empty as a fact about the loop: operands, with an aligned divisor, that no double leads to |
| DigitSpec.RoundUpAt | lae/source/dtoa.c:4314-4321 | rounding up adds exactly one unit in the last place, dropped nines and a raised exponent included |
| DigitSpec.RoundUpBump | lae/source/dtoa.c:4314-4321 | the exponent is raised exactly when all digits were nine |
| DigitSpec.StripZerosAt | lae/source/dtoa.c:4327-4328 | stripping zeros leaves the number written unchanged |
| DigitSpec.FixedRounded | lae/source/dtoa.c:4284-4329 | from any loop state, digits so far plus b/S is the scaled input, and the result is that rounded half to even |
| DigitSpec.FixedCorrect | lae/source/dtoa.c:4284-4329 | the output is the nearest ilim-digit decimal, ties to even, no trailing zero, exponent raised exactly when the value rounds up to the next power of ten |
| DigitLoops.Turn | lae/source/dtoa.c:4197-4268 | one turn on blocks gives the digit and the decision of the specification |
| DigitLoops.Shortest | lae/source/dtoa.c:4196-4336 | the loop on blocks, for every aligned S with b < 10 S, ends and prints exactly the specified digits; its operands are freed and every other number is kept |
| DigitLoops.Fixed | lae/source/dtoa.c:4284-4336 | the same for the fixed-digit loop |
| DigitLoops.RoundOff | lae/source/dtoa.c:4314-4321 | the backward loop over the digit buffer computes the specified rounding up |
| DigitLoops.TrimZeros | lae/source/dtoa.c:4327-4328 | the backward loop computes the specified stripping |
| Doubles.UpperGap | lae/source/dtoa.c:1274-1404 | the double with the next words is one gap above, across every change of exponent and from denormal to normal |
| Doubles.LowerGap | lae/source/dtoa.c:4125-4143 | the double with the previous words is one gap below, and that gap is half as large exactly in the special case the code tests for |
| Doubles.AcceptsIsReading | lae/source/dtoa.c:4196-4283 | for operands prepared from a double, what the loop accepts is exactly what lies between the midpoints to its two neighbours, on them only for an even mantissa |
| Doubles.NoCorner | lae/source/dtoa.c:4206-4221 | operands prepared from a double, normal or not, never meet the corner |
| Doubles.PrintsEverywhere | lae/source/dtoa.c:4196-4322 | digits that are shortest and nearest among the numbers counted from 10^k down are so among all decimal numbers, for a double from 10^k on |
| Doubles.DoubleCorrect | lae/source/dtoa.c:4196-4322 | for every double the loop's digits read back as it, no number with fewer digits does wherever its first digit stands, and none with as many that does is nearer |
| Estimate.OneExponent | lae/source/dtoa.c:3778-3843 | every positive double has exactly one decimal exponent, from -324 to 308 |
| Estimate.AllMarked | lae/source/dtoa.c:3792-3834 | at every power of ten from 10^-323 to 10^316 the tangent lies above the logarithm, by at least 10^-9 and at most 0.04 |
| Estimate.TangentAt | lae/source/dtoa.c:3792-3834 | so whether a number t * 2^i is below 10^m decides on which side of m the tangent lies at it |
| Estimate.SumClose | lae/source/dtoa.c:3834-3834 | the estimate in double arithmetic, constants rounded as well, is within 10^-12 of the tangent |
| Estimate.TopBitsLead | lae/source/dtoa.c:3823-3829 | the first 32 bits of a denormal mantissa of any length, put together from two words by shifts, are its leading part to within 10^-9 |
| Estimate.EstimateExponent | lae/source/dtoa.c:3779-3837 | the estimate for every positive double, normal or not, is its decimal exponent or one more |
| SmallInteger.WholeReads | lae/source/dtoa.c:4026-4082 | of the whole numbers only the double itself reads back, below 10^15 |
| SmallInteger.DigitExact | lae/source/dtoa.c:4037-4048 | the digit from a rounded quotient is the exact quotient |
| SmallInteger.RestExact | lae/source/dtoa.c:4037-4048 | what is left after a digit, and ten times that, are exact in double arithmetic |
| SmallInteger.ExactPrints | lae/source/dtoa.c:4026-4082 | digits that write such a number exactly, without zeros at their ends, are a shortest and nearest decimal that reads back |
| SmallInteger.PrintSmall | lae/source/dtoa.c:4026-4082 | the loop in double arithmetic ends and its digits are a shortest and nearest decimal that reads back |
| Mode0.SetPowers | lae/source/dtoa.c:3844-4106 | the exponent arithmetic, before and after the reduction by common twos, leaves powers whose differences are the mantissa's scale and the decimal exponent |
| Mode0.FitIsPrepared | lae/source/dtoa.c:4084-4194 | operands with such powers stand for the double over 10^k and for the midpoints to its neighbours |
| Mode0.CopyOf | lae/source/dtoa.c:609-610 | a second block with the same number; every other number kept |
| Mode0.SetUp | lae/source/dtoa.c:4084-4194 | the set-up on blocks yields aligned operands of the double with S <= b < 10 S, an estimate one too large put right |
| Mode0.FirstExponent | lae/source/dtoa.c:3838-3843 | the estimate after the comparison with a power of ten: exact where it was made, otherwise at most one too large and still to be checked |
| Mode0.Print | lae/source/dtoa.c:3778-4336 | mode 0 on the words of every positive finite double, for any rounding that keeps whole numbers up to 2^53 and errs by at most 2^-53 of the number or of one: the exponent is exact, the digits are a shortest decimal that reads back and a nearest one of that length, all blocks are given back and only the power cache grows |
| WorkerPool.StepKeeps | LuaThread.cpp:117-250 | every step of every poster, worker and Update keeps the whole invariant |
| WorkerPool.RunKeeps | LuaThread.cpp:117-250 | so it holds in every state of every run |
| WorkerPool.NoLostWakeup | LuaThread.cpp:146-198 | a worker blocked on a zero semaphore, with no poster between its push and the end of its SetEvent, has an empty queue, also for tasks posted before the semaphore existed |
| WorkerPool.QueueBound | LuaThread.cpp:117-149 | check and push being separate, P posters never bring a queue beyond max + P - 1; one poster never beyond max; with max 0 it stays empty |
| WorkerPool.BoundIsReached | LuaThread.cpp:117-149 | for every P and max from 1 on some run does reach max + P - 1 |
| WorkerPool.OneThreadPerId | LuaThreadMgr.cpp:53-84 | two threads of the pool with one id are the same thread |
| WorkerPool.ExactlyOnePlace | LuaThreadMgr.cpp:86-141 | every accepted task is in exactly one of queue, worker's hand, return list, Update's list and deleted, once; its reference released exactly as often as it is deleted, at most once |
| WorkerPool.TakenInOrder | LuaThread.cpp:182-189 | a worker takes what was pushed in push order |
| WorkerPool.FinishedInOrder | LuaThreadMgr.cpp:94-141 | coroutine tasks of one thread are finished in the order they were accepted |
| WorkerPoolRuns.CountsAreSteps | LuaThreadMgr.cpp:94-141 | a coroutine has been resumed exactly as often as Update came to its task while it was yielded; references were dropped and tasks deleted exactly by the steps that came to them |
| WorkerPoolRuns.VisitedOnce | LuaThreadMgr.cpp:94-141 | Update comes to every coroutine task exactly once before it deletes it |
| WorkerPoolRuns.PushedWhereAsked | LuaThread.cpp:125-149 | a push adds one task at the end of the queue of the thread that has, and keeps, the id its poster asked for last |
| WorkerPoolRuns.SemaphoreExactly | lae/include/LXZLock.h:125-154 | a semaphore's count is the posts to it less the waits that have returned |
| WorkerPoolRuns.CanFinish | LuaThread.cpp:117-250 | every run can go on to a state with nothing queued, run or waited for, in which every accepted task is deleted and Update has come to each coroutine task once, resuming all it had not come to before |
| StrBuf.StringBuffer.constructor | lae/source/strbuf.c:44-67 | an empty buffer with room for the length asked for and its terminator |
| StrBuf.NewSize | lae/source/strbuf.c:135-162 | for every increment that can be set: a factor is applied until there is room, and not beyond one factor more than needed; a fixed increment rounds the old size up |
| StrBuf.LinearMakesRoom | lae/source/strbuf.c:154-157 | with a fixed increment there is room if and only if old size and size needed take the same number of increments |
| StrBuf.LinearWitness | lae/source/strbuf.c:154-157 | a buffer of 1024 that grows by 1024 has no room made for 1024 bytes and the terminator |
| StrBuf.StringBuffer.CalculateNewSize | lae/source/strbuf.c:135-162 | with the default factor: the size has room for string and terminator, never shrinks when room was missing, and is less than twice what is needed |
| StrBuf.StringBuffer.Resize | lae/source/strbuf.c:165-181 | the contents survive the move |
| StrBuf.StringBuffer.EnsureEmptyLength | lae/source/strbuf.h:95-99 | the room asked for is there, contents kept, size not smaller |
| StrBuf.StringBuffer.AppendCharUnsafe | lae/source/strbuf.h:122-125 | appends without a check; the caller's room is a precondition |
| StrBuf.StringBuffer.AppendChar | lae/source/strbuf.h:116-120 | appends for every buffer, keeping length below size |
| StrBuf.StringBuffer.AppendMemUnsafe | lae/source/strbuf.h:134-138 | the same for bytes without a check |
| StrBuf.StringBuffer.AppendMem | lae/source/strbuf.h:127-132 | the same for bytes with one |
| StrBuf.StringBuffer.AppendString | lae/source/strbuf.c:183-199 | the byte loop appends the whole string, and does not reallocate when there was room for it |
| JsonEncoder.AppendQuoted | lae/source/lua_cjson.c:529-553 | appends the quoted text; 6 * len + 2 bytes reserved once cover every unchecked append |
| JsonEncoder.ArrayLength | lae/source/lua_cjson.c:559-600 | the key loop tells arrays, objects and too sparse arrays apart as defined by the largest index and the number of entries |
| JsonEncoder.AppendNumber | lae/source/lua_cjson.c:654-682 | appends the text of a number under the setting for invalid ones, or fails |
| JsonEncoder.AppendKey | lae/source/lua_cjson.c:696-712 | appends a key with its quotes and colon, or fails; by `JsonRoundTrip.EncodingIsDoc` that is a JSON string and a colon for every key |
| JsonEncoder.AppendArray | lae/source/lua_cjson.c:632-652 | appends exactly the encoding of items 1 to n in brackets, or fails exactly when one of them does |
| JsonEncoder.AppendObject | lae/source/lua_cjson.c:684-723 | the same for entries in iteration order |
| JsonEncoder.AppendData | lae/source/lua_cjson.c:726-767 | ends on every heap, cyclic ones included, and appends exactly the encoding or fails exactly when there is none |
| JsonEncoder.EncodeValue | lae/source/lua_cjson.c:769-798 | the whole call, in a private buffer or in one kept from call to call whatever it held |
| JsonLimits.DeepFails | lae/source/lua_cjson.c:602-623 | a table from which a walk through tables goes deeper than the limit is never encoded |
| JsonLimits.CyclicFails | lae/source/lua_cjson.c:602-767 | nor is a table that contains itself, however indirectly |
| JsonLimits.TextWithinLimit | lae/source/lua_cjson.c:602-767 | in every text produced, read with strings skipped, each closing bracket closes the last one open, which is of its kind, all are closed at the end, and they nest no deeper than the limit, whatever the strings contain |
| JsonLimits.EscapeNamesCodePoint | lae/source/lua_cjson.c:885-941 | a \u escape stands for the UTF-8 of its code unit, or of the code point of a surrogate pair; single surrogates are errors |
| JsonLimits.Utf8Returns | lae/source/lua_cjson.c:841-874 | reading the bytes as section 3 of RFC 3629 says gives the code point back |
| JsonParser.Parser.AppendUnicodeEscape | lae/source/lua_cjson.c:885-941 | appends the code point's bytes unchecked into a buffer no larger than the text, and moves past the escape |
| JsonParser.Parser.NextStringToken | lae/source/lua_cjson.c:951-1005 | the string between the quotes, which is what the temporary buffer then holds, or an error; all appends stay inside that buffer |
| JsonParser.Parser.NextNumberToken | lae/source/lua_cjson.c:1062-1084 | the scanned number, or its bytes as a string when there are more than 14 |
| JsonParser.Parser.Next | lae/source/lua_cjson.c:1090-1164 | the next token; the cursor never goes back and never past the terminator |
| JsonParser.Parser.ParseObject | lae/source/lua_cjson.c:1211-1260 | ends, gives exactly the specified table or fails exactly when there is none, and restores the depth |
| JsonParser.Parser.ParseArray | lae/source/lua_cjson.c:1263-1299 | the same for arrays |
| JsonParser.Parser.ProcessValue | lae/source/lua_cjson.c:1302-1329 | the same for every value; a live parser's depth is within the limit |
| JsonParser.DecodeText | lae/source/lua_cjson.c:1331-1369 | for every text: the specified value, or none for UTF-16 look-alikes, errors and trailing tokens |
| JsonAccepts.TextDecodes | lae/source/lua_cjson.c:1090-1369 | every text of the grammar within the depth limit, with white space anywhere and characters written in any way, is decoded to the value the grammar says; numbers by any rule the scanner follows |
| JsonAccepts.RfcTextDecodes | lae/source/lua_cjson.c:1090-1369 | the same for the numbers of section 6 of RFC 8259, under the assumption that the scanner stops at their end |
| JsonAccepts.InvalidNumbers | lae/source/lua_cjson.c:1011-1060 | plus signs, hexadecimal, leading zeros, infinities and NaN are errors, or left to the scanner when the setting allows them |
| JsonSound.DecodeSound | lae/source/lua_cjson.c:1090-1369 | every text that is decoded is a document with white space around it, up to its end or a zero byte, decoded to that document's value, nested within the limit; the grammar here allows control characters, numbers as scanned, and a long number for a key |
| JsonGrammar.RespacedSame | lae/source/lua_cjson.c:1095-1102 | documents that differ in white space only stand for the same value |
| JsonRoundTrip.EncodingIsDoc | lae/source/lua_cjson.c:529-767 | every text produced is the text of a document of the grammar: strings, keys with their colon, commas, brackets, null, true and false |
| JsonRoundTrip.EncodingIsJson | lae/source/lua_cjson.c:529-767 | unless invalid numbers are written as they are, that document is JSON by RFC 8259, if the library prints finite numbers as JSON does |
| JsonRoundTrip.NanIsNotJson | lae/source/lua_cjson.c:654-682 | with that setting NaN is written as a text that is not JSON |
| JsonRoundTrip.EncodesExactly | lae/source/lua_cjson.c:602-767 | encoding succeeds exactly for values without unsupported parts, keys and numbers, too sparse arrays, and nesting beyond the limit |
| JsonRoundTrip.QuoteReturns | lae/source/lua_cjson.c:529-553 | any byte string quoted anywhere in a text is read back as one string token |
| JsonRoundTrip.MembersAreEntries | lae/source/lua_cjson.c:693-720 | a table's meaning is the map of its entries, under its strings and the texts of its numbers |
| JsonRoundTrip.ReturnableEncodes | lae/source/lua_cjson.c:726-767 | every value the round trip is promised for is encoded without an error |
| JsonRoundTrip.RoundTrip | lae/source/lua_cjson.c:529-1369 | decoding the encoding gives the value back: nil and null, booleans, all byte strings, short numbers, arrays with or without holes, and tables with string and number keys no two of which have the same text, nested within both limits, in any iteration order |
| JsonRoundTrip.SpacedRoundTrip | lae/source/lua_cjson.c:529-1369 | so does decoding it with any white space put around its tokens |
| JsonRoundTrip.NumberReturnsExactly | lae/source/lua_cjson.c:1062-1084 | a number that scans back is decoded to itself if and only if its text is at most 14 bytes; otherwise to the string of its text |
| JsonOrder.MeaningSame | lae/source/lua_cjson.c:684-723 | a value means the same in any two heaps whose tables differ only in the order of their entries, and is promised its round trip in both |
| JsonOrder.OrderLeavesNoTrace | lae/source/lua_cjson.c:684-1369 | decoding what was encoded gives the same value for both heaps |
| JsonOrder.ShapeExactly | lae/source/lua_cjson.c:559-600 | a table is an array of length n if and only if its keys are whole numbers from 1 to n, n among them, and its holes are tolerated by ratio or by length; when it is an object, and when an error |
| JsonOrder.ItemsAreEntries | lae/source/lua_cjson.c:632-652 | an array's meaning holds under each index from 1 to n the value stored under it, and null where there is none |
| Base64.EncodeByte | lae/source/mime.c:165-183 | one byte into the atom in place; three make a group |
| Base64.Pad | lae/source/mime.c:190-214 | the padded group of the last one or two bytes |
| Base64.DecodeByte | lae/source/mime.c:221-245 | one letter into the atom in place; four make up to three bytes, other bytes are passed over |
| Base64.B64 | lae/source/mime.c:255-288 | the two-part encoder: encoding so far, bytes left over, padding and nil at the end |
| Base64.UnB64 | lae/source/mime.c:296-330 | the two-part decoder |
| Base64.Wrp | lae/source/mime.c:107-146 | the wrapping loop with its space left, and the closing line break |
| Base64.StreamedIsEncoded | lae/source/mime.c:247-288 | for every way to cut the input into chunks, with leftovers fed back, the output is the one-shot encoding of section 6.8 of RFC 2045 |
| Base64.UnstreamedIsDecoded | lae/source/mime.c:290-330 | the same for decoding |
| Base64.DecodeEncoded | lae/source/mime.c:165-245 | decoding an encoding gives every byte string back with nothing left over |
| Base64.WrappedLinesFit | lae/source/mime.c:98-146 | no line is longer than the length, whatever the text and whatever fitting text follows |
| Base64.WrapConcat | lae/source/mime.c:98-146 | wrapping chunk by chunk is wrapping the whole |
| Base64.WrapLine | lae/source/mime.c:127-145 | a line is broken into as much as there is room for, then full lines, then the rest, whatever the space left |
| Base64.WrapFitting | lae/source/mime.c:127-145 | what fits is left alone |
| Base64.WrapLines | lae/source/mime.c:98-146 | text with line ends is wrapped line by line, only the first into the space left |
| Base64.WrapUnreturned | lae/source/mime.c:119-126 | carriage returns of the text make no difference |
| Base64.WrapKeepsText | lae/source/mime.c:98-146 | nothing but line ends is touched, for every length |
| Base64.EncodedExactly | lae/source/mime.c:165-225 | the encoding is the one section 6.8 of RFC 2045 lays down, letters, bits and padding, and no other is |
| Base64.DecodeIgnores | lae/source/mime.c:234-260 | the decoder passes over every byte that is neither a letter of the alphabet nor an equals sign |
| Base64.WrappedRoundTrip | lae/source/mime.c:107-330 | decoding a wrapped encoding, closing break included, gives the string back for every length, with lines that fit for lengths from 1 on |
| Base64.StreamRoundTrip | lae/source/mime.c:107-330 | the same with encoder and decoder each fed in chunks of its own |
| Base64.OneCallDecodes | lae/source/mime.c:314-320 | one-call decoding gives the string back if and only if it is not empty and does not begin with a zero byte |
| QuotedPrintable.EncodeByte | lae/source/mime.c:382-420 | the in-place loop puts out what can be told and keeps the rest |
| QuotedPrintable.Pad | lae/source/mime.c:425-434 | undecided bytes quoted unless ordinary, then a soft line break |
| QuotedPrintable.DecodeByte | lae/source/mime.c:485-510 | one byte into the atom in place: =XX, soft and hard breaks, invalid escapes kept, control bytes dropped |
| QuotedPrintable.Qp | lae/source/mime.c:444-479 | the two-part encoder for any marker |
| QuotedPrintable.UnQp | lae/source/mime.c:519-550 | the two-part decoder |
| QuotedPrintable.QpWrp | lae/source/mime.c:562-609 | the wrapping loop, and the closing soft break |
| QuotedPrintable.RunIsResolve | lae/source/mime.c:378-420 | the byte-at-a-time automaton computes what reading the whole string ahead computes |
| QuotedPrintable.ResolveConcat | lae/source/mime.c:436-479 | bytes left over, put before the next chunk, lead to the same output and leftovers as the whole |
| QuotedPrintable.StreamedIsEncoded | lae/source/mime.c:436-479 | every chunking gives the same encoded text, whatever the marker |
| QuotedPrintable.UnstreamedIsDecoded | lae/source/mime.c:512-550 | every chunking gives the same decoded string |
| QuotedPrintable.EncodedIsText | lae/source/mime.c:371-434 | encoded text is a sequence of whole units: bytes, =XX, line breaks, soft breaks |
| QuotedPrintable.TokensAreProper | lae/source/mime.c:332-420 | only allowed bytes stand for themselves, and no blank does at the end of a line or of the text |
| QuotedPrintable.WrappedLinesFit | lae/source/mime.c:552-609 | no line is longer than the length, soft break included, for every text, every fitting text after it, and every length from 4 on |
| QuotedPrintable.WrapOnlyBreaks | lae/source/mime.c:552-609 | wrapping keeps all units whole and in order, adds soft breaks only, and leaves no blank before a line break |
| QuotedPrintable.WrappedRoundTrip | lae/source/mime.c:382-609 | for every string, both markers, every length from 4 on: decoding the wrapped encoding, closing break included, gives the string back, lines fit, no =XX is split |
| QuotedPrintable.StreamRoundTrip | lae/source/mime.c:382-609 | the same with encoder and decoder each fed in chunks of its own |
| QuotedPrintable.LengthFourExactly | lae/source/mime.c:585-600 | every string, marker and space left comes back if and only if the length is at least four; below that an =XX is split |
| QuotedPrintable.OneCallDecodes | lae/source/mime.c:536-541 | one-call decoding gives the string back if and only if it is not empty and does not begin with a zero byte |
| QpStandard.QuoteExactly | lae/source/mime.c:367-376 | a quoted byte is an equals sign and two upper case hexadecimal digits for it, and nothing else is |
| QpStandard.AnyExactly | lae/source/mime.c:358-365 | the decoder's digits are the hexadecimal ones of either case, with their values |
| QpStandard.EncodedExactly | lae/source/mime.c:371-434 | the encoding of every string, for any marker, byte by byte: which bytes stand for themselves, when a blank does, what line breaks become, and when a soft break ends it |
| QpStandard.DecodeIsUndone | lae/source/mime.c:481-510 | what the decoder makes of every text, valid or not |
| QpStandard.WrapExactly | lae/source/mime.c:552-609 | encoded text is put into lines unit by unit, with a soft break exactly where the next unit and a break behind it would not fit |
| LineEnds.Eol | lae/source/mime.c:647-668 | the loop with its context, and the answer without input |
| LineEnds.RunIsNormal | lae/source/mime.c:611-638 | from a clean context line-end characters are taken in pairs: different ones are one line end, equal ones two |
| LineEnds.EolIdempotent | lae/source/mime.c:623-668 | with marker CRLF the output has CRLF line ends only, and a second pass changes nothing |
| LineEnds.FixedWhenUniform | lae/source/mime.c:623-668 | text is left alone if and only if its line ends are all CRLF |
| LineEnds.EolKeepsText | lae/source/mime.c:623-638 | nothing but line ends is touched, from any context |
| LineEnds.EolRunConcat | lae/source/mime.c:640-668 | chunks with the context carried over give what the whole gives |
| LineEnds.ConventionsMeet | lae/source/mime.c:611-638 | lines ended by CR, LF, CRLF or LFCR come out with the marker between them, whatever the lines, empty ones included |
| LineEnds.Dot | lae/source/mime.c:693-712 | the loop with its state, and the answer without input |
| LineEnds.UnstuffedReturns | lae/source/mime.c:670-687 | dropping one dot at each line start recovers every input, from every state |
| LineEnds.NoLoneDot | lae/source/mime.c:670-687 | from state 2 no line of the output is a single dot |
| LineEnds.DotRunConcat | lae/source/mime.c:689-712 | chunks with the state carried over give what the whole gives |
| LineEnds.LinesAreStuffed | lae/source/mime.c:670-687 | one dot is put before each line that begins with one, as section 4.5.2 of RFC 5321 has it, and nothing else is changed |
| MemFile.FastBuf.Grow | lae/include/FastBufAlloc.h:79-103 | room for the size asked for, contents kept, across the move from inline bytes to the heap and from heap to heap |
| MemFile.FastBuf.SetCpLen | lae/include/FastBufAlloc.h:113-113 | the new length within what is allocated, the terminator behind it |
| MemFile.FastBuf.Append | lae/include/FastBufAlloc.h:72-77 | the contents followed by the new bytes |
| MemFile.FastBuf.Release | lae/include/FastBufAlloc.h:57-70 | empty and inline again |
| MemFile.CIMemFile.Read | lae/source/IMemFile.cpp:42-56 | the bytes at the cursor, all or none, as of a plain sequence |
| MemFile.CIMemFile.Write | lae/source/IMemFile.cpp:79-104 | the bytes always replace those at the cursor and extend the file; the answer is -1 exactly when the store had to grow |
| MemFile.CIMemFile.SetPos | lae/source/IMemFile.cpp:58-63 | the cursor stays within the bytes |
| MemFile.CIMemFile.RemoveHeadBuffer | lae/source/IMemFile.cpp:65-77 | exactly the first bytes go, the cursor returns to the beginning |
| MemFile.WrittenTwice | lae/source/IMemFile.cpp:79-104 | two writes in a row are one write of both, wherever the cursor is |
| MemFile.WrittenIsThere | lae/source/IMemFile.cpp:79-104 | what was written is found where it was put and the rest is unchanged |
| WebSocket.Message.SetWebSocketFrame | lae/source/LXZMessage.cpp:102-139 | exactly one frame goes in at the cursor, with its length in one, three or nine bytes |
| WebSocket.Message.GetWebSocketFrame | lae/source/LXZMessage.cpp:141-222 | type, length and payload of the frame at the front of memory of which n bytes were received, the payload written at the cursor, also for a masked frame read past those n; nothing written and no length reported when it is incomplete; sums are made in an int |
| WebSocket.Message.Unmask | lae/source/LXZMessage.cpp:186-197 | the loop writes the payload combined with the mask byte by byte |
| WebSocket.UnmaskedExactly | lae/source/LXZMessage.cpp:186-197 | what is sent for a payload, bit by bit the exclusive or of octet j and mask octet j modulo 4 as section 5.3 of RFC 6455 has it, is exactly what unmasking takes to that payload |
| WebSocket.LengthFieldExactly | lae/source/LXZMessage.cpp:104-135 | the length field written is the one section 5.2 of RFC 6455 lays out, shortest form and most significant byte first, and no other is |
| WebSocket.LengthOfExactly | lae/source/LXZMessage.cpp:157-180 | a length is read as a number with its most significant byte first, in each of the three forms |
| WebSocket.KindExactly | lae/source/LXZMessage.cpp:211-219 | the type told by every first byte, from its opcode and last-fragment bit |
| WebSocket.KindReturns | lae/include/LXZMessage.h:25-41 | of the ten frame types exactly six are told again by their first byte |
| WebSocket.LongEnoughExactly | lae/source/LXZMessage.cpp:182-184 | once the header is there the length test passes exactly when the frame is there, the mask not counted, or header and length together do not fit an int |
| WebSocket.IncompleteExactly | lae/source/LXZMessage.cpp:141-184 | of any bytes, at least ten received: reported incomplete exactly while bytes are missing and the sum fits an int |
| WebSocket.OverflowWitness | lae/source/LXZMessage.cpp:182-184 | eleven bytes that announce 2^31 - 1 bytes of payload are taken for a whole frame |
| WebSocket.FrameReturns | lae/source/LXZMessage.cpp:102-222 | a frame followed by anything is read back as type, payload and length, unless two bytes are all there is or its length does not fit an int |
| WebSocket.PartIsIncomplete | lae/source/LXZMessage.cpp:182-184 | an unmasked frame of which payload bytes are missing is reported incomplete if and only if its whole length fits an int |
| WebSocket.ClientPart | lae/source/LXZMessage.cpp:182-197 | a masked frame cut anywhere behind its header is reported incomplete exactly while more than four bytes are missing and header and payload fit an int; otherwise it is read past its end or past the largest int |
| WebSocket.ClientPartReadsOn | lae/source/LXZMessage.cpp:182-201 | what such a frame is then taken for, and that the length reported is beyond the bytes received or does not fit an int |
| WebSocket.LostByteWitness | lae/source/LXZMessage.cpp:182-201 | a one-byte text frame whose last byte has not arrived is delivered with a byte made up |
| WebSocket.ClientFrameReturns | lae/source/LXZMessage.cpp:186-197 | a client's frame, whose octets are bit by bit the exclusive or of payload and mask, is unmasked to its payload, for every mask, if and only if its length fits an int |
| WebSocket.SetAppends | lae/source/LXZMessage.cpp:102-139 | setting frames one after the other leaves their concatenation in the message |
| WebSocket.StreamReturns | lae/source/LXZMessage.cpp:102-222 | frames taken off one by one, each dropped by its reported length, are exactly the packets sent, if and only if every frame fits an int and the last payload is not empty; bytes are read past the end, or a sum overflows, if and only if some frame does not fit |
| WebSocket.ClientStreamReturns | lae/source/LXZMessage.cpp:141-222 | frames that clients send for a list of packets, each with a mask of its own, are received as those packets, empty payloads included, if and only if every frame fits an int |
| WebSocket.Send | lae/source/LXZMessage.cpp:102-139 | setting frames into one message, across its growth from inline bytes to the heap, leaves the sent stream in it |
| WebSocket.Receive | lae/source/LXZMessage.cpp:141-222 | reading a frame into a message and dropping its reported length from the front, over and over, gives exactly the frames of the stream |
| WebSocket.Exchange | lae/source/LXZMessage.cpp:102-222 | what one side sets the other gets, for frames that fit an int: all packets, but for a last one without payload |

## Left out

- `lae/source/dtoa.c`: the quick floating-point path, which mode 0 never takes; signs, zero, infinities and NaNs; `fpconv_strtod`, `bigcomp`, `gethex`, `ulp`, `b2d`, `ratio`; rounding-mode, 16-bit, locale and non-IEEE branches; `rv_alloc` and `freedtoa`.
- `lae/source/dtoa.c`: the free lists and the list of cached powers are sequences, not chains through `next`; the digit buffer is a sequence; one thread uses the state; memory never runs out; `private_mem` is part of the allocator; block sizes do not overflow an int.
- Bigints.Dtoa.MultAdd: does not cover a factor of zero, nor adding to a zero that is stored with no word, where the code loses the addend.
- Bigints.Dtoa.Mult: does not cover two zeros that are both stored with no word; the code would leave the first word of the result as it was.
- Bigints.Dtoa.Lshift: does not cover zero, for which the code leaves leading zero words.
- Bigints.Dtoa.Pow5Mult: does not cover zero, for the same reason as the multiplications it is made of.
- WorkerPool.BoundIsReached: is for a limit of at least one; `WorkerPool.QueueBound` says that with a limit of zero every queue stays empty.
- Conversions.S2b: characters are given as digit values; the caller supplies the value of the first nine digits, as `fpconv_strtod` does.
- Worker pool: running Lua code, timing, semaphore failures, the Windows branch, and changes of the limit while posters are at work; a critical section is one step.
- JSON: number printing and scanning are two functions with stated assumptions (at most 32 bytes of text, scanning stays inside the text and stops before a delimiter, printed numbers scan back and are JSON numbers); surrogates by themselves, which the decoder refuses; `lua_checkstack`; error messages; sizes that overflow an int.
- JsonEncoder.ArrayLength: an infinite number as a key is not an index here; the code converts it to an int, which C leaves undefined.
- StrBuf.StringBuffer.Resize: does not cover a size below the stored length, which would leave the length beyond the buffer.
- StrBuf.StringBuffer.CalculateNewSize: buffers keep the default growth factor; `StrBuf.NewSize` covers the others.
- JsonParser.Parser.NextStringToken: a token carries the string rather than a pointer to it; the contract says that the temporary buffer holds that string when the token is returned.
- MIME: Lua's string buffer is a sequence of bytes; markers are any byte strings, the round trips are for CRLF and "=0D=0A".
- MemFile.CIMemFile.Write: sizes do not overflow `size_t`; copying a store and `Initial` on an existing file are not modelled.
- WebSocket.Message.GetWebSocketFrame: a frame whose header, mask or payload goes on past the end of memory, one whose length with header and mask does not fit an int, and 64-bit lengths whose high four bytes are not zero are outside its contract, since the code then reads memory it was not given; an int that overflows is taken to wrap, which C++ leaves undefined; messages are in writing mode, and any number of bytes may have been received.
- `Lib/lae`, `LXZCoreCfg.cpp`, `snapshot.c`, `lfs.c`, `lua-socket.c`, the multi-byte overloads of `IArchive.cpp`, the event server and the HTTPS code: near-copies, thin layers over libraries, or input and output.
