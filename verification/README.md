# Sashfold, verified

A Dafny model of the algorithms and protocols of the Sashfold browser that hold state, loop and branch the most, and
proofs of what they are for. Each module is one component; `dafny verify dfyconfig.toml` checks all of them.

- **The JBIG2 encoder** of `tools/pdf-make-jbig2-tests.py` (ITU-T T.88). `Mq` has the exact interval coder over unbounded
  integers and the register coder with carries and bit stuffing that refines it; `MqEncoder` is the class that codes;
  `MqDecoder` the decoder of section E.3; `MqTape` whole runs. On top of it are `IntegerCodes` (Annex A),
  `GenericRegion` (6.2), `RefinementRegion` (6.3), `Halftone` (Annex C), and for Huffman coding `CanonicalCodes`,
  `HuffmanTables`, `HuffmanLengths`, `FibonacciCounts`, `IdTable` (B.3, 7.4.3.1.7); `TextStrips`, `TextRegion` and
  `TextTables` are 6.4.5 over both, and `TextCoding` a Huffman-coded region as a whole. Every decoder here is written from the
  standard, with tables, templates and corners of its own, and the theorems say that it undoes the encoder.
- **The streaming text decoder and encoder** of `src/bindings/Binary.cpp`. `Utf8` is table 3-7 of the Unicode Standard;
  `TextItems` the decoders as machines over bytes; `Utf8Exact` and `Utf16Exact` say which code points and errors those give,
  in terms of rules that know no decoder; `TextDecoding` is whole calls and streams of calls, `TextDecoder` the object with
  its fields, `TextEncoding` the encoder, encodeInto and the round trip.
- **The profile writer** of `src/main.cpp`: `ProfileWriter` (hand-overs, thread and disk), `ProfileChanges` (the change
  counters, with page threads), `ProfileThread` (the class and the pass of save_profile).
- **BroadcastChannel** across agents (`BroadcastChannel`), every interleaving of construction, posting, closing, realms that
  end and tasks that run.
- **Civil-calendar arithmetic** (`Calendar`, `ClockText`), **packed Unicode tables** (`Pairs`, `CaseRuns`, `RangeTables`,
  `Decomposition`), **Huffman trees of AAC** (`Codewords`, `CodewordWalk`), **interface placement** (`Placement`), **Attr
  identity** (`Attributes`, `AttributeEffects`, `AttributeNodes`), **live collections** (`Collections`), **keyframes and frame callbacks**
  (`PropertyNames`, `Keyframes`, `FrameCallbacks`). `ByteTypes`, `Wrappers`, `Orders` and `Powers` hold what they share.

A concurrent protocol is a machine whose actions are what a thread does under one lock; its theorems are over every run.
Code that changes fields is a class whose methods are each proved equal to a function, and what is promised is proved of
the function. Beside the theorems over runs, each act of a machine has a lemma that says field by field what it changes.

What the code does where its documentation says more, or where a promise has a condition:

- `IntCtx` codes an integer in 32 bits above 4436, so that it comes back exactly if its magnitude is below 4436 + 2^32;
  `IaidCtx` exactly if the identifier is below 2^length.
- `id_table` gives lengths back exactly if none is above 31: 32 to 34 are run codes. `huffman_lengths` gives a longer
  one only for counts that sum to 5702887 at least, and for the Fibonacci numbers of that sum it does.
- Huffman strip deltas are all at least 1, as table B.11 needs, exactly if no T is negative.
- postMessage reads its channel's flag before it serializes: a channel that a getter closes meanwhile still sends. The
  model lets any act come between the two.
- The UTF-16 decoders give one error for a half pair and a half unit together at the end of the input.
- A collection's cache is right exactly if a query that reads attributes is flagged so.
- Reading a counter after the text is made loses changes of other threads (`ProfileChanges.CounterAfterLoses`); the source
  does that for the bookmarks alone, which its own thread changes.

## Model

| member | source | states |
|---|---|---|
| Mq.StartIsWhole | tools/pdf-make-jbig2-tests.py:113-115 | the coder starts as the whole interval, with the byte before the first at 0 |
| Mq.ByteOutExact | tools/pdf-make-jbig2-tests.py:146-166 | BYTEOUT changes nothing of the number that bytes and register spell: 8 bits apart, 7 after 0xFF, a carry included |
| Mq.ByteOutMarkers | tools/pdf-make-jbig2-tests.py:146-166 | a carry reaches one byte and never overflows it; the byte after 0xFF is at most 0x8F; the dropped first byte stays 0 |
| Mq.ByteOutValid | tools/pdf-make-jbig2-tests.py:146-166 | what every step keeps is kept by BYTEOUT, with c below 2^28 as it is reached |
| Mq.RenormExact | tools/pdf-make-jbig2-tests.py:137-144 | RENORME, byte by byte, is doubling the exact interval until it is wide enough |
| Mq.EncodeExact | tools/pdf-make-jbig2-tests.py:117-144 | a decision coded in the registers is a decision of the interval coder over unbounded integers; 0x8000 <= a <= 0xFFFF, c < 2^28 and ct >= 1 after it |
| Mq.RegisterBound | tools/pdf-make-jbig2-tests.py:112-144 | c stays below 2^28 |
| MqTape.EncodeRefines | tools/pdf-make-jbig2-tests.py:112-144 | over any run of decisions and contexts, bytes and registers are exactly the interval of unbounded integers |
| MqDecoder.FlushInside | tools/pdf-make-jbig2-tests.py:168-181 | the flushed bytes, continued with 1 bits, lie in the last interval, and hold no marker |
| MqTape.RunInside | tools/pdf-make-jbig2-tests.py:112-181 | the same for every run |
| MqDecoder.CoversEncode | tools/pdf-make-jbig2-tests.py:117-144 | bytes that finish the coder after a decision lie in the part of the interval that decision took |
| MqDecoder.DecodeInStep | tools/pdf-make-jbig2-tests.py:117-144 | DECODE of section E.3 of T.88, with its own table and its own adaptation, answers the decision that was coded, leaves the context as the encoder does and stays in step |
| MqDecoder.SameTable | tools/pdf-make-jbig2-tests.py:91-101 | the encoder's rows of Table E.1 are the decoder's columns of it |
| MqDecoder.AdaptExactly | tools/pdf-make-jbig2-tests.py:117-135 | after a decision a context moves to its NMPS or NLPS state; the more probable symbol changes exactly after the less probable one in states 0, 6 and 14 |
| MqTape.RoundTrip | tools/pdf-make-jbig2-tests.py:112-181 | for every sequence of contexts and decisions, decoding what was flushed gives back exactly the decisions |
| MqTape.TwoOnes | tools/pdf-make-jbig2-tests.py:112-181 | known answer: decisions 1 and 1 under a fresh context leave it in state 2 with 1 the likelier, and flush to FF 7F FF AC |
| MqTape.FlushNone | tools/pdf-make-jbig2-tests.py:168-181 | known answer: no decision flushes to FF 7F FF AC |
| MqTape.FlushEnds | tools/pdf-make-jbig2-tests.py:168-181 | the data are the bytes after the first, then FF AC, with an FF at their end taken for that of the marker; and hold no marker before it |
| MqEncoder.MQ.PutByte | tools/pdf-make-jbig2-tests.py:146-166 | the register fields and the byte list move as BYTEOUT is specified |
| MqEncoder.MQ.Renormalize | tools/pdf-make-jbig2-tests.py:137-144 | the loop comes to RENORME |
| MqEncoder.MQ.Code | tools/pdf-make-jbig2-tests.py:117-144 | a call changes registers, bytes and the context arrays as one decision is specified, by the function that DecodeInStep and AdaptExactly are about |
| MqEncoder.MQ.Finish | tools/pdf-make-jbig2-tests.py:168-181 | the bytes answered are those of FLUSH with SETBITS and the marker |
| MqEncoder.BlankExactly | tools/pdf-make-jbig2-tests.py:106-110 | contexts start in state 0 with 0 the likelier symbol |
| IntegerCodes.IntKeys | tools/pdf-make-jbig2-tests.py:194-197 | PREV is always one of the 512 contexts |
| IntegerCodes.PrevExactly | tools/pdf-make-jbig2-tests.py:194-197 | PREV is a 1 and the bits so far, up to eight, and from then on 0x100 and the last eight |
| IntegerCodes.IdKeys | tools/pdf-make-jbig2-tests.py:220-228 | PREV of an identifier stays within the context array of twice the codes |
| IntegerCodes.ReadIntBack | tools/pdf-make-jbig2-tests.py:191-215 | the decoder of Annex A, with its own Table A.1, gives back what 32 bits keep of an integer, out-of-band included |
| IntegerCodes.KeptExactly | tools/pdf-make-jbig2-tests.py:204-214 | that is the integer itself exactly where |v| < 4436 + 2^32 |
| IntegerCodes.FirstBeyond | tools/pdf-make-jbig2-tests.py:204-214 | 4436 + 2^32, the first integer beyond, is coded all the same and read as 4436 |
| IntegerCodes.IntegersRoundTrip | tools/pdf-make-jbig2-tests.py:185-215 | a list of integers coded and flushed comes back from its bytes exactly if each is in that range |
| IntegerCodes.ReadIdBack | tools/pdf-make-jbig2-tests.py:218-228 | an identifier comes back cut to the code length, so exactly if it is below 2^length |
| IntegerCodes.IntCtx.Enc | tools/pdf-make-jbig2-tests.py:191-215 | the nested bit writers code the decisions of the integer |
| IntegerCodes.IaidCtx.Enc | tools/pdf-make-jbig2-tests.py:223-228 | the loop codes the decisions of the identifier |
| GenericRegion.EncodeGeneric | tools/pdf-make-jbig2-tests.py:252-271 | row and pixel loops over padded rows code the decisions of the region, typical rows left out |
| GenericRegion.ReadRegionBack | tools/pdf-make-jbig2-tests.py:252-271 | the decoder, with its own figures and context of 6.2.5, forms each context from pixels it has and rebuilds skipped rows, whatever follows |
| GenericRegion.TemplateIsFigure | tools/pdf-make-jbig2-tests.py:236-245 | the templates are the figures 3 to 6, written row by row from their first pixel to their last |
| GenericRegion.RowSpends | tools/pdf-make-jbig2-tests.py:252-271 | a row is typical exactly if it repeats the row above; with prediction one decision is made of a typical row, else one and one for each pixel |
| GenericRegion.GenericRoundTrip | tools/pdf-make-jbig2-tests.py:236-271 | for every bitmap, template, causal adaptive pixels and either prediction, the bytes decode to the bitmap (6.2) |
| RefinementRegion.EncodeRefine | tools/pdf-make-jbig2-tests.py:287-318 | the loops code the decisions of the refinement, pixels told by uniform neighbourhoods left out, for all adaptive pixels the padding of both bitmaps has room for |
| RefinementRegion.InReachExactly | tools/pdf-make-jbig2-tests.py:287-318 | and these are exactly the pixels whose every read, a negative index counted from the end, finds the pixel meant |
| RefinementRegion.ReadRegionBack | tools/pdf-make-jbig2-tests.py:287-318 | the decoder, with its own figures 12 and 13 and its own reading of what neighbourhoods tell, rebuilds coded and predicted pixels alike (6.3.5.6) |
| RefinementRegion.TemplateIsFigure | tools/pdf-make-jbig2-tests.py:275-285 | the templates are those figures |
| RefinementRegion.RowSpends | tools/pdf-make-jbig2-tests.py:287-318 | a row is typical exactly if each pixel told by an alike neighbourhood is as told; a typical row is coded as one decision and its untold pixels, another as one and all its pixels |
| RefinementRegion.RefinementRoundTrip | tools/pdf-make-jbig2-tests.py:275-318 | for every bitmap, reference, offset, template and either prediction, the bytes decode to the bitmap (6.3), the row flag read in context 0x10, or 0x04 for template 1; 0x11 where the second adaptive pixel is the reference pixel of the place itself |
| Halftone.EncodePlanes | tools/pdf-make-jbig2-tests.py:733-749 | the Gray-coded planes go from the most significant through one coder and one context set |
| Halftone.GrownHigh | tools/pdf-make-jbig2-tests.py:737-741 | undoing the Gray code of a plane gives one more bit of each value |
| Halftone.HalftoneRoundTrip | tools/pdf-make-jbig2-tests.py:729-749 | the procedure of Annex C.5 gives the gray values back from the bytes, exactly if nbits planes can hold them |
| BitStrings.Bits.Put | tools/pdf-make-jbig2-tests.py:354-360 | the bits of the number join the stream, most significant first |
| BitStrings.Bits.Align | tools/pdf-make-jbig2-tests.py:362-364 | zero bits up to the next byte |
| CanonicalCodes.Assign | tools/pdf-make-jbig2-tests.py:392-406 | the loops assign the canonical codes of B.3 |
| CanonicalCodes.CodeExactly | tools/pdf-make-jbig2-tests.py:396-406 | a code is the number of codes of its length that fit before it: the shares of all shorter codes, and of those of its length before it |
| CanonicalCodes.CodeFits | tools/pdf-make-jbig2-tests.py:396-406 | lengths of Kraft sum at most 1 give codes that fit in their lengths |
| CanonicalCodes.PrefixFree | tools/pdf-make-jbig2-tests.py:396-406 | no code of such lengths starts another |
| CanonicalCodes.FitsOnlyWithin | tools/pdf-make-jbig2-tests.py:396-406 | and only lengths of Kraft sum at most 1 give codes that all fit |
| HuffmanTables.PutValue | tools/pdf-make-jbig2-tests.py:408-425 | the first line that hits gives code and offset; no line, no bits and the error |
| HuffmanTables.ReadWholeCode | tools/pdf-make-jbig2-tests.py:396-425 | a code is read back as its line, whatever follows |
| HuffmanTables.ReadValueBack | tools/pdf-make-jbig2-tests.py:408-425 | the bits of a value decode to it exactly if its offset fits the line, out-of-band included |
| HuffmanLengths.Lengths | tools/pdf-make-jbig2-tests.py:428-438 | joining the two least trees until one is left, as the function LengthsOf; two or more counts give lengths of Kraft sum exactly 1; a length l needs counts that sum to Fibonacci(l + 2) at least |
| HuffmanLengths.ShortEnough | tools/pdf-make-jbig2-tests.py:428-438 | so counts that sum to less than 5702887 give lengths of at most 31, which the table of lengths can tell |
| FibonacciCounts.Attained | tools/pdf-make-jbig2-tests.py:428-438 | the bound is attained for every length: n counts 1, 1, 1, 2, 3, 5, ... sum to Fibonacci(n + 1) and the first code has n - 1 bits |
| FibonacciCounts.LostAtTheBound | tools/pdf-make-jbig2-tests.py:428-438 | so 33 such counts sum to 5702887 and give a code of 32 bits, which its table loses |
| IdTable.RunsExactly | tools/pdf-make-jbig2-tests.py:653-671 | expanding the run codes gives back the lengths exactly if each is at most 31 |
| IdTable.RunsAreRuns | tools/pdf-make-jbig2-tests.py:653-671 | a run of equal lengths becomes its run codes in closed form, and then the rest follows |
| IdTable.PrefixLeast | tools/pdf-make-jbig2-tests.py:672-683 | the run codes are given the least number of bits, from 1 up, in which there are enough codes |
| IdTable.TableRoundTrip | tools/pdf-make-jbig2-tests.py:650-683 | the whole bit table, run code lengths included, reads back as the lengths (7.4.3.1.7) exactly if none is above 31 |
| IdTable.RunsWritable | tools/pdf-make-jbig2-tests.py:653-682 | there are codes for all run codes exactly if no length is above 34 |
| IdTable.Length32Lost | tools/pdf-make-jbig2-tests.py:668-682 | a single length of 32 is written and not read back |
| IdTable.PutTable | tools/pdf-make-jbig2-tests.py:672-683 | the loops write that table, or fail where a run code has no code |
| TextTables.StandardTablesDecodable | tools/pdf-make-jbig2-tests.py:381-388 | tables B.6, B.8 and B.11 have Kraft sum exactly 1, so no code of theirs begins another |
| TextTables.B6Exactly | tools/pdf-make-jbig2-tests.py:381-388 | table B.6 is its twelve ranges with their first and last values and prefix lengths, then those below and above |
| TextTables.B8Exactly | tools/pdf-make-jbig2-tests.py:381-388 | table B.8 likewise, with out-of-band |
| TextTables.B11Exactly | tools/pdf-make-jbig2-tests.py:381-388 | table B.11 likewise, with nothing below |
| TextTables.B11Hits | tools/pdf-make-jbig2-tests.py:387-388 | table B.11 can code a value exactly if it is at least 1 |
| TextStrips.Strips | tools/pdf-make-jbig2-tests.py:573-587 | every instance is in one strip, that of its T, the strips in order and each sorted by S, those of one S in the order they were |
| TextStrips.TExactly | tools/pdf-make-jbig2-tests.py:573-587 | T is the coordinate of the reference corner, corner by corner: y for TL and TR, y + h - 1 for BL and BR, and transposed x for TL and BL, x + w - 1 for TR and BR |
| TextStrips.DeltasPositive | tools/pdf-make-jbig2-tests.py:603-622 | strip deltas are all at least 1 exactly if no T is below 0 |
| TextTables.NegativeT | tools/pdf-make-jbig2-tests.py:408-425 | one instance with its T at -1 has strip delta 0, for which table B.11 has no line |
| TextTables.FitsExactly | tools/pdf-make-jbig2-tests.py:381-425 | a value has a code whose offset is whole exactly if it is within 2^32 of the table's bounded range, and in B.11 at least 1 |
| TextStrips.EmitRegion | tools/pdf-make-jbig2-tests.py:619-646 | the loops emit the region's values: deltas, first S, S differences, T in the strip, identifiers and ends |
| TextRegion.ReadRegionBack | tools/pdf-make-jbig2-tests.py:590-647 | the decoder of 6.4.5, which draws a symbol by its own four corners, gives exactly the instances, each once, from any source that carries the values |
| TextRegion.ArithmeticRoundTrip | tools/pdf-make-jbig2-tests.py:604-647 | arithmetically coded, whenever the values are codable |
| TextRegion.ContextsExactly | tools/pdf-make-jbig2-tests.py:186-221 | each kind of integer has 512 contexts of its own, identifiers twice their number of codes, all in the first state |
| TextRegion.HuffmanRoundTrip | tools/pdf-make-jbig2-tests.py:609-647 | Huffman coded, whenever the tables have room for the values |
| TextTables.HuffmanRegion | tools/pdf-make-jbig2-tests.py:590-647 | with the standard tables, whenever every difference is in the range of its table |
| TextTables.ArithmeticRegion | tools/pdf-make-jbig2-tests.py:590-647 | with the arithmetic coder, whenever Table A.1 has codes for every difference |
| TextCoding.CompleteDecodable | tools/pdf-make-jbig2-tests.py:428-438 | lengths made from counts, one or none included, can be told apart code by code |
| TextCoding.TextRoundTrip | tools/pdf-make-jbig2-tests.py:609-683 | the chain as one: counts that sum to less than 5702887 give lengths whose table, and with it the region, is decoded to the instances, whatever follows either |
| TextCoding.CodeText | tools/pdf-make-jbig2-tests.py:590-647 | the loops, from the instances to the table and the region: a symbol counts 1 and once more for each of its instances; fewer than 5702887 symbols and instances with differences in range are coded, and decode to each instance once |
| Utf8.BytesWellFormed | src/bindings/Binary.cpp:60-73 | the bytes of a scalar value are well-formed and have its value |
| Utf8.WellFormedBytes | src/bindings/Binary.cpp:60-73 | and a well-formed sequence is the bytes of a scalar value, no surrogate and nothing above 0x10FFFF |
| TextDecoder.AskedOnce | src/bindings/Binary.cpp:295-307 | a byte is offered again only once: after the reset it is not asked for again |
| Utf8Exact.SubpartMaximal | src/bindings/Binary.cpp:223-269 | the parts of the reference rule are maximal |
| Utf8Exact.DecodesMaximal | src/bindings/Binary.cpp:223-313 | the decoder's code points and errors are, for every input, those of the Unicode rule: one for each well-formed sequence or maximal subpart |
| Utf8Exact.ScalarsOnly | src/bindings/Binary.cpp:223-313 | no surrogate or value above 0x10FFFF is ever given |
| Utf8Exact.NoErrorIffText | src/bindings/Binary.cpp:223-313 | no error exactly if the bytes are UTF-8 |
| Utf16Exact.DecodesRule16 | src/bindings/Binary.cpp:314-354 | the UTF-16 decoders give what reading the whole input in units gives, one error for all that is unfinished at the end |
| Utf16Exact.ScalarsOnly16 | src/bindings/Binary.cpp:314-354 | no lone surrogate comes out |
| Utf16Exact.NoErrorIffText16 | src/bindings/Binary.cpp:314-354 | no error exactly if the bytes are UTF-16 |
| TextDecoding.EmitsAll | src/bindings/Binary.cpp:278-293 | one byte order mark is skipped, at the very start only; fatal means no error at all |
| TextDecoding.ChunkingIndependent | src/bindings/Binary.cpp:272-371 | however the bytes are split over calls, the strings joined, the throwing and the object after are those of one call |
| TextDecoding.Utf8Exactly | src/bindings/Binary.cpp:272-371 | fatal mode succeeds exactly on UTF-8; otherwise one U+FFFD for each maximal ill-formed subpart; code points above 0xFFFF as pairs, a first U+FEFF left out unless it is to be kept |
| TextDecoding.Utf16Exactly | src/bindings/Binary.cpp:314-371 | the same for UTF-16 |
| TextDecoding.SingleExactly | src/bindings/Binary.cpp:354-363 | byte by byte: windows-1252 gives 27 bytes other characters and every other its own; x-user-defined gives those from 0x80 on 0xF780 and up; with no mark skipped and no error |
| TextDecoding.CallsApart | src/bindings/Binary.cpp:488-519 | after a call that ends its stream, or throws, the next answers as the first of a new decoder does |
| TextDecoder.Decoding.Utf8Step | src/bindings/Binary.cpp:223-265 | the fields move as one step of the machine |
| TextDecoder.Decoding.DecodeUtf8 | src/bindings/Binary.cpp:295-312 | the loop that offers a byte again comes to the machine's items, written as they come |
| TextDecoder.Decoding.DecodeUtf16 | src/bindings/Binary.cpp:314-354 | the unit loop, with its two passes, likewise |
| TextDecoder.Decoding.Decode | src/bindings/Binary.cpp:488-519 | a call on the object, of any encoding, answers and leaves what the function of the object says, failure and reset included |
| TextEncoding.PointsUnits | src/bindings/Binary.cpp:60-73 | the code points encoded are the units, each lone surrogate replaced, unit by unit |
| TextEncoding.EncodeUtf8 | src/bindings/Binary.cpp:60-73 | the loop writes the UTF-8 of those |
| TextEncoding.RoundTrip | src/bindings/Binary.cpp:60-371 | decoding what was encoded, split anyhow, in either mode, is the text with lone surrogates replaced, the mark kept or dropped as set |
| TextEncoding.EncodeInto | src/bindings/Binary.cpp:396-430 | the longest run of whole code points that fits; units read, bytes written, nothing else touched |
| ProfileWriter.StepKeeps | src/main.cpp:1747-1796 | every step of either thread keeps the order owed, batch, disk |
| ProfileWriter.NothingLost | src/main.cpp:1747-1796 | at every point of every run a text handed over, unless a later one was for its file, is owed, else in the batch, else on disk unless its write failed |
| ProfileWriter.NewestIs | src/main.cpp:1764-1771 | the newest text of a file is a hand-over for it with none for it after; there is none only if nothing was handed over |
| ProfileWriter.DiskFollows | src/main.cpp:1774-1789 | a file never goes back to an earlier hand-over |
| ProfileWriter.EndsPaid | src/main.cpp:1755-1789 | the thread ends only with nothing owed; then each file holds its newest text |
| ProfileWriter.WriteIs | src/main.cpp:1774-1789 | a write done puts the batch's text of its file on disk, one that fails changes no file; neither touches another file |
| ProfileWriter.AllOnDisk | src/main.cpp:1747-1796 | where no write fails each file holds its newest text when the thread has ended |
| ProfileWriter.EndArrives | src/main.cpp:1755-1789 | once the end is set the thread can always act, and each act leaves less to do |
| ProfileChanges.SavedMeansHeld | src/main.cpp:2470-2496 | under any interleaving with page threads, a part counted as saved has every change in the last text handed over |
| ProfileChanges.EndedMeansOnDisk | src/main.cpp:2435-2538 | and on disk, once the writer has ended |
| ProfileChanges.PassSaves | src/main.cpp:2470-2496 | one pass over a part that changed can be made, and counts it as saved with all its changes handed over |
| ProfileChanges.ChangeIs | src/main.cpp:2470-2496 | a change is one more that is not saved, of that part alone |
| ProfileChanges.CounterAfterLoses | src/main.cpp:2470-2490 | a run in which reading the counter after the text, with another thread changing the part, loses a change |
| ProfileThread.Shared.Write | src/main.cpp:1764-1771 | the hand-over as an action of the machine |
| ProfileThread.Shared.WriteBatch | src/main.cpp:1785-1788 | the loop over the batch is a run of the machine's actions and leaves nothing of the batch |
| ProfileThread.Shared.RunToEnd | src/main.cpp:1774-1790 | the thread's loop, once ending, ends and owes nothing |
| ProfileThread.Shared.Close | src/main.cpp:1755-1763 | the destructor, whatever the thread is at: the end is told and waited for, and all that was owed is written or failed |
| ProfileThread.Saver.Save | src/main.cpp:2442-2538 | a part is handed over exactly if the pass is made and its mark is not the saved one, once, in order, and its text is then the newest of its file in the log; after a pass every mark is saved, and no other changes; a write is owed exactly if throttled and some mark is not the saved one |
| ProfileThread.ChangedExactly | src/main.cpp:2442-2538 | the parts that changed are exactly those whose mark is not the saved one |
| ProfileThread.HandAllExactly | src/main.cpp:1764-1771 | hand-overs are logged in their order, each the newest of its file |
| BroadcastChannel.PostedTo | src/bindings/BroadcastChannel.cpp:120-132 | a message goes to exactly the other channels of its key open at posting in living realms, in creation order |
| BroadcastChannel.CheckExactly | src/bindings/BroadcastChannel.cpp:104-116 | posting begins exactly where the channel is open and its realm eligible |
| BroadcastChannel.PostsChecked | src/bindings/BroadcastChannel.cpp:104-132 | over any run, the messages of a channel posted and yet to be posted are as many as the times posting began |
| BroadcastChannel.PostBegins | src/bindings/BroadcastChannel.cpp:120-132 | the message begins to be sent by the agent of its channel; channels of ended realms leave the list; nothing else changes |
| BroadcastChannel.PushGives | src/bindings/BroadcastChannel.cpp:132-160 | one task goes to the end of the first receiver's agent's queue, and no other queue changes |
| BroadcastChannel.TaskRuns | src/bindings/BroadcastChannel.cpp:134-152 | an agent runs the first of its tasks, and only what it has run changes |
| BroadcastChannel.CloseCloses | src/bindings/BroadcastChannel.cpp:90-102 | closing closes this channel, takes it off the list, and changes nothing else |
| BroadcastChannel.ConstructOpens | src/bindings/BroadcastChannel.cpp:175-200 | a channel constructed has the key and realm given, is open, the newest and the last on the list |
| BroadcastChannel.RealmActs | src/bindings/BroadcastChannel.cpp:82-88 | a realm begins alive and eligible, may stop being eligible and be so again while it lives, and ends for good; each act changes only that |
| BroadcastChannel.AgentBegins | src/bindings/BroadcastChannel.cpp:104-163 | an agent begins with nothing run, nothing waiting and nothing on its way |
| BroadcastChannel.StepKeeps | src/bindings/BroadcastChannel.cpp:90-200 | every step of every agent keeps the invariant of list, queues and sends |
| BroadcastChannel.InOrderAtMostOnce | src/bindings/BroadcastChannel.cpp:104-163 | in every run a channel gets a message at most once, only where posted, and those of one sender in posting order |
| BroadcastChannel.AllArrive | src/bindings/BroadcastChannel.cpp:132-160 | when nothing is on its way every receiver's task has run |
| BroadcastChannel.GoesOn | src/bindings/BroadcastChannel.cpp:132-160 | until then some thread can go on |
| BroadcastChannel.DeliversIff | src/bindings/BroadcastChannel.cpp:134-152 | a task comes to nothing exactly if its channel is closed or its realm not alive or not eligible as it runs; else to the message, or to messageerror where it cannot be read |
| BroadcastChannel.EveryDelivery | src/bindings/BroadcastChannel.cpp:104-163 | over every run that leaves nothing on its way, each receiver of each message has run one task of it, at one step, and what came of it is told by its channel and realm at that step |
| BroadcastChannel.NeverAfterClose | src/bindings/BroadcastChannel.cpp:90-150 | in any run that closes a channel: from there on it is closed and off the list, no task of its delivers a message, and no message is posted to it |
| BroadcastChannel.NeverAfterEnd | src/bindings/BroadcastChannel.cpp:118-140 | in any run that ends a realm: from there on the same is true of every channel of its |
| Calendar.DateRoundTrip | tools/sashfold100.cpp:462-480 | from every date of every year to its number and back |
| Calendar.NumberRoundTrip | tools/sashfold100.cpp:462-480 | from every integer to a valid date and back |
| Calendar.Epoch | tools/sashfold100.cpp:462-480 | 1970-01-01 is 0 |
| Calendar.NextNumber | tools/sashfold100.cpp:462-469 | days that follow each other have numbers that differ by 1 |
| Calendar.YearBack | tools/sashfold100.cpp:473-474 | the year is recovered from every day of an era of 400 years |
| Calendar.SevenHoursBefore | tools/sashfold100.cpp:481-496 | date, hour on the dial, minute and half of the day show the minute seven hours before the moment |
| Calendar.OneClock | tools/sashfold100.cpp:481-498 | and nothing else shows that moment |
| ClockText.ReadBack | tools/sashfold100.cpp:495-498 | the text printed is read in one way only, as the clock it was printed from, whatever the year |
| ClockText.Form | tools/sashfold100.cpp:495-498 | the text has the year, then -MM-DD in two digits each, a space, the hour in as few digits as it has, a colon, the minute in two, a space, AM or PM, and MST: each at its place |
| ClockText.YearForm | tools/sashfold100.cpp:495-498 | the year has four places while they are enough for it, zeros and sign included, and else as many as it takes |
| ClockText.PrintedTime | tools/sashfold100.cpp:459-499 | so the characters printed for any moment show the minute seven hours before it |
| CaseRuns.PackCaseRuns | tools/gen-unicode.cpp:222-252 | the greedy loop's runs spell the sorted mappings out again, for any list |
| CaseRuns.PackedMeans | tools/gen-unicode.cpp:222-252 | mappings of distinct code points give disjoint sorted runs that answer as the mappings do |
| RangeTables.Merged | tools/gen-unicode.cpp:255-266 | the ranges merged cover the same code points, in canonical form |
| RangeTables.CanonicalUnique | tools/gen-unicode.cpp:255-266 | and that form is the only one |
| RangeTables.InRanges | tools/gen-unicode.cpp:383-391 | bisection finds a code point exactly if a range holds it |
| RangeTables.LoadProperty | tools/gen-unicode.cpp:396-436 | each code point has what its last listed name is resolved to for it, else its last default, else the first value |
| RangeTables.LatestIs | tools/gen-unicode.cpp:396-436 | that name is of a line that holds the code point and ends in time, with no such line after it |
| RangeTables.Runs | tools/gen-unicode.cpp:504-523 | a sorted table that leaves the default out answers the value of every code point, with no two entries that could be one |
| RangeTables.ShortestTable | tools/gen-unicode.cpp:504-523 | and no sorted table with its answers has fewer entries |
| RangeTables.Search | src/core/WordBreak.cpp:11-19 | the bisection that reads such a table answers what the table says, and nothing where it says nothing |
| RangeTables.LookupIs | src/core/WordBreak.cpp:11-19 | in a sorted table the entry that holds a code point is the only one |
| RangeTables.MergeAgreeing | tools/gen-unicode.cpp:154-165 | joining adjacent entries that agree changes no answer |
| Decomposition.OneNormalForm | tools/gen-unicode.cpp:588-602 | every order of decomposing that ends comes to the full decomposition |
| Decomposition.NothingLeft | tools/gen-unicode.cpp:588-602 | which has nothing left to decompose |
| Decomposition.FullyDecompose | tools/gen-unicode.cpp:588-602 | the recursive loop computes it, and ends where there is no cycle |
| Decomposition.BuildPool | tools/gen-unicode.cpp:677-691 | each entry's slice of the pool is its decomposition |
| Attributes.StepKeeps | src/bindings/Attributes.cpp:99-161 | every operation keeps names unique, maps and owners in agreement |
| Attributes.OneObjectEach | src/bindings/Attributes.cpp:291-301 | after any run an object is in a map exactly if that element owns it, stands for one of its attributes, and shares it with no other object |
| Attributes.KeepsOrLeaves | src/bindings/Attributes.cpp:397-465 | an object keeps its attribute over any operation that does not take it; one that leaves has no owner and reads its last value |
| Attributes.ObjectAt | src/bindings/Attributes.cpp:99-118 | an attribute's index answers the same object each time |
| Attributes.SetNodeAnswers | src/bindings/Attributes.cpp:410-450 | after setting a node the index answers that object, with its value |
| Attributes.SetNodePrevious | src/bindings/Attributes.cpp:430-451 | what is answered is the object that was there, now with no owner and the value there was |
| Attributes.SetNodeHeld | src/bindings/Attributes.cpp:423-428 | an object in use changes nothing; by another element it is an error |
| Attributes.RemovedGone | src/bindings/Realm.cpp:426-436 | removal by namespace and local name leaves exactly the other attributes, in their order, and no attribute of that name |
| Attributes.RemovedQualified | src/bindings/Realm.cpp:400-411 | by qualified name it leaves exactly all but the first attribute that has it |
| AttributeEffects.SetByNameWrites | src/bindings/Realm.cpp:381-398 | the first attribute of the qualified name reads the value, its name and prefix as before; only where there is none, one without namespace is added at the end; no other attribute, element or object is changed, and its Attr object alone reads otherwise |
| AttributeEffects.SetByNsWrites | src/bindings/Realm.cpp:412-424 | the same by namespace and local name |
| AttributeEffects.SetObjectWrites | src/bindings/Attributes.cpp:336-372 | an Attr object set reads the value, and no other reads otherwise; with an owner, the attribute it stands for is written |
| AttributeEffects.PutNodeWrites | src/bindings/Attributes.cpp:410-450 | setting a node writes the object's prefix and value in the attribute of its name, or adds one; no other attribute changes |
| AttributeEffects.GetAttrAnswers | src/bindings/Attributes.cpp:99-118 | an index answers an object of that element and name that reads that attribute; beyond the last, none |
| AttributeEffects.NewBegins | src/bindings/Attributes.cpp:386-395 | a new Attr object has no owner and reads what it was made with |
| AttributeEffects.OthersReadOn | src/bindings/Attributes.cpp:99-161 | making, removing, replacing and moving change what no object reads, whether it stands for an attribute or not |
| AttributeNodes.Document.AttrAt | src/bindings/Attributes.cpp:99-118 | the search and the new object, as the function |
| AttributeNodes.Document.LetGo | src/bindings/Attributes.cpp:150-161 | the search and the erasure, as the function |
| AttributeNodes.Document.SetAttributeNode | src/bindings/Attributes.cpp:410-451 | the steps in their order, as the function |
| AttributeNodes.Document.RemoveAttributeNode | src/bindings/Attributes.cpp:454-465 | likewise, the error included |
| AttributeNodes.Document.SetAttribute | src/bindings/Realm.cpp:381-398 | the loop and the write, as the function that SetByNameWrites is about |
| Keyframes.Spread | src/bindings/Animations.cpp:820-846 | the loops make keyframes at strictly rising offsets, each with all that stands at its offset, in order |
| Keyframes.Conserved | src/bindings/Animations.cpp:820-846 | value i of n of each property is at i/(n-1), or 1 if alone, once; and nowhere else, for properties of distinct names |
| Keyframes.OffsetEven | src/bindings/Animations.cpp:820-846 | value i of n stands at i/(n-1), one alone at 1 |
| Keyframes.InOrderAt | src/bindings/Animations.cpp:820-846 | what stands at one offset stands in the order of the properties |
| Keyframes.Complete | src/bindings/Animations.cpp:844-902 | offsets go to the first keyframes, easings and composites round all; offsets that fall or lie outside [0, 1] are errors; so is any easing that does not parse, taken or not, and the first of them is named |
| PropertyNames.CssName | src/bindings/Animations.cpp:264-292 | the loop is the function from attribute names to CSS names |
| PropertyNames.IdlName | src/bindings/Animations.cpp:236-260 | and the other the function back |
| PropertyNames.AttributeBack | src/bindings/Animations.cpp:236-292 | every attribute name that has a CSS name comes back from it |
| PropertyNames.CssBackIff | src/bindings/Animations.cpp:236-292 | a CSS name comes back from its attribute name exactly if an attribute stands for it: a custom property, or a name without capitals, with a small letter after each dash, that begins with a dash only as -webkit- and is not webkit-, css-float or css-offset |
| PropertyNames.DashedExactly | src/bindings/Animations.cpp:264-292 | names are dashed piece by piece: a capital gives a dash and the letter 32 above it |
| PropertyNames.RenamedNames | src/bindings/Animations.cpp:264-292 | known answers: the two names that are other words, and those that no attribute has |
| PropertyNames.MadeNames | src/bindings/Animations.cpp:264-292 | known answers: zIndex and webkitClip |
| PropertyNames.NamesExactly | src/bindings/Animations.cpp:719-745 | a key names a property exactly if it is a custom property with a name, or its CSS name is known |
| PropertyNames.BeforeExactly | src/bindings/Animations.cpp:745-757 | names are ordered by the first character where they differ, a shorter one first |
| PropertyNames.ReadProperties | src/bindings/Animations.cpp:719-757 | the loops read the keys that name a property, in the order of the names |
| PropertyNames.ReadOnce | src/bindings/Animations.cpp:719-757 | distinct keys give properties of distinct names, in the order of the keys, none left out and none added |
| PropertyNames.KeyConserved | src/bindings/Animations.cpp:719-846 | from an object's keys to the keyframes: each value of a key is at its place there, once, and nowhere else |
| FrameCallbacks.StepKeeps | src/bindings/Animations.cpp:1354-1378 | every act, those of a running callback included, keeps the invariant of the queue |
| FrameCallbacks.InOrderOnceLater | src/bindings/Animations.cpp:1354-1462 | callbacks run in the order asked, so once at most, and never in the update in which they were asked for |
| FrameCallbacks.NeverAfterCancel | src/bindings/Animations.cpp:1464-1468 | a cancelled callback runs no more, whatever comes |
| FrameCallbacks.NeverOnceGone | src/bindings/Animations.cpp:1366-1370 | in any run that ends or discards a realm, no callback of its that waits then or is asked for after ever runs |
| FrameCallbacks.RequestIs | src/bindings/Animations.cpp:1451-1462 | asking appends one callback, of a new number and the owner that asks |
| FrameCallbacks.CancelIs | src/bindings/Animations.cpp:1464-1468 | a cancel drops the caller's own callback of the number, and no other |
| FrameCallbacks.SweepIs | src/bindings/Animations.cpp:1402-1402 | an update first drops the callbacks of realms that ended, and no other |
| FrameCallbacks.UnloadIs | src/bindings/Realm.cpp:3071-3071 | a document that unloads drops its own callbacks, and no other |
| FrameCallbacks.NextIs | src/bindings/Animations.cpp:1358-1376 | the next one noted leaves the queue, and runs exactly if its realm has not ended nor been discarded |
| FrameCallbacks.TurnComes | src/bindings/Animations.cpp:1354-1378 | each callback there as an update begins runs in it before it is over, unless it is cancelled, its realm ends or is discarded, its document unloads or the interpreter stops |
| FrameCallbacks.OnlyNewLeft | src/bindings/Animations.cpp:1354-1378 | what is left as an update is over was asked for during it |
| Codewords.PassesIff | tools/gen-aac-tables.py:32-52 | the assertions pass exactly if no value is reused for another codeword and every half leaf is in the slot beside its own too |
| Codewords.DecodesAsTree | tools/gen-aac-tables.py:32-53 | then of any bits, however few, the codeword that is at their start is that of the tree walk over them and whatever follows, with its value and length |
| CodewordWalk.Book.Walk | tools/gen-aac-tables.py:34-49 | the recursive walk over the node table fills the dictionary so |
| CodewordWalk.SlotMeans | tools/gen-aac-tables.py:28-49 | an entry 4v + 1 is the leaf v, 4v + 3 the half leaf, and 4m leads to node m |
| CodewordWalk.Book.Codewords | tools/gen-aac-tables.py:32-53 | and the whole, Kraft sum included, comes to the entries, each once and in the order of their values, or a failed assertion |
| Placement.EndsIff | tools/gen-bindings.cpp:451-469 | the way up from an interface ends exactly if it enters no cycle |
| Placement.Place | tools/gen-bindings.cpp:437-469 | the passes end; a double or undeclared name is named; else failure exactly on an uncut cycle; else each interface not existing is in the order once, after its parent |
| Collections.FreshIff | src/bindings/Collections.cpp:65-83 | every read is what a fresh query would give, over any interleaving of changes, exactly if a query that reads attributes is flagged |
| Collections.Stale | src/bindings/Collections.cpp:73-81 | the run that shows it for one that is not |
| Collections.NoneOnceDetached | src/bindings/Collections.cpp:65-70 | once its root is gone for good a collection has no members, whatever else happens |
| Collections.LiveCollection.Members | src/bindings/Collections.cpp:65-83 | the fields move as the cache is specified |

## Left out

- ProfileThread.Saver.Save: the marks and texts of one pass are one reading; what page threads change between two readings is `ProfileChanges`
- ProfileWriter.NothingLost: a write is atomic and the failure of a write is an action; the temporary file beside it is not modelled
- BroadcastChannel.EveryDelivery: whether a message can be deserialized is given with the task; structured serialization itself is not modelled
- Keyframes.Spread: offsets are exact numbers, where the source has doubles; a value the property does not take is dropped afterwards in the source
- PropertyNames.ReadProperties: the keys and what each holds are given; getters and the conversions to text are not modelled
- Collections.FreshIff: for a root that stays in one document
- Symbol dictionaries, MMR, the refinement of text instances, pattern dictionaries, halftone rendering and segment headers of the JBIG2 encoder
- Widths of machine integers in the text decoder and the calendar: code points stay below 0x110000 by proof, and day counts are mathematical integers
- `Blob`, and the script-facing checks around encode and decode
- Attribute hooks that run script, Trusted Types and detached wrappers
- `next_rendering_update`, whose grid of frame times is floating point; CSS animations and events
- The parsers and writers of notification sites and of JSON strings in `src/main.cpp`, and the lexer of `tools/gen-bindings.cpp`: they would add easier members
- The JavaScript interpreter, rooting and garbage collection; script appears as operations in any order
- Rendering, networking, the window loop and command lines
