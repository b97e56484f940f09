# A verified model of the data library's exact core

This project models the parts of the C++ library under `cpp/src` whose correctness rests on an argument rather than on a
reading of the code, and proves those arguments in Dafny 4.11. `dafny verify dfyconfig.toml` checks everything.

What is modelled, and in which files:

- **Big unsigned integers** (`Limbs`, `AlgorithmD`, `Shifts`, `BigUnsigned`, `DecimalText`): base-2^32 limbs changed in
  place, Knuth's Algorithm D over arrays, decimal text. Every 64-bit intermediate has the type `u64`, so that a
  wrap-around would be a verification error.
- **The write fence** (`WriteFence`): the constraints of a table as a transition system. Any number of executors run
  prepare, freeze, advance and release call by call and may crash between any two calls; inserts are admitted against the
  constraints of one moment and may commit at a later one.
- **Backfill and verify** (`Tables`, `Backfill`, `Verify`, `FrozenVerify`): the copy protocol as a transition system and
  as the loop that runs it, the windowed comparison, and the comparison under write barriers.
- **The book stream** (`BookSides`, `BookLog`, `BookStream`): the log that one side of a stream may produce, what every
  such log promises whatever the sink does after a failed send, and the class whose calls only produce such logs; each
  call's contract gives the message, the time and the new state in terms of the fields before it.
- **JSON, the canonical encoding and model identity** (`Json`, `JsonNumbers`, `JsonGrammar`, `JsonDepth`, `JsonParser`,
  `JsonRoundTrip`, `JsonShortest`, `Canonical`, `CanonicalText`, `Sorting`, `ModelIdentity`, `ModelReader`, `Names`): the
  parser as a function of the text ahead and as the class that moves a position over it, the grammar of RFC 8259 as
  derivations, the printer as the one shortest text of a value, the canonical encoder and what its bytes say, and what
  the bytes of a model depend on, with a reader that takes the model back out of them by member names.
- **Colocation and hashing** (`Colocation`, `Hashing`): union-find over entity names, and the model with digests for names.
- **Shared**: `Outcomes` and `Collections`.
- **The session guard** (`SessionUse`), **decimal admission** (`DecimalSyntax`, `DecimalAdmission`) and **base64**
  (`Base64`).

Results that a reader may not expect:

- `WriteFence.StaleFreezeHidesAGap`: `still_frozen` (cpp/src/migration.cpp:689-697) does not look at the retired ids. If
  two commands of one table run at once, a freeze that made its check before a release can put the released hold back, and
  the final check then passes although a write went through in between. The hold is in force from the freeze to the check
  exactly when no release of its id makes its drop between the two (`HeldIffNotReleased`), whatever else runs. That holds
  if the commands of the table are serialised, as the fence's header asks (`SerialisedNotReleased`), and also if the id
  is not retired at the check (`UnretiredNotReleased`).
- `Colocation.UndeclaredMergesGroups`: `assemble_model` refuses undeclared names in relations, not in atomic groups. The
  lookup `parent[name]` then puts the name and the empty text into the forest, and all atomic groups with an undeclared
  member become one. The groups hold entities alone exactly when every member of every atomic group of two or more is
  declared (`GroupsOfEntitiesIff`).
- `JsonRoundTrip.WholeDoubleComesBackAsInteger`: a `Json` built from the double 2.0 is the lexeme `2` marked as not an
  integer, and its text parses back as an integer. `RoundTripIff` gives the exact condition under which a value comes back.
- `JsonShortest.DumpIsShortest`: minimal escaping is not a list of escapes here but a property of the grammar. Of all the
  texts of a value none is shorter than the printer's, and the printer's is the only one as short with lower-case digits.
  A name met again, a space or a longer escape only makes a text longer.
- `BookLog.SameBookIff`: after a whole message cut to the engine's depth the sink lacks exactly the prices that were cut
  and that no later change has named.

NFC, the keyed digest, clocks, the sink and the engines are parameters: a lemma states what it needs of them.

## Model

| member | source | states |
|---|---|---|
| Limbs.NormalUnique | cpp/src/bignum.hpp:66 | two limb sequences without leading zero limbs that denote one number are equal |
| Limbs.LongerIsGreater | cpp/src/bignum.cpp:246-252 | of two normal sequences the longer denotes the larger number |
| Limbs.HighestDifferenceDecides | cpp/src/bignum.cpp:246-252 | at equal length the highest differing limb decides the order of the numbers |
| BigNumber.BigUnsigned.constructor | cpp/src/bignum.cpp:21-24 | the object holds the given 64-bit value in normal form |
| BigNumber.BigUnsigned.Trim | cpp/src/bignum.cpp:83-85 | keeps the value and leaves no leading zero limb |
| BigNumber.BigUnsigned.MultiplyAdd | cpp/src/bignum.cpp:87-96 | the value becomes value * factor + addend, normal again, with no 64-bit overflow |
| BigNumber.BigUnsigned.DivideSmall | cpp/src/bignum.cpp:98-107 | the value becomes the quotient by the divisor; the result is the remainder |
| BigNumber.BigUnsigned.Compare | cpp/src/bignum.cpp:246-252 | the order of the limbs is the order of the numbers |
| BigNumber.BigUnsigned.Add | cpp/src/bignum.cpp:109-120 | the value becomes the sum, normal without trimming, also when a number is added to itself |
| BigNumber.BigUnsigned.Subtract | cpp/src/bignum.cpp:122-137 | refused, changing nothing, exactly when the difference is negative; otherwise the value becomes the difference |
| BigNumber.Multiply | cpp/src/bignum.cpp:139-156 | a new normal number that is the product |
| AlgorithmD.EstimateDigit | cpp/src/bignum.cpp:187-195 | the corrected estimate is the quotient of the top three limbs by the divisor's top two, capped at 2^32 - 1, with no 64-bit wrap |
| AlgorithmD.EstimateIsClose | cpp/src/bignum.cpp:187-195 | whatever the other limbs are, that estimate is the true digit or one more |
| AlgorithmD.MultiplySubtract | cpp/src/bignum.cpp:196-218 | the window loses estimate * divisor, plus 2^(32(n+1)) exactly when that went below zero |
| AlgorithmD.AddBack | cpp/src/bignum.cpp:220-229 | the window gains the divisor, modulo the carry out of its top limb |
| AlgorithmD.OneAddBackSuffices | cpp/src/bignum.cpp:219-229 | after a negative difference one add-back leaves the true remainder |
| AlgorithmD.DivideStep | cpp/src/bignum.cpp:186-231 | one pass takes floor(window / divisor) copies of the divisor off the window and returns that digit |
| Shifts.ShiftLeftValue | cpp/src/bignum.cpp:172-182 | the shifted limbs with what spilled out of the top one are the number times 2^shift |
| Shifts.ShiftRightValue | cpp/src/bignum.cpp:234-241 | shifting the limbs back divides the number by 2^shift |
| BigNumber.DivideLimbs | cpp/src/bignum.cpp:184-231 | the digits found make up the quotient and what is left of u is the remainder |
| BigNumber.DivideLong | cpp/src/bignum.cpp:167-243 | for a divisor of two limbs or more: q * divisor + r = dividend and r < divisor |
| BigNumber.DivMod | cpp/src/bignum.cpp:158-244 | refused exactly for a zero divisor; otherwise normal q and r with q * divisor + r = dividend and r < divisor |
| BigNumber.DivModUnique | cpp/src/bignum.cpp:158-244 | no other q and r have that property: they are the quotient and the remainder |
| BigNumber.FromDecimal | cpp/src/bignum.cpp:26-48 | refused exactly for text that is empty or not all digits; otherwise the number the digits denote |
| BigNumber.PowerOfTen | cpp/src/bignum.cpp:50-60 | 10 to the exponent |
| BigNumber.ToDecimal | cpp/src/bignum.cpp:62-74 | the shortest numeral of the value |
| BigNumber.ToUint64 | cpp/src/bignum.cpp:76-81 | the value exactly when it is below 2^64 |
| DecimalText.DecValToDec | cpp/src/bignum.cpp:62-74 | reading the numeral of a number gives the number |
| DecimalText.OneMoreDigit | cpp/src/bignum.cpp:26-48 | one more digit of the ten makes a numeral ten times its number and the digit; no digits are 0 |
| DecimalText.ToDecOfDigits | cpp/src/bignum.cpp:26-74 | writing what was read drops leading zeros and nothing else |
| WriteFence.NextKeepsInv | cpp/src/write_fence.cpp:310-415 | every call of every executor, every crash and every insert keeps the fence's invariant |
| WriteFence.RunInv | cpp/src/write_fence.cpp:310-415 | the invariant holds in every reachable state |
| WriteFence.CommandsBegin | cpp/src/write_fence.cpp:310-415 | when each command is taken, constraint by constraint: an advance only while a hold or a setup keeps every writer out, and no minimum above the new epoch; a prepare only on an owned or absent column of a fence that is not complete; a freeze only with an id not retired; a release only of a hold in place and with bounds that agree |
| WriteFence.BoundsAgree | cpp/src/write_fence.cpp:377-399 | in every reachable state with a maximum the bounds alone, holds aside, let through at most one generation, and then minimum and maximum agree on it |
| WriteFence.OnlyAWholeEpochIsOpen | cpp/src/write_fence.cpp:364-399 | in every reachable state of a fenced table the engine admits at most one generation, and then the epoch change is whole |
| WriteFence.OldGenerationStaysClosed | conformance/tools/fencing_vectors.py:153-173 | once a later minimum is installed, no lower generation is ever admitted again |
| WriteFence.AdvanceCompletes | cpp/src/write_fence.cpp:364-399 | whatever partial change a crash left, an accepted advance run to its end leaves its epoch: every other bound gone, every hold and everything else in place |
| WriteFence.PrepareCompletes | cpp/src/write_fence.cpp:310-336 | an accepted prepare run to its end, from an unfenced table or wherever an earlier one crashed, with inserts in flight or not, leaves its epoch in force, no setup hold, and every other hold in place |
| WriteFence.NoGap | cpp/src/write_fence.cpp:401-415 | a hold that was never dropped has been in force without a gap |
| WriteFence.RunReleasedForGood | cpp/src/write_fence.cpp:338-350 | with serialised commands a released id is never held again |
| WriteFence.HeldIffNotReleased | cpp/src/write_fence.cpp:338-415 | the hold of a completed freeze is in force without a gap up to a later moment exactly when no release of its id makes its drop in between |
| WriteFence.NotReleasedIsASnapshot | cpp/src/write_fence.cpp:338-350 | and then nothing is in flight and the rows are the same from the drain on |
| WriteFence.SerialisedNotReleased | cpp/src/migration.cpp:689-697 | with serialised commands, a hold found at the final check was not released since the freeze |
| WriteFence.UnretiredNotReleased | cpp/src/write_fence.cpp:401-415 | an id that is not retired at the final check was not released since the freeze, whatever ran at once |
| WriteFence.QuietUnderHold | cpp/src/write_fence.cpp:345-348 | while a hold is in force and nothing is in flight, the rows do not change |
| WriteFence.FrozenTableIsASnapshot | cpp/src/write_fence.cpp:338-350 | with serialised commands, a hold found at the final check has been in force since the freeze, and the rows are the same since the drain |
| WriteFence.UnretiredHoldIsASnapshot | cpp/src/write_fence.cpp:401-415 | the same without serialisation, if the id is not retired at the final check |
| WriteFence.StaleFreezeHidesAGap | cpp/src/migration.cpp:689-697 | without serialisation a run exists in which the final check passes although a write went through |
| FrozenVerify.PassedIffHeld | cpp/src/migration.cpp:762-772 | of the tables both checks let through, those not released in between are exactly those whose hold was in force all along |
| FrozenVerify.SerialisedPassed | cpp/src/migration.cpp:689-697 | with serialised commands the two checks are enough |
| FrozenVerify.UnretiredPassed | cpp/src/migration.cpp:689-697 | so they are, whatever runs at once, if the id is not retired at the second |
| FrozenVerify.PassedMeansStill | cpp/src/migration.cpp:762-772 | a table that passed both checks and was not released in between was under its hold, unchanged and at its one generation for the whole comparison |
| FrozenVerify.EveryReadIsOneSnapshot | cpp/src/migration.cpp:762-772 | any two reads of a table during the comparison give the same rows |
| FrozenVerify.FrozenReportIsExact | cpp/src/migration.cpp:671-673 | the frozen report matches exactly when every copy was its source, row for row, at every moment of the comparison |
| Tables.SameValueIff | cpp/src/migration.cpp:339-348 | values are the same when they are equal or both a zero of either sign; a NaN is the same as itself |
| Tables.Window | cpp/src/migration.cpp:590-592 | a window holds exactly the rows with a key above its low end and up to its high end |
| Verify.WindowSorted | cpp/src/migration.cpp:590-592 | the window of a table in key order is in key order |
| Tables.RowsWanted | cpp/src/migration.cpp:588-593 | a scan of so many rows after the first ones gives exactly the next rows of the table |
| Verify.MissingInTarget | cpp/src/migration.cpp:386-415 | one windowed read and point reads find exactly the source rows the copy does not match, in order |
| Verify.MissingExact | cpp/src/migration.cpp:352-415 | the differences of a window describe exactly the rows that are not matched, each once and in key order, and name exactly the source columns that differ, or none when the row is not there |
| Verify.ScanCopy | cpp/src/migration.cpp:585-612 | the windows partition the source and none straddles the marker: when the scan ends, chunks, mismatched chunks and tail rows are counted for the whole copy |
| Verify.VerifyCopies | cpp/src/migration.cpp:575-613 | refused exactly for a chunk below 1; otherwise the counts of every copy added up; of the differences the first twenty are kept and the others counted |
| Verify.CopyReportMeans | cpp/src/migration.cpp:585-612 | the report of a copy field by field: chunks up to the marker and how many hold an unmatched row, rows past it and how many are unmatched, both row counts, and every difference |
| Verify.ReportsAdd | cpp/src/migration.cpp:575-613 | one more copy adds each of its counts to the same count and its differences after the others |
| Verify.ChunksIsCeiling | cpp/src/migration.cpp:588-597 | the number of chunks compared is min(marker, n) / chunk rounded up |
| Verify.FinishCounts | cpp/src/migration.cpp:587-612 | chunks compared, tail rows read, and kept plus suppressed differences, for any chunk size |
| Verify.MatchedIff | cpp/src/migration.cpp:505-507 | verify says matched exactly when every source row of every copy is matched |
| Verify.IncludedCounts | cpp/src/migration.cpp:671-673 | a copy that holds every source row has at least as many rows, and as many exactly when it has no other key |
| Verify.FrozenMatchedIff | cpp/src/migration.cpp:671-673 | on fixed key-unique tables the frozen report matches exactly when every copy is its source, although only sums of counts are compared |
| Backfill.ResumeNeverSkips | cpp/src/migration.cpp:271-284 | the key a marker turns into never passes the key reached, however many rows were inserted since |
| Backfill.CompleteMeansCopied | cpp/src/migration.cpp:286-337 | when any run says complete, every row of the source at the start of the first run is in the target, and unless the application wrote the key, column by column as it was, with the epoch in the epoch column if there is one and nothing changed if there is none |
| Backfill.MarkerNeverOverstates | cpp/src/migration.cpp:286-337 | at every moment the marker counts no more rows than the source holds up to a key below which all is copied |
| Backfill.BackfillOne | cpp/src/migration.cpp:286-337 | refuses a marker past the end; otherwise the rows after it are copied column by column, stamped with the epoch, in exactly the chunks the limit allows; complete exactly when the limit is not reached; and a complete backfill from marker 0 into an empty target is one that verify finds the same |
| BookSides.WholeSide | cpp/src/books.cpp:59-77 | refused exactly for a negative count, a quantity of 0 or less, or a price twice; otherwise each level stands at its price and nothing else does |
| BookSides.WholeRoundTrip | cpp/src/books.cpp:43-50 | a whole side, replayed into an empty engine, is the side |
| BookSides.LastDecides | cpp/src/books.cpp:342-349 | of the levels that name a price the last decides: a quantity of 0 takes the price out, any other sets it |
| BookSides.UnnamedKeeps | cpp/src/books.cpp:342-349 | a price no level names is as it was |
| BookSides.PricesBestFirst | cpp/src/books.cpp:34-41 | the prices come best first, each once: bids from the highest down, asks from the lowest up |
| BookSides.DifferenceOf | cpp/src/books.cpp:80-90 | the two passes name exactly the prices that are lost, with a removal, and the prices that are new or changed, with what stands there now; removals first, each part in the side's order |
| BookSides.DifferenceApplies | cpp/src/books.cpp:80-90 | the difference applied to the old side gives the new one |
| BookSides.NoDifference | cpp/src/books.cpp:80-90 | an empty difference means equal sides |
| BookSides.NothingShorter | cpp/src/books.cpp:79-90 | no list of levels that takes the old side to the new one is shorter than the difference |
| BookSides.OrderedChanges | cpp/src/books.cpp:148-174 | refused exactly for a negative change or a price changed twice; otherwise the same changes, a removal without its count, removals first and each part in the side's order |
| BookSides.OrderedApplies | cpp/src/books.cpp:148-174 | putting changes in order names the same prices and does the same to any side |
| BookSides.RemovalsFirstNeverOverflows | cpp/src/books.cpp:158-173 | with removals first, an engine applying one level at a time never holds more prices than before or after the message |
| BookSides.ApplyToLess | cpp/src/books.cpp:352-354 | an engine that lacks some prices goes on lacking only those the changes do not name |
| BookLog.ReplayMatches | cpp/src/books.cpp:223-263 | whenever the last message was taken, the sink holds the stream's side without the prices the last whole message left out and no change has named since |
| BookLog.SameBookIff | cpp/src/books.cpp:229-245 | the sink's book is the stream's exactly when nothing is lacking |
| BookLog.ReplayIsTheBook | cpp/src/books.cpp:229-263 | if the last whole message was not cut, the sink's book is the stream's |
| BookLog.FittingIsUncut | cpp/src/books.cpp:306-311 | a log whose sides fit the engine is never cut |
| BookLog.TopIsTop | cpp/src/books.cpp:229-231 | a whole message holds as many levels as fit, in the side's order, each as it stands, and every price left out is worse than every price sent |
| BookLog.MessagesFit | cpp/src/books.cpp:230-231 | no message is longer than the engine is deep |
| BookLog.NeverOverflows | cpp/src/books.cpp:306-324 | while the sides fit, an engine applying any message one level at a time never holds more prices than it keeps |
| BookLog.TimesNeverDecrease | cpp/src/books.cpp:198-221 | the times of a side never go back |
| BookLog.RestsOnAWhole | cpp/src/books.cpp:223-224 | anything but a whole message rests on a whole message that was taken, with no failure since |
| BookLog.WholeWithinBound | cpp/src/books.cpp:225 | with a bound on updates, one more event than the bound holds a whole message |
| BookLog.WholeWithinSeconds | cpp/src/books.cpp:223-227 | with a bound on seconds anything but a whole message goes out less than the bound after the whole message it rests on, and a full stream sends nothing else |
| BookLog.SinceLastWhole | cpp/src/books.cpp:229-263 | the updates, the clock and the cut that a log keeps are those of its last whole message |
| BookStreams.SinkHoldsTheSide | cpp/src/books.cpp:92-99 | sent whole and not unsure: the sink holds the side, all of it unless the last whole message was cut |
| BookStreams.BookStream.SendWhole | cpp/src/books.cpp:229-245 | the side's new state field by field and the one whole message logged, cut to the engine's depth; a failure leaves the side unsure |
| BookStreams.BookStream.SendChanges | cpp/src/books.cpp:247-263 | the side's new state field by field and the changes logged, or nothing sent when there are none |
| BookStreams.BookStream.Update | cpp/src/books.cpp:301-325 | refused, changing nothing, exactly for a bad or too deep side or a bad time. Otherwise, if the stream is not full, the side was sent whole and is sure, neither bound is reached and the difference is no longer than the side, the difference goes out, or nothing when there is none; in every other case the side goes out whole; at the time given, or the later of the wall clock and the last time |
| BookStreams.BookStream.Apply | cpp/src/books.cpp:327-355 | refused, changing nothing, exactly for a full stream, bad changes or a bad time. Otherwise each price named is set or removed and every other is as it was, and the changes go out in order, or nothing when there are none, under the conditions of an update with the engine's depth as one more; else the side goes out whole |
| BookStreams.BookStream.ResyncSide | cpp/src/books.cpp:357-381 | refused exactly for a bad time; otherwise the side as held goes out whole, at the time given, the last time of the side, or by the wall clock when it has none |
| BookStreams.BookStream.ResyncBoth | cpp/src/books.cpp:357-381 | a refusal for either side sends nothing for both; otherwise each goes out whole at its own time, and a failed bid leaves the asks as they were |
| JsonRoundTrip.EscapedText | cpp/src/json.cpp:273-298 | escaped text followed by its quote parses back to the text, whatever comes after |
| Json.FourDigits | cpp/src/json.cpp:182-199 | four hexadecimal digits of either case are the 16-bit unit they spell |
| Json.UnitEscape | cpp/src/json.cpp:225-242 | an escaped unit that is no high surrogate stands for itself, a lone low surrogate included |
| Json.PairEscape | cpp/src/json.cpp:225-242 | an escaped surrogate pair stands for the one code point it encodes |
| Json.SkipsSpaces | cpp/src/json.cpp:77-86 | space, tab, line feed and carriage return are skipped, and nothing else |
| JsonShortest.HexDigits | cpp/src/json.cpp:182-199 | the sixteen hexadecimal digits of either case have these values |
| JsonShortest.ShortEscapes | cpp/src/json.cpp:212-224 | the eight two-character escapes and the code points they stand for, and no other |
| JsonShortest.Unescaped | cpp/src/json.cpp:201-254 | a character stands for itself unless it is the quote, the backslash or below the space, where it is refused |
| JsonShortest.Words | cpp/src/json.cpp:88-115 | null, true and false |
| JsonNumbers.ScanIsGrammar | cpp/src/json.cpp:26-52 | the scan takes exactly the numbers of section 6 of RFC 8259 |
| JsonNumbers.IntegerHasNoFraction | cpp/src/json.cpp:357-364 | a number is an integer exactly when it has neither a fraction nor an exponent |
| JsonGrammar.ParserIsGrammar | cpp/src/json.cpp:54-271 | a text parses to a value exactly when it is a JSON text of RFC 8259, with any white space and any spelling of escapes, that nests at most 512 deep and denotes the value |
| JsonGrammar.ParseNode | cpp/src/json.cpp:93-254 | whatever the derivation, the parser reads it and stops where it ends, or refuses exactly for its depth |
| JsonGrammar.NodeBack | cpp/src/json.cpp:93-254 | whatever the parser reads has a derivation within the depth that ends where the parser stops |
| JsonGrammar.OneMeaning | cpp/src/json.cpp:54-271 | a text denotes one value at most, whatever its derivation |
| JsonDepth.BracketsParse | cpp/src/json.cpp:93-94 | so many arrays or objects inside each other are parsed exactly when they are at most 513, the outermost at depth 0 |
| JsonParser.ScanNumber | cpp/src/json.cpp:26-52 | the index scan answers as the function of the text ahead |
| JsonParser.Parser.String | cpp/src/json.cpp:201-254 | the position moves over exactly the string, escapes and surrogate pairs included, or the text is refused |
| JsonParser.Parser.Array | cpp/src/json.cpp:157-180 | the loop yields the items the function yields |
| JsonParser.Parser.Object | cpp/src/json.cpp:117-155 | the loop yields the members the function yields, a name met again keeping its place |
| JsonParser.Parser.ParseAt | cpp/src/json.cpp:93-115 | a value, or a refusal, as the function says, depth limit included |
| JsonParser.Parser.Document | cpp/src/json.cpp:58-68 | the answer is a value exactly when the text is a JSON text of RFC 8259 that denotes it and nests at most 512 deep |
| JsonParser.Put | cpp/src/json.cpp:134-142 | the first member of the name is replaced in place, or a new one appended |
| JsonRoundTrip.ParseDumped | cpp/src/json.cpp:93-339 | parsing the text of any value yields the value as reread, or a refusal of its depth |
| JsonRoundTrip.RoundTripIff | cpp/src/json.cpp:300-339 | a value comes back from its text exactly when it nests at most 512 deep, its numbers say truly whether they are integers, and no object has a name twice |
| JsonRoundTrip.WholeDoubleComesBackAsInteger | cpp/src/json.cpp:347-355 | the double 2.0 comes back as an integer |
| JsonRoundTrip.ParsedDocumentIsClean | cpp/src/json.cpp:117-155 | whatever the text, parsed objects have distinct names, numbers are JSON numbers and nesting is within the limit |
| JsonRoundTrip.DumpInjective | cpp/src/json.cpp:300-339 | two tidy values with one text are one value |
| JsonShortest.QuotedIsShortest | cpp/src/json.cpp:273-298 | of all the strings of RFC 8259 that denote a text, the quoted text is the shortest, and of those the only one whose hexadecimal digits are lower-case: short escapes where there are any, six characters for other controls, everything else as itself |
| JsonShortest.DumpIsShortest | cpp/src/json.cpp:300-339 | of all the JSON texts that denote what a value is read back as, with any white space, any escapes and any repeated names, the printed text is the shortest, and of those the only one whose hexadecimal digits are lower-case; for every value in which no object has a name twice |
| Canonical.IntTextReads | cpp/src/canonical.cpp:71-77 | the text of an integer is a JSON integer and reads back as it |
| Canonical.EncodeWritesMeaning | cpp/src/canonical.cpp:55-131 | the encoder takes exactly the encodable values and writes the printed text of what a value means |
| Canonical.SameBytesIff | cpp/src/canonical.cpp:94-121 | two encodable values have equal bytes exactly when they are equal after NFC, ignoring member order and integer spelling |
| Canonical.EncodeParseEncode | cpp/src/canonical.cpp:127-131 | the bytes parse exactly when the value nests within the parser's limit, and encode to the same bytes again |
| CanonicalText.EncodesIff | cpp/src/canonical.cpp:50-123 | which values have bytes: integers of 64 bits, text without surrogates, arrays of values that have them, objects whose names have no surrogate and stay apart after NFC |
| CanonicalText.IntegerText | cpp/src/canonical.cpp:71-77 | an integer is digits, with a minus or without, and the number they denote |
| CanonicalText.IntTextIsShortest | cpp/src/canonical.cpp:77 | no text of an integer is shorter: no leading zero and no minus before a zero |
| CanonicalText.BytesSay | cpp/src/canonical.cpp:19-131 | the bytes are the shortest text, with lower-case digits, of the value with integers in their shortest form, every text and name after NFC, and members in ascending code point order of their names |
| Names.LessIff | cpp/src/unicode.cpp:318-321 | one text is less than another at the first code point where they differ, or because it ends there |
| Sorting.SortSameIff | cpp/src/model.cpp:344-355 | sorting by a key that tells elements apart forgets the order and nothing else |
| Sorting.AtMostIff | cpp/src/model.cpp:350-355 | lists of texts are ordered by the first text where they differ, or because one ends there |
| ModelIdentity.AssembledSameIff | cpp/src/model.cpp:341-355 | two declarations are the same in order exactly when they have the same entities, relations and groups up to order, with key order significant |
| ModelIdentity.AssembledInOrder | cpp/src/model.cpp:341-356 | entities by name, fields and pii by name, relations by origin, name and target, groups and their members in order; the parts are the same up to order, keys and the ceiling as they were |
| ModelIdentity.SameIdentityIff | cpp/src/model.cpp:336-401 | two declarations with NFC names have equal bytes exactly when they agree up to the order of their parts and have the same cost ceiling |
| ModelReader.DocumentReadsBack | cpp/src/model.cpp:358-397 | a reader that looks members up by name finds in the document contract 1, every entity, field, key position from 0, pii, residency, relation from and to, group and the ceiling of the declaration in order |
| ModelReader.BytesReadBack | cpp/src/model.cpp:358-401 | so it does in the bytes of a declaration with NFC names, parsed |
| Colocation.Find | cpp/src/model.cpp:161-167 | terminates with the root of the name, which is put in if it is not there; halving paths changes no root |
| Colocation.Unite | cpp/src/model.cpp:170-174 | the forest then represents one link more: same root exactly for connected names |
| Colocation.SameRootIff | cpp/src/model.cpp:168-174 | two names have one root exactly when links connect them |
| Colocation.ColocationGroups | cpp/src/model.cpp:156-189 | for any atomic groups, undeclared members included: the groups are the connected components of the declaration's links with every undeclared name hung on the empty text |
| Colocation.JoinsIff | cpp/src/model.cpp:156-180 | two names are joined by a relation either way round, by an atomic group of two or more that has both, or because one is undeclared and the other the empty text; grouped are the entities, the undeclared names and, with any of those, the empty text |
| Colocation.GroupsOfEntitiesIff | cpp/src/model.cpp:156-189 | the groups hold entities alone exactly when every member of every atomic group of two or more is declared, and then they are the components of the declaration's own links |
| Colocation.UndeclaredJoins | cpp/src/model.cpp:161-178 | every member of an atomic group with an undeclared name ends up in the group of the empty text |
| Colocation.UndeclaredMergesGroups | cpp/src/model.cpp:161-178 | two entities that nothing declared connects can share a group that way |
| Colocation.GroupingPartitions | cpp/src/model.cpp:179-184 | every entity is in exactly one group, with exactly the entities connected to it |
| Colocation.GroupingSorted | cpp/src/model.cpp:181-188 | each group is in order and named by its least member, and the groups come in the order of their names |
| Colocation.LinksOrderFree | cpp/src/model.cpp:168-178 | the order and repetition of relations, groups and members make no difference |
| Hashing.HashNames | cpp/src/hashing.cpp:69-83 | refused exactly when two names have one digest; otherwise each name's digest |
| Hashing.HashIdentifiers | cpp/src/hashing.cpp:66-130 | refused exactly for a salt below 16 bytes or two entities, two fields of one entity or two relations of one entity with one digest; otherwise each entity is there once with its digest name, its residency, its key position by position and its fields with their types and nullability, each relation goes from digest to digest, each group has its digests, the ceiling is the same, and all is in the order of the new names |
| Hashing.AssembledKeeps | cpp/src/hashing.cpp:128 | putting a declaration in order changes neither its entities nor its links |
| Hashing.HashedKeyPoints | cpp/src/hashing.cpp:98-107 | hashed keys and pii point at the hashed fields exactly as keys and pii pointed at the fields |
| Hashing.HashedColocation | cpp/src/hashing.cpp:111-128 | in the hashed declaration, put in order, the colocation group of an entity is the image of its group |
| SessionUse.NextKeepsInv | cpp/src/session_use.hpp:15-36 | every single access to the owner or the depth, by any thread, keeps the invariant |
| SessionUse.OneThreadInside | cpp/src/session_use.hpp:15-36 | at every moment of every run at most one thread is inside |
| SessionUse.OnlyTheOwnerTouchesDepth | cpp/src/session_use.hpp:19-33 | only the owner reads or writes the depth, and what it reads is its number of open guards |
| SessionUse.DepthCountsGuards | cpp/src/session_use.hpp:19-33 | the depth is the owner's number of open guards, and 0 when nobody owns the session |
| SessionUse.RefusedIff | cpp/src/session_use.hpp:23-29 | a thread is refused exactly when its exchange finds another owner, and the refusal changes nothing |
| SessionUse.InsideReenters | cpp/src/session_use.hpp:19-22 | a thread that is inside enters again |
| SessionUse.OwnerChanges | cpp/src/session_use.hpp:23-33 | the owner changes only from nobody to a thread, or back by that thread with its last guard closed |
| SessionUse.EntersAlone | cpp/src/session_use.hpp:17-30 | a thread that no other keeps out is inside after four steps alone, the depth one more and the session its own |
| SessionUse.LeavesAlone | cpp/src/session_use.hpp:31-36 | three steps alone give one guard back, and with the last guard a fourth gives the session back |
| DecimalAdmission.CountsAgree | cpp/src/value.cpp:74-95 | the digits counted are those admission keeps |
| DecimalSyntax.SplitIff | cpp/src/value.cpp:35-72 | taking text apart by what is left to read gives parts exactly when the text is a decimal with those parts |
| DecimalSyntax.DecimalParts | cpp/src/value.cpp:35-72 | refused exactly when the text is no decimal; otherwise its parts, the exponent clamped |
| DecimalSyntax.ReadExponent | cpp/src/value.cpp:59-68 | the written exponent up to the clamp, within 64 bits |
| DecimalAdmission.ClampChangesNothing | cpp/src/value_internal.hpp:25-33 | clamping the exponent changes no answer |
| DecimalAdmission.Read | cpp/src/admission.cpp:109-134 | the digits without leading zeros and the exponent denote the value; refused exactly past the reference's limits |
| DecimalAdmission.LimitsIff | cpp/src/value_internal.hpp:25-33 | past the limits is a number below the least exponent or of 10^(10^18) or more, and a zero for its exponent alone |
| DecimalAdmission.PointMoves | cpp/src/admission.cpp:127-133 | a digit before the point or behind it with one more in the exponent is the same number; without a fraction it is the digits times ten to the exponent |
| DecimalAdmission.FitsIff | cpp/src/admission.cpp:135-144 | trimmed digits fit decimal(p,s) exactly when they end within s places after the point and begin within p-s before it |
| DecimalAdmission.Admit | cpp/src/admission.cpp:102-152 | accepts exactly the numbers decimal(p,s) holds, of text those within the limits of the reference; an integer stays itself, anything else comes out equal, at scale s, with at most p digits |
| DecimalAdmission.AdmitText | cpp/src/admission.cpp:123-152 | text is accepted exactly when, without the white space around it, it spells a decimal within the limits that decimal(p,s) holds, and comes out equal, at scale s, with at most p digits |
| DecimalAdmission.TrimmingIs | cpp/src/admission.cpp:123-124 | trimming takes the white space at either end and nothing else |
| DecimalAdmission.OneForm | cpp/src/admission.cpp:145-150 | numerically equal inputs come out identical |
| DecimalAdmission.AdmittedIsFixed | cpp/src/admission.cpp:145-150 | what came out is admitted again as it is |
| Base64.Encode | cpp/src/encoding.cpp:115-138 | the text is the base64 of the bytes |
| Base64.Alphabet | cpp/src/encoding.cpp:10-20 | the 64 letters and their values |
| Base64.Decode | cpp/src/encoding.cpp:31-64 | accepted exactly when the text is the base64 of some bytes, which are the result |
| Base64.OneValue | cpp/src/encoding.cpp:58-61 | a text is the base64 of one sequence of bytes at most |
| Base64.OneText | cpp/src/encoding.cpp:58-61 | bytes have one text at most |
| Base64.RoundTrip | cpp/src/encoding.cpp:31-138 | decoding yields given bytes exactly when the text is their encoding |
| Base64.DecodeAsPython | cpp/src/encoding.cpp:66-113 | accepted exactly when the text can be read as Python's decoder reads it, which gives the result |
| Base64.OneReading | cpp/src/encoding.cpp:66-113 | that reading is unique |
| Base64.PythonAgrees | cpp/src/encoding.cpp:31-113 | whatever the strict decoder takes, Python's takes with the same bytes |

## Left out

- Fence predicate text, reserved names and `restore`: constraints are modelled as values (owner, setup, minimum, maximum, hold, retired), not as the text an engine stores (cpp/src/write_fence.cpp:90-131, cpp/src/write_fence.cpp:236-280).
- Table identity and project ownership checks of the fence and of `still_frozen`: a table keeps its identity and one owner.
- Backfill.CompleteMeansCopied: rows are inserted and updated while a backfill runs, never deleted; a `copy_in` that races an update of the same key leaves either value, so values are claimed only for keys the application has not written.
- Keys are totally ordered integers: composite keys, floating-point keys and NaN are not modelled.
- Planning a migration, precision and shape refusals, progress records and messages (cpp/src/migration.cpp:29-254, cpp/src/migration.cpp:418-548).
- Stream statistics, the refusal of a second call while one runs, and 64-bit limits of counters and times in the book stream; clocks are inputs of each call, the policy clock a real number.
- Json.Dump: a string with a lone surrogate has no text in the model, where a document is a sequence of Unicode scalar values; the library writes bytes that are not UTF-8.
- JsonShortest.DumpIsShortest: a value built with one name twice in an object has a text with both members, which is not the shortest of what it is read back as.
- ModelReader.DocumentReadsBack: a key has fewer than 2^63 parts, as positions are 64-bit integers.
- Raw UTF-8 validation, error positions and error texts of the JSON parser; numbers as doubles and `operator==` of values.
- Canonical.EncodeParseEncode: of NFC only idempotence is used, and of the model's member names that NFC leaves them alone.
- The sort of the canonical encoder and of the model's lists is modelled by its result, not by the steps of `std::sort`.
- Colocation.ColocationGroups: relations name declared entities, which `assemble_model` checks first (cpp/src/model.cpp:88-95); the order between names is that of their code points.
- Hashing.HashIdentifiers: the keyed digest is an arbitrary function; reading the salt file and the name map's lookups are not modelled.
- DecimalAdmission.Admit: the narrowing of a scale past 2^31 is not modelled.
- DecimalAdmission.AdmitText: which characters are white space is a parameter.
- SessionUse.RefusedIff: guards are closed by the thread that opened them, and a thread's id is not reused while it holds a guard.
- Base64: bytes and sextets are integers in range; the hexadecimal helpers are not modelled.
- Operation shapes, declaration refusals other than repeated names, routing, layout, provisioning, engine adapters and placement: they would only add easy members.
