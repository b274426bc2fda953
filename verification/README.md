# A verified model of the ClickHouse native-protocol client

This project models the core of clickhouse-cpp, a C++ client for the ClickHouse native protocol, and proves what that
core is meant to guarantee. `dafny verify dfyconfig.toml` checks all of it.

| area | modules |
|---|---|
| wide integers as 32-bit limbs, read from and printed to decimal strings | `BignumString`, over `DecimalText` and `Arith` |
| fixed-point decimal columns | `DecimalColumn` |
| byte formats: varints, fixed-width integers, strings, quoted strings, compressed frames | `WireFormat`, `Frames` |
| buffered and compressing streams over sockets that split bytes at will | `OutputStreams`, `InputStreams`, `StreamLoopback` |
| array columns nested to any depth, their operations and their serialization | `Columns`, `ColumnArrays`, `ColumnSerial` |
| blocks for every server revision, sent and received over the streams | `BlockFormat`, `BlockTransfer` |
| the Idle/Selecting/Inserting state machine over whole runs of calls, and what each call says, returns and refuses | `ClientProtocol`, `ClientMessages`, `ClientImpl` |
| endpoint failover with nested retries | `Failover` |
| the guarded ping, where the retries and the state machine meet | `GuardedPing` |

Code of the original that changes arrays, buffers and fields in place is modelled by methods and classes that do the
same, each proved against a function on values; the laws are then proved about those functions. Connections, the
server, callbacks and the compression libraries are parameters: a socket is a schedule of how many bytes it takes or
gives each time, a server sees the messages, decides by itself which of them ends the data it waits for, and answers
that with packets from a script, a connection attempt ends as a script says, and a compression method is a record of
functions with the laws its library documents.

## Main results

- Printing any 4-, 8- or 16-limb array in either sign mode and parsing the text restores every limb, and parsing any
  string classifies it exactly; printing an accepted string gives its canonical form (`BignumString.PrintThenParse`,
  `StrToLimbArr`, `ParseThenPrint`).
- A decimal column accepts a string exactly when its value, scaled and truncated toward zero, has at most `precision`
  digits; it stores exactly that integer, and printing and appending a row again stores the same value
  (`DecimalColumn.ColumnDecimal.AppendString`, `ReAppend`).
- Whatever the pieces written, the chunk size, the buffer sizes, the way both sockets split bytes and the read sizes,
  the bytes that went into the compressing stack come out of the decompressing one, with none left over
  (`StreamLoopback.Loopback`); a buffered stream loses, repeats or reorders nothing under any mix of `Read`, `Next` and
  `Skip` (`TakeAll`).
- A block sent as a data packet arrives equal, for every revision and with or without compression, up to the two
  things the encoding does not carry (`BlockTransfer.Exchange`, `BlockFormat.SurvivesExactly`).
- Every run of operations on an array column is the same run on a sequence of rows (`ColumnArrays.RunRefines`), and
  saving and loading restores columns of any depth exactly when the target held nothing stale
  (`ColumnSerial.SaveLoadOver`).
- Over every run with a well-behaved server, in which the user does not send the empty end marker as data, the client
  is idle only when every response has been read to its end (`ClientProtocol.SettledOverRuns`), which rests on skipping
  external tables without rows (`TablesPromptNothing`); inserting a block with columns and no rows is part of such runs
  (`ClientMessages.InsertOfColumns`);
  over every run with any server an insert that was entered stays one until a reconnect or a successful `EndInsert`
  (`InsertingSticksOverRuns`), and the server waits for data only while the client is inserting (`InStepOverRuns`).
- An insert, at once or in parts, sends exactly the user's blocks in order between the marker of its query and one end
  marker, and returns what the server's answers say (`ClientMessages.InsertExactly`, `BeginInsertExactly`,
  `ConversationExactly`); a call is refused exactly in the states that do not allow it (`RefusedExactly`).
- Whatever is cut short is refused: a frame, a saved column or a block, at any byte and in every revision
  (`Frames.CutFrameRefused`, `ColumnSerial.CutColumnRefused`, `BlockFormat.CutBlockRefused`).
- Failover tries the endpoints in cyclic order, a bounded and, when all fail, exact number of times, and then puts the
  endpoint and the iterator back; where the iterator is and whether it agrees with the endpoint is stated for every
  outcome (`Failover.Connector.ResetConnectionEndpoint`, `CreateConnection`, `RetryGuard`).
- Whatever pings and reconnects fail, a select or an insert behind the guarded ping begins from an idle client that has
  nothing but pongs unread, and it hands over exactly the server's answer and leaves nothing unread
  (`GuardedPing.GuardedSelect`, `GuardedInsert`).

## Properties that do not hold as one would expect

Each has a condition that is necessary and sufficient, and a concrete input at which it fails.

- An array column without rows writes its leaf's prefix but does not read it back: loading succeeds exactly when that
  prefix is empty (`ColumnSerial.EmptyArrayPrefix`, `EmptyArrayExample`). `WriteBlock` avoids the case by saving only
  columns with rows.
- Loading over a used column leaves stale elements below a level without elements (`ColumnSerial.SaveLoadOver`,
  `StaleExample`). `ReadBlock` always loads into a fresh column.
- A block without columns loses its row count, and below revision 51903 a block loses its info
  (`BlockFormat.SurvivesExactly`, `LossExamples`).
- A frame of more than 1 GiB is written but refused by the reader (`Frames.FrameRoundTrip`, `OversizedFrameExample`).
- A dotted string without integer digits is refused in a column of scale zero although it passes validation
  (`DecimalColumn.CleanedParses`, `AcceptableWithin38`, `PointFiveExample`).
- The length announced for a quoted string is counted in an `int` and is right exactly while three times the number of
  escapes fits it (`WireFormat.AnnouncedExactly`, `OverflowExample`).
- Inserting the end marker itself, a block with neither columns nor rows, ends the data twice, and the second answer
  stays unread although the client is idle (`ClientProtocol.InsertSettledExactly`, `SendBlockSettledExactly`,
  `MarkerInsertExample`). A block with columns and no rows is inserted like any other
  (`ClientMessages.InsertOfColumns`).
- A guarded ping that returns may have read the answer of an earlier ping: nothing is unread exactly if each ping that
  was sent in vain was followed by a reconnect that connected (`GuardedPing.StaleExactly`, `StalePongExample`).
- After an exception that is not a `std::system_error` the current endpoint is put back but the iterator is not. They
  agree exactly when the iterator has come to an equal endpoint. If the endpoints are distinct, that means the first
  attempt of a round of `ResetConnectionEndpoint`, and a whole number of rounds of reconnects in the walk of
  `RetryGuard`, which moves before it connects (the contracts of both, `Failover.SyncWithinRound`, `SyncAfterMoves`,
  `RoundWitness`, `WalkWitness`).

The ProtocolError at the end of `EndInsert` can never be thrown (`ClientProtocol.NoUnexpectedEnd`).

Where comments and code differ, the code is followed: a comment says that the current endpoint is the last one connected to
successfully (clickhouse/client.cpp:314-316), but `RetryGuard` restores it after a failure even when the last
successful connection was to another endpoint.

## Model

| member | source | states |
|---|---|---|
| `BignumString.LimbArrIsZero` | clickhouse/base/bignum_string.h:61-68 | true exactly for the arrays that denote zero |
| `BignumString.LimbArrNegateInPlace` | clickhouse/base/bignum_string.h:71-79 | the array becomes the two's complement of its value modulo 2^(32n), for any n; zero stays zero |
| `BignumString.DivDigit` | clickhouse/base/bignum_string.h:82-91 | quotient digit and remainder of one long-division step, the former within 32 bits so that the cast loses nothing |
| `BignumString.LimbArrDivModInPlace` | clickhouse/base/bignum_string.h:82-91 | old value = divisor * new value + remainder with remainder < divisor, for any number of limbs |
| `BignumString.MulDigit` | clickhouse/base/bignum_string.h:94-103 | one multiplication step splits exactly into a limb and a carry that fits a limb |
| `BignumString.LimbArrMulAddInPlace` | clickhouse/base/bignum_string.h:94-103 | new value + carry * 2^(32n) = old value * mul + add |
| `BignumString.LimbArrIsSignedMin` | clickhouse/base/bignum_string.h:106-122 | true exactly for the array that denotes half the range, whose negation is itself |
| `BignumString.ReadChunk` | clickhouse/base/bignum_string.h:188-191 | up to nine digits are read as their decimal value without leaving 32 bits |
| `BignumString.AppendChunk` | clickhouse/base/bignum_string.h:186-204 | the limbs hold the value of the longer prefix, or a carry out proves that the whole number is out of range |
| `BignumString.ParseDigits` | clickhouse/base/bignum_string.h:182-204 | stops early exactly when the digits denote 2^(32n) or more; otherwise the limbs hold their value |
| `BignumString.StrToLimbArr` | clickhouse/base/bignum_string.h:152-220 | BAD_ARGUMENT, BAD_STRING and TOO_LARGE exactly when promised (the most negative number is in range); OK means the limbs denote the number in two's complement; the first two leave the array alone |
| `BignumString.PrintedFits` | clickhouse/base/bignum_string.h:47-58 | sign, digits and NUL of every value of a supported width fit 41, 79 and 156 characters |
| `BignumString.SizesTight` | clickhouse/base/bignum_string.h:47-58 | the most negative number of each of the three widths needs exactly 41, 79 or 156 characters |
| `BignumString.EmitPadded` | clickhouse/base/bignum_string.h:278-281 | exactly nine zero-padded digits in front of the text, nothing before them touched |
| `BignumString.EmitLeading` | clickhouse/base/bignum_string.h:285-288 | the canonical digits of the leading chunk in front of the text, nothing before them touched |
| `BignumString.ChunkSplit` | clickhouse/base/bignum_string.h:276-283 | the numeral of quotient * 10^9 + chunk is the numeral of the quotient followed by nine padded digits |
| `BignumString.EmitNumber` | clickhouse/base/bignum_string.h:276-288 | the canonical numeral of the copy, right-aligned, the cursor never before the buffer; terminates because the value falls |
| `BignumString.AbsoluteCopy` | clickhouse/base/bignum_string.h:268-274 | a fresh array holds the magnitude, the sign is that of the two's-complement value, and the text will fit |
| `BignumString.Format` | clickhouse/base/bignum_string.h:257-293 | the buffer ends in the printed value and a NUL and is otherwise unchanged |
| `BignumString.LimbArrToStr` | clickhouse/base/bignum_string.h:248-294 | fails exactly on null, unsupported width or short buffer; otherwise the text from the returned position to the final NUL is the canonical decimal |
| `DecimalText.NumeralNoLeadingZero` | clickhouse/base/bignum_string.h:262-288 | a printed number starts with '0' only if it is zero |
| `DecimalText.NumeralValue` | clickhouse/base/bignum_string.h:276-288 | the printed digits denote the number printed |
| `DecimalText.NumeralUnique` | ut/bignum_string_ut.cpp:62-82 | a digit string without leading zero is the only numeral of its value |
| `BignumString.DecodedInjective` | clickhouse/base/bignum_string.h:152-294 | two arrays of the same length with the same value are the same limbs |
| `BignumString.ParseOfPrint` | clickhouse/base/bignum_string.h:152-294 | every number in range prints as a well-formed string that denotes it |
| `BignumString.PrintOfParse` | ut/bignum_string_ut.cpp:62-82 | the text of what a string denotes is the string without leading zeros, "-0" becoming "0" |
| `BignumString.PrintThenParse` | clickhouse/base/bignum_string.h:152-294 | printing then parsing gives back every limb, in both sign modes and all supported widths |
| `BignumString.ParseThenPrint` | clickhouse/base/bignum_string.h:152-294 | accepted exactly when well formed and in range, and then printed as the canonical form |
| `DecimalColumn.StringToInt128` | clickhouse/types/bignum.cpp:78-81 | the signed 128-bit value of a well-formed string in range, nothing otherwise |
| `DecimalColumn.Int128ToString` | clickhouse/types/bignum.cpp:66-70 | the canonical decimal of every 128-bit value |
| `DecimalColumn.SyntacticChars` | clickhouse/columns/decimal.cpp:16-43 | a string is syntactic exactly if it has a digit and nothing else besides a sign and one dot |
| `DecimalColumn.ValidateDecimalString` | clickhouse/columns/decimal.cpp:11-58 | accepts exactly: optional minus, digits with at most one dot, some digit, and significant integer digits (plus scale if dotted) within precision |
| `DecimalColumn.SignificantDigits` | clickhouse/columns/decimal.cpp:30-57 | counting non-padding digits up to m decides whether the value is below 10^m |
| `DecimalColumn.CleanFraction` | clickhouse/columns/decimal.cpp:128-143 | the fraction cut or zero-padded to exactly scale digits |
| `DecimalColumn.Clean` | clickhouse/columns/decimal.cpp:112-143 | the normalised text: sign, integer digits, and scale fraction digits when there is a dot |
| `DecimalColumn.CleanValue` | clickhouse/columns/decimal.cpp:112-143 | normalising digits is multiplication by 10^scale truncated toward zero |
| `DecimalColumn.IntPartBound` | clickhouse/columns/decimal.cpp:45-57 | the digit count of the integer part decides whether the scaled value is below 10^precision |
| `DecimalColumn.CleanedParses` | clickhouse/columns/decimal.cpp:112-146 | the normalised text parses exactly unless a dotted string has no integer digit and scale is zero, and then to the stored value |
| `DecimalColumn.AcceptableWithin38` | clickhouse/columns/decimal.cpp:98-146 | up to precision 38 the 128-bit range never decides acceptance |
| `DecimalColumn.PointFiveExample` | clickhouse/columns/decimal.cpp:128-138 | ".5" passes the validation of every column of scale zero and is accepted by none |
| `DecimalColumn.NarrowExact` | clickhouse/columns/decimal.cpp:84-96 | the cast to the column's width never changes a value of at most precision digits |
| `DecimalColumn.NarrowWraps` | clickhouse/columns/decimal.cpp:84-96 | any other value is kept modulo the width and within its range |
| `DecimalColumn.CodeForTight` | clickhouse/columns/decimal.cpp:64-75 | the narrowest of the three widths that holds every value of the precision is chosen |
| `DecimalColumn.ColumnDecimal.constructor` | clickhouse/columns/decimal.cpp:64-75 | an empty column of the given precision and scale |
| `DecimalColumn.ColumnDecimal.AppendString` | clickhouse/columns/decimal.cpp:98-146 | accepted exactly when the scaled truncated value fits precision and 128 bits; then exactly that value is appended, else nothing changes |
| `DecimalColumn.ColumnDecimal.StringAt` | clickhouse/columns/decimal.cpp:165-199 | sign, canonical integer part, and exactly scale fraction digits of row i |
| `DecimalColumn.PlaceDotSplit` | clickhouse/columns/decimal.cpp:180-198 | cutting the numeral scale digits from the right, or zero-padding it, gives integer part and fraction |
| `DecimalColumn.PlaceDot` | clickhouse/columns/decimal.cpp:170-198 | the printed integer with its dot placed is the fixed-point text |
| `DecimalColumn.FixedParts` | clickhouse/columns/decimal.cpp:165-199 | a printed value has its sign, a canonical integer part and exactly scale fraction digits |
| `DecimalColumn.FixedScaled` | clickhouse/columns/decimal.cpp:98-199 | every fixed-point text is syntactically valid and denotes the value it was printed from |
| `DecimalColumn.PrintedIsAcceptable` | clickhouse/columns/decimal.cpp:98-199 | a printed value is accepted again exactly when it has at most precision digits |
| `DecimalColumn.ColumnDecimal.ReAppend` | clickhouse/columns/decimal.cpp:98-199 | printing a row and appending the text stores the same value again, exactly for values of at most precision digits |
| `WireFormat.VarintFits` | clickhouse/base/wire_format.cpp:71-89 | every 64-bit value takes at most ten bytes |
| `WireFormat.VarintRoundTrip` | clickhouse/base/wire_format.cpp:50-89 | every 64-bit value reads back, whatever bytes follow, which are left |
| `WireFormat.EndlessVarintRefused` | clickhouse/base/wire_format.cpp:50-69 | ten bytes that all announce another one, or an end before the last byte, are refused |
| `WireFormat.OrIsSum` | clickhouse/base/wire_format.cpp:50-69 | the bitwise or of numbers that share no bit is their sum |
| `WireFormat.OrNextByte` | clickhouse/base/wire_format.cpp:50-69 | the reader's bitwise or with the shifted next byte, cut to 64 bits, adds it to those before |
| `WireFormat.FixedRoundTrip` | clickhouse/base/wire_format.h:36-38 | a fixed-width integer reads back, whatever bytes follow |
| `WireFormat.StringRoundTrip` | clickhouse/base/wire_format.h:40-51 | a string of at most 0x00FFFFFF bytes reads back, whatever bytes follow |
| `WireFormat.LongStringRefused` | clickhouse/base/wire_format.h:40-51 | a longer string is written but every reader refuses it |
| `WireFormat.EscapedLength` | clickhouse/base/wire_format.cpp:125-132 | the escaped text is longer by three bytes for each escape counted |
| `WireFormat.EscapesExactly` | clickhouse/base/wire_format.cpp:104-110 | exactly NUL, backspace, tab, newline, the quote and the backslash are escaped |
| `WireFormat.EscapedIsClean` | clickhouse/base/wire_format.cpp:134-168 | none of those control bytes and no quote is left in the escaped text |
| `WireFormat.UnescapeEscape` | clickhouse/base/wire_format.cpp:134-168 | a reader of hexadecimal and backslash escapes gets the original back, for every byte string |
| `WireFormat.AnnouncedExactly` | clickhouse/base/wire_format.cpp:125-132 | the announced length is that of the quoted text exactly while three times the escape count fits an int |
| `WireFormat.OverflowExample` | clickhouse/base/wire_format.cpp:125-132 | a string of that many quotes has a wrong length announced |
| `WireFormat.QuotedFormat` | clickhouse/base/wire_format.cpp:112-169 | the only quotes are the first and last byte of the payload, no control byte is in it, and such a reader gets the original back |
| `WireFormat.QuotedInjective` | clickhouse/base/wire_format.cpp:112-169 | different strings have different quoted forms |
| `Frames.PackFrame` | clickhouse/base/compressed.cpp:172-256 | a chunk always packs into the preallocated buffer |
| `Frames.FrameRoundTrip` | clickhouse/base/compressed.cpp:57-136 | a written frame reads back, whatever follows, exactly when its size is within the reader's 1 GiB |
| `Frames.StoringCodecLawful` | clickhouse/base/compressed.cpp:172-256 | the laws assumed of a codec can be met |
| `Frames.OversizedFrameExample` | clickhouse/base/compressed.cpp:57-136 | a concrete frame that the writer emits and the reader refuses |
| `Frames.WrongHashRefused` | clickhouse/base/compressed.cpp:96-102 | bytes behind a hash that is not theirs are refused |
| `Frames.UnknownMethodRefused` | clickhouse/base/compressed.cpp:126-132 | a frame of another method than LZ4 or ZSTD is refused |
| `Frames.DeclaredSize` | clickhouse/base/compressed.cpp:104-124 | an accepted frame gives exactly as many bytes as it declares |
| `Frames.CutFrameRefused` | clickhouse/base/compressed.cpp:57-136 | a frame cut short at any byte is refused |
| `Frames.StreamRoundTrip` | clickhouse/base/compressed.cpp:57-256 | a sequence of frames decodes to the concatenation of their data, whatever follows |
| `Frames.EmittedReadable` | clickhouse/base/compressed.cpp:231-256 | with a manageable chunk size every frame the writer emits is one the reader accepts |
| `OutputStreams.BufferedOutput.OverSocket` | clickhouse/base/output.cpp:69-74 | an empty buffer over a socket |
| `OutputStreams.BufferedOutput.OverFrames` | clickhouse/base/output.cpp:69-74 | an empty buffer over a compressing stream |
| `OutputStreams.BufferedOutput.Stash` | clickhouse/base/output.cpp:9-44 | as many bytes as fit are accepted behind those already buffered |
| `OutputStreams.BufferedOutput.Flush` | clickhouse/base/output.cpp:82-96 | accepted bytes stay the same and in order even if it throws; otherwise none is left in the buffer, however the destination splits them |
| `OutputStreams.BufferedOutput.Write` | clickhouse/base/output.cpp:107-117 | delivered plus buffered bytes grow by exactly the bytes reported as taken, and not at all if it throws; what fits is only buffered, and more than half a buffer goes through |
| `OutputStreams.CompressedOutput.constructor` | clickhouse/base/compressed.cpp:139-145 | no frames yet, and a buffer preallocated for the chunk limit |
| `OutputStreams.CompressedOutput.PreallocateCompressBuffer` | clickhouse/base/compressed.cpp:231-256 | throws exactly when the library has no bound for the size, leaving the buffer; otherwise the buffer holds any packed chunk of it |
| `OutputStreams.CompressedOutput.Compress` | clickhouse/base/compressed.cpp:172-229 | one more frame carrying the chunk, written whole and flushed |
| `OutputStreams.CompressedOutput.Flush` | clickhouse/base/compressed.cpp:168-170 | nothing is left in the destination's buffer, and the frames are kept |
| `OutputStreams.CompressedOutput.Write` | clickhouse/base/compressed.cpp:149-166 | everything is taken, in frames of exactly the limit except the last, or nothing; throws exactly when an unlimited chunk has no bound |
| `OutputStreams.WriteAll` | clickhouse/base/wire_format.cpp:32-48 | all bytes are accepted in order, however the stream takes them, and it cannot fail where single writes cannot |
| `OutputStreams.VarintBytes` | clickhouse/base/wire_format.cpp:71-89 | the ten-byte loop produces the varint |
| `OutputStreams.WriteVarint64` | clickhouse/base/wire_format.cpp:71-89 | the varint of every 64-bit value is accepted |
| `OutputStreams.WriteFixed` | clickhouse/base/wire_format.h:62-64 | the little-endian bytes are accepted |
| `OutputStreams.WriteString` | clickhouse/base/wire_format.h:70-73 | the length-prefixed string is accepted |
| `OutputStreams.FindQuotedChars` | clickhouse/base/wire_format.cpp:104-110 | the first byte that must be escaped |
| `OutputStreams.CountQuoted` | clickhouse/base/wire_format.cpp:125-131 | the number of bytes that must be escaped |
| `OutputStreams.WriteEscaped` | clickhouse/base/wire_format.cpp:136-167 | the writing pass emits the escaped text, whose length the counting pass announced |
| `OutputStreams.WriteQuotedString` | clickhouse/base/wire_format.cpp:112-169 | the accepted bytes are the announced length and the quoted text, a length-prefixed string while the int holds the count |
| `InputStreams.BufferedInput.FromWindow` | clickhouse/base/input.cpp:48-56 | bytes handed out followed by those remaining are those that remained before |
| `InputStreams.BufferedInput.Next` | clickhouse/base/input.cpp:72-80 | nothing is lost, repeated or reordered, and some byte comes while any remains |
| `InputStreams.BufferedInput.Read` | clickhouse/base/input.cpp:82-94 | the same, from the buffer alone while it holds any byte and past it for more than half a buffer |
| `InputStreams.BufferedInput.Skip` | clickhouse/base/input.cpp:8-21 | succeeds exactly when enough bytes remain, and then drops exactly those; otherwise all |
| `InputStreams.OpenFrame` | clickhouse/base/compressed.cpp:57-136 | succeeds exactly on a well-formed frame with matching hash, gives its data and stops behind it |
| `InputStreams.CompressedInput.Decompress` | clickhouse/base/compressed.cpp:57-136 | opens exactly the next frame |
| `InputStreams.CompressedInput.Next` | clickhouse/base/compressed.cpp:47-55 | hands out the payload in order, at least one byte while any remains, and touches nothing beyond the frames |
| `InputStreams.CompressedInput.Close` | clickhouse/base/compressed.cpp:35-45 | complains exactly when opened data was left unread; after the whole payload it does not |
| `InputStreams.ReadAll` | clickhouse/base/wire_format.cpp:18-30 | exactly len bytes whatever the short reads, or failure exactly when a plain stream has fewer |
| `InputStreams.ReadVarint64` | clickhouse/base/wire_format.cpp:50-69 | value and position are those of the bytes, independent of how they arrive |
| `InputStreams.ReadFixed` | clickhouse/base/wire_format.h:36-38 | value and position are those of the bytes |
| `InputStreams.ReadString` | clickhouse/base/wire_format.h:40-51 | accepts exactly the length-prefixed strings within the limit and stops behind them |
| `InputStreams.SkipString` | clickhouse/base/wire_format.cpp:91-102 | accepts exactly what ReadString accepts and stops at the same position |
| `StreamLoopback.WritePieces` | clickhouse/base/output.cpp:82-117 | any sequence of writes and a flush: the concatenation is accepted and nothing stays buffered |
| `StreamLoopback.SendPieces` | clickhouse/client.cpp:444-453 | the socket receives exactly the frames, their payload is the concatenation of the pieces, each within limit and buffer |
| `StreamLoopback.ReceivePieces` | clickhouse/base/compressed.cpp:35-136 | any pattern of reads returns the payload, with a clean end and no byte left over |
| `StreamLoopback.OneMoreStretch` | clickhouse/base/input.cpp:8-94 | portions that cover a front of the stream without gap or overlap still do with the next one |
| `StreamLoopback.TakeAll` | clickhouse/base/input.cpp:8-94 | any mix of Read, Next and Skip over any schedule of short reads covers a front of the stream, nothing lost, repeated or reordered |
| `StreamLoopback.Loopback` | clickhouse/base/compressed.cpp:47-256 | what was written is what is read, for all pieces, chunk sizes including none, buffer sizes, socket schedules and read sizes |
| `Columns.Cut` | clickhouse/columns/array.cpp:204-219 | row i is the flat data between offsets i - 1 and i |
| `Columns.SliceMeaning` | clickhouse/columns/array.cpp:114-127 | slicing at any depth gives a consistent column holding exactly the range of rows |
| `Columns.RowColumn` | clickhouse/columns/array.cpp:107-112 | row n as a consistent column holding exactly that row's elements |
| `Columns.VectorSliceClips` | clickhouse/columns/numeric.cpp:94-97 | a leaf column cuts a range past its end down to what there is |
| `Columns.CanAppendExactly` | clickhouse/columns/array.cpp:31-54 | a type takes another exactly if their array depths are equal and their leaves are equal or Bool over UInt8 |
| `Columns.BoolFromUInt8` | ut/column_array_ut.cpp:104-124 | at every depth an array of Bool takes one of UInt8, and not the other way round |
| `Columns.Append` | clickhouse/columns/array.cpp:138-144 | a type that can be appended adds exactly its rows; a throwing call changes nothing, at any depth |
| `Columns.AppendRows` | clickhouse/columns/array.cpp:138-144 | throws exactly when there is a row of a type that cannot be appended, and then before any change |
| `Columns.AppendAsColumn` | clickhouse/columns/array.cpp:96-105 | one more row of exactly the source's elements, or a mismatch that leaves the column unchanged |
| `ColumnArrays.ColumnArray.Create` | clickhouse/columns/array.cpp:68-87 | succeeds exactly when the offsets never decrease and end at the data size |
| `ColumnArrays.ColumnArray.AddOffset` | clickhouse/columns/array.cpp:209-215 | the new last offset is the old one plus n |
| `ColumnArrays.ColumnArray.AppendAsColumn` | clickhouse/columns/array.cpp:96-105 | the rows grow by one holding the source's elements exactly when its type can be appended, else nothing changes |
| `ColumnArrays.ColumnArray.GetAsColumn` | clickhouse/columns/array.cpp:107-112 | row n as a column, or an error past the end |
| `ColumnArrays.ColumnArray.Slice` | clickhouse/columns/array.cpp:114-127 | the range of rows in a new column, whose validating constructor never throws |
| `ColumnArrays.ColumnArray.Append` | clickhouse/columns/array.cpp:138-144 | the rows grow by the other column's rows, or a mismatch leaves everything unchanged |
| `ColumnArrays.ColumnArray.Clear` | clickhouse/columns/array.cpp:182-185 | no rows, same type, still consistent |
| `ColumnArrays.ApplyRefines` | clickhouse/columns/array.cpp:96-144 | each operation on offsets and data is the same operation on a sequence of rows |
| `ColumnArrays.RunRefines` | clickhouse/columns/array.cpp:68-219 | so is every run of operations, with offsets monotone and ending at the data size throughout |
| `ColumnArrays.ColumnArray.Replay` | clickhouse/columns/array.cpp:68-219 | any sequence of operations on the object is the same sequence on its rows |
| `ColumnSerial.OffsetsRoundTrip` | clickhouse/columns/array.cpp:154-180 | 64-bit offsets read back from their bytes |
| `ColumnSerial.CellsRoundTrip` | clickhouse/columns/numeric.cpp:77-87 | fixed-width cells read back from their bytes |
| `ColumnSerial.LoadBodyOverlays` | clickhouse/columns/array.cpp:154-169 | loading over any column of the same type replaces it except below levels without elements, and consumes exactly the body |
| `ColumnSerial.OverlayExact` | clickhouse/columns/array.cpp:154-169 | that is the saved column exactly when the target held nothing at those levels |
| `ColumnSerial.PrefixLoads` | clickhouse/columns/array.cpp:146-173 | with at least one row the leaf's prefix is read from in front of everything, at any depth |
| `ColumnSerial.WrongPrefixRefused` | clickhouse/columns/array.cpp:146-152 | other bytes in the place of the prefix are refused, at any depth |
| `ColumnSerial.SaveLoadOver` | clickhouse/columns/array.cpp:146-180 | loading saved bytes over a column restores the saved one and consumes exactly its bytes if and only if nothing stale survives |
| `ColumnSerial.SaveLoad` | clickhouse/columns/column.cpp:10-22 | a saved column with rows loads into a fresh column of its type, whatever follows |
| `ColumnSerial.CutColumnRefused` | clickhouse/columns/array.cpp:146-169 | a saved column cut short at any byte is refused |
| `ColumnSerial.EmptyArrayPrefix` | clickhouse/columns/array.cpp:146-152 | an array without rows survives exactly when its leaf has no prefix |
| `ColumnSerial.EmptyArrayExample` | clickhouse/columns/array.cpp:146-152 | a concrete empty array whose prefix stays unread |
| `ColumnSerial.StaleExample` | clickhouse/columns/array.cpp:154-169 | a concrete column that loading leaves with a stale element |
| `BlockFormat.InfoRoundTrip` | clickhouse/client.cpp:799-821 | the block info reads back from revision 51903 on and is the default before |
| `BlockFormat.InfoFields` | clickhouse/client.cpp:1128-1134 | a reader that goes by the field numbers 1, 2 and 0 finds exactly the info in what is written |
| `BlockFormat.OldInfo` | clickhouse/client.cpp:799-821 | below revision 51903 nothing is written for the info, and it reads as the default |
| `BlockFormat.FlagBytes` | clickhouse/client.cpp:1143-1146 | from revision 54454 on each column carries one zero byte, and none before |
| `BlockFormat.ItemRefused` | clickhouse/client.cpp:846-863 | a column with another serialization or of an unknown type is refused |
| `BlockFormat.AppendAllExactly` | clickhouse/block.cpp:55-63 | a block takes a sequence of columns exactly if all have one size, and then holds them in order with that row count |
| `BlockFormat.ItemRoundTrip` | clickhouse/client.cpp:836-865 | a column's name, type and content read back in every revision, rows or not |
| `BlockFormat.ItemsRoundTrip` | clickhouse/client.cpp:836-868 | so does any sequence of columns, each passing the row-count check of the block |
| `BlockFormat.BlockRoundTrip` | clickhouse/client.cpp:1126-1156 | reading what was written gives back what is carried of the block and consumes exactly its bytes, in every revision |
| `BlockFormat.SurvivesExactly` | clickhouse/client.cpp:797-868 | the block itself comes back exactly when its info is carried by the revision and it has columns or no rows |
| `BlockFormat.CutBlockRefused` | clickhouse/client.cpp:797-868 | a block cut short at any byte is refused, in every revision |
| `BlockFormat.LossExamples` | clickhouse/client.cpp:797-868 | a block without columns that loses its row count in every revision, and one whose info an old revision loses |
| `BlockFormat.FaithfulCatalog` | clickhouse/client.cpp:855-863 | the assumption on type names can be met |
| `BlockTransfer.SaveBody` | clickhouse/columns/array.cpp:175-180 | the accepted bytes are the column's body |
| `BlockTransfer.LoadPrefix` | clickhouse/columns/array.cpp:146-152 | reads the prefix exactly as the bytes say, from a plain or compressed stream |
| `BlockTransfer.LoadBody` | clickhouse/columns/array.cpp:154-169 | loads the column exactly as the bytes say, from a plain or compressed stream |
| `BlockTransfer.WriteInfo` | clickhouse/client.cpp:1128-1134 | the accepted bytes are the encoded info |
| `BlockTransfer.WriteItem` | clickhouse/client.cpp:1139-1154 | the accepted bytes are the encoded column |
| `BlockTransfer.WriteBlock` | clickhouse/client.cpp:1126-1156 | the accepted bytes are the encoded block, and nothing stays buffered |
| `BlockTransfer.ReadInfo` | clickhouse/client.cpp:799-821 | decodes the info exactly as the bytes say |
| `BlockTransfer.ReadItem` | clickhouse/client.cpp:836-865 | decodes one column exactly as the bytes say |
| `BlockTransfer.ReadItems` | clickhouse/client.cpp:836-868 | decodes the columns, refusing one of another size than the first |
| `BlockTransfer.ReadBlock` | clickhouse/client.cpp:797-868 | value and position are those of the decoded bytes, from a plain or compressed stream |
| `BlockTransfer.SendBlockData` | clickhouse/client.cpp:444-453 | the socket stream gains the block's bytes, or frames whose payload they are, each within limit and buffer |
| `BlockTransfer.SendData` | clickhouse/client.cpp:1158-1167 | a packet head and the block's bytes or frames, all flushed |
| `BlockTransfer.HeadBytes` | clickhouse/client.cpp:1158-1163 | a data packet starts with code 2 and, from revision 50264 on, an empty table name |
| `BlockTransfer.LeftOver` | clickhouse/base/compressed.cpp:35-55 | what is left unread ends at a frame boundary exactly if no opened frame has bytes left |
| `BlockTransfer.ReadFramed` | clickhouse/client.cpp:878-882 | the block that the frames' payload encodes, accepted exactly when what follows it in the payload is whole frames, which are then left |
| `BlockTransfer.ReceiveData` | clickhouse/client.cpp:870-897 | the block that the bytes or the payload of the frames encode, stopping behind it; a compressed packet is accepted exactly when what follows the block is whole frames |
| `BlockTransfer.Exchange` | clickhouse/client.cpp:444-453 | a block sent and received is what is carried of it and leaves no byte, for all revisions, compression settings, chunk and buffer sizes and socket schedules |
| `ClientProtocol.PullConsumes` | clickhouse/client.cpp:382-414 | NextBlock takes packets from the front only, at least one if it returns, and resets the state exactly when it gives no block |
| `ClientProtocol.PullProper` | clickhouse/client.cpp:382-414 | NextBlock yields the response's next data packet that has columns; without one the response is read exactly through its terminator |
| `ClientProtocol.PullAllProper` | clickhouse/client.cpp:416-421 | pulling to the end yields exactly those packets in order and leaves nothing unread |
| `ClientProtocol.ExecuteYieldsResponse` | clickhouse/client.cpp:416-442 | executing a query, with or without external tables, hands over exactly the server's data blocks, ends idle with nothing unread, and sends exactly the query, its tables and one cancel per refused packet |
| `ClientProtocol.AwaitOneResponse` | clickhouse/client.cpp:573-593 | ending an insert reads exactly one response and no further |
| `ClientProtocol.StepLinked` | clickhouse/client.cpp:360-618 | every call keeps that a selecting client has its query to report to |
| `ClientProtocol.LinkedOverRuns` | clickhouse/client.cpp:360-618 | so does every run, reconnects included |
| `ClientProtocol.EndInsertState` | clickhouse/client.cpp:573-593 | idle exactly when it returns, still inserting when it throws, and a no-op outside an insert |
| `ClientProtocol.InsertState` | clickhouse/client.cpp:487-526 | an insert past its checks ends idle if it returns and inserting if it throws |
| `ClientProtocol.BeginInsertState` | clickhouse/client.cpp:528-563 | refused without effect unless idle and without callbacks; past its checks always inserting, the query pointer cleared |
| `ClientProtocol.RefusedWhileInserting` | clickhouse/client.cpp:360-363 | while inserting, every select, insert start, NextBlock, Cancel and Ping is refused before a byte is written or read |
| `ClientProtocol.NoUnexpectedEnd` | clickhouse/client.cpp:584-590 | the ProtocolError of EndInsert is never thrown by any call in any state |
| `ClientProtocol.InsertingSticks` | clickhouse/client.cpp:565-618 | a call leaves Inserting exactly when it is a reconnect whose connect works or an EndInsert that returns, and then to Idle |
| `ClientProtocol.InsertingSticksOverRuns` | clickhouse/client.cpp:487-618 | over every run without such a call the client stays inserting |
| `ClientProtocol.StepSettled` | clickhouse/client.cpp:360-618 | every call but one that sends the end marker as data leaves unread packets only as the rest of one response while selecting |
| `ClientProtocol.SettledOverRuns` | clickhouse/client.cpp:360-618 | over every run of such calls the client is idle only when each response has been read exactly through its terminator |
| `ClientProtocol.InsertSettledExactly` | clickhouse/client.cpp:487-526 | an insert leaves nothing unread exactly unless the header arrives and the block is the end marker, without columns or rows |
| `ClientProtocol.SendBlockSettledExactly` | clickhouse/client.cpp:565-571 | sending a block leaves nothing unread exactly unless it is the end marker |
| `ClientProtocol.TablesPromptNothing` | clickhouse/client.cpp:455-465 | exactly the tables with rows are sent, in order, and because the others are skipped the server takes none for the end of the data |
| `ClientProtocol.QueryAsksOnce` | clickhouse/client.cpp:424-437 | a query with its tables and marker gets exactly one answer and leaves the server at rest |
| `ClientProtocol.EmptyTableEndsData` | clickhouse/client.cpp:457-460 | a table without rows, were it sent, would leave a second response behind the first |
| `ClientProtocol.StepInStep` | clickhouse/client.cpp:360-618 | whatever the server sends, a call leaves it waiting for data only if the client is inserting |
| `ClientProtocol.InStepOverRuns` | clickhouse/client.cpp:360-618 | so does every run |
| `ClientProtocol.EndedTwice` | clickhouse/client.cpp:573-593 | after the end marker was sent as data, ending the insert reads the first answer and leaves the second unread |
| `ClientProtocol.MarkerInsertExample` | clickhouse/client.cpp:487-526 | with a concrete well-behaved server inserting the end marker returns, leaves a packet unread, and the next ping fails |
| `ClientProtocol.PullAllWrites` | clickhouse/client.cpp:889-894 | reading a response sends exactly one cancel for each data packet that the callback refuses |
| `ClientProtocol.CancelExactly` | clickhouse/client.cpp:997-1005 | a cancel is sent before the rest of the response is read, and it ends as the response does, idle with nothing unread |
| `ClientProtocol.SelectSettled` | clickhouse/client.cpp:360-437 | beginning a select leaves exactly one whole response unread, having sent perhaps a ping, the query, the tables with rows and one end marker |
| `ClientProtocol.ReceivePacket` | clickhouse/client.cpp:685-774 | one packet off the front, with state and query unchanged; failure at the end of the input |
| `ClientMessages.AwaitWrites` | clickhouse/client.cpp:889-894 | waiting in an insert writes the cancels of exactly the packets it reads |
| `ClientMessages.StartExactly` | clickhouse/client.cpp:500-526 | starting an insert writes its query and marker, reads the answer and gets the header block if it ends in one |
| `ClientMessages.EndExactly` | clickhouse/client.cpp:573-593 | ending an insert writes one marker, reads one answer and ends as it does |
| `ClientMessages.InsertBodyExactly` | clickhouse/client.cpp:500-526 | if the header arrives exactly the block and the end marker follow, otherwise neither, and the outcome in each case |
| `ClientMessages.InsertExactly` | clickhouse/client.cpp:487-526 | an insert writes the ping, the query and its marker, the block and the end marker, as a literal list, and returns what the answers say |
| `ClientMessages.InsertOfColumns` | ut/low_cardinality_nullable_tests.cpp:118-135 | a block with columns, with or without rows, leaves nothing unread, and a ping or select that follows begins |
| `ClientMessages.BeginInsertExactly` | clickhouse/client.cpp:528-563 | returns exactly if the header arrives, and then that header; what it writes as a literal list |
| `ClientMessages.SendBlockExactly` | clickhouse/client.cpp:565-571 | sending a block writes exactly it and changes nothing else, unless it is the end marker |
| `ClientMessages.ConversationExactly` | clickhouse/client.cpp:528-593 | an insert in parts sends exactly the blocks in order between the query's marker and one end marker, and ends as the server's answer does |
| `ClientMessages.RefusedExactly` | clickhouse/client.cpp:360-609 | a call is refused exactly in a state that does not allow it, and then before any effect |
| `ClientMessages.BrokenPacket` | clickhouse/client.cpp:685-774 | at an unknown or unreadable packet reading stops with the right error, a select is over and an insert stays |
| `ClientMessages.EndOfConnection` | clickhouse/client.cpp:685-690 | so it does where the packets end |
| `ClientMessages.ReconnectExactly` | clickhouse/client.cpp:611-618 | a reconnect forgets what was unread and keeps the query to report to; a refused one changes nothing |
| `ClientImpl.Impl.ReceivePacket` | clickhouse/client.cpp:685-774 | the object makes the step of the state machine |
| `ClientImpl.Impl.ProcessPacket` | clickhouse/client.cpp:776-788 | false exactly on an exception or the end of the stream |
| `ClientImpl.Impl.ResetState` | clickhouse/client.cpp:790-795 | idle and without query |
| `ClientImpl.Impl.NextBlock` | clickhouse/client.cpp:382-414 | the packet loop makes the step of the state machine |
| `ClientImpl.Impl.DrainBlocks` | clickhouse/client.cpp:416-421 | repeated NextBlock hands over the blocks of the state machine's complete pull |
| `ClientImpl.Impl.Ping` | clickhouse/client.cpp:595-609 | makes the step of the state machine |
| `ClientImpl.Impl.BeginExecuteQuery` | clickhouse/client.cpp:360-380 | makes the step of the state machine |
| `ClientImpl.Impl.ExecuteQuery` | clickhouse/client.cpp:416-422 | makes the step of the state machine |
| `ClientImpl.Impl.SendExternalData` | clickhouse/client.cpp:455-465 | the loop sends the tables as the state machine does |
| `ClientImpl.Impl.SelectWithExternalData` | clickhouse/client.cpp:424-442 | makes the step of the state machine |
| `ClientImpl.Impl.Cancel` | clickhouse/client.cpp:997-1005 | makes the step of the state machine |
| `ClientImpl.Impl.Insert` | clickhouse/client.cpp:487-526 | makes the step of the state machine |
| `ClientImpl.Impl.BeginInsert` | clickhouse/client.cpp:528-563 | makes the step of the state machine |
| `ClientImpl.Impl.SendInsertBlock` | clickhouse/client.cpp:565-571 | makes the step of the state machine |
| `ClientImpl.Impl.EndInsert` | clickhouse/client.cpp:573-593 | makes the step of the state machine |
| `ClientImpl.Impl.ResetConnection` | clickhouse/client.cpp:611-618 | nothing changes if the connect throws; otherwise idle with new streams, the query pointer as it was, whatever the handshake |
| `ClientImpl.Impl.Replay` | clickhouse/client.cpp:360-618 | any sequence of calls on the object is a run of the state machine and inherits its invariants |
| `Failover.AttemptsMeaning` | clickhouse/client.cpp:620-659 | all attempts but the last end in a system_error, the last one too only at the limit |
| `Failover.AttemptsSplit` | clickhouse/client.cpp:642-659 | attempts over several rounds are those of the first round and, if all failed, those of the rest |
| `Failover.TurnClosed` | clickhouse/base/endpoints_iterator.cpp:25-29 | where the iterator is after up to n steps |
| `Failover.FullTurns` | clickhouse/base/endpoints_iterator.cpp:25-29 | whole rounds bring the iterator back |
| `Failover.OneRound` | clickhouse/base/endpoints_iterator.cpp:25-29 | one round visits every endpoint exactly once |
| `Failover.Cycle` | clickhouse/base/endpoints_iterator.cpp:25-29 | the j-th endpoint visited is the one j steps on |
| `Failover.Connector.constructor` | clickhouse/base/endpoints_iterator.cpp:18-23 | the first endpoint is current and the iterator agrees |
| `Failover.Connector.Next` | clickhouse/base/endpoints_iterator.cpp:25-29 | the next endpoint, wrapping around |
| `Failover.Connector.ResetConnectionEndpoint` | clickhouse/client.cpp:620-640 | tries endpoints in cyclic order up to the first that does not fail with a system_error; if all n do, each was tried once and endpoint and iterator are back; after another exception they agree exactly when the iterator is at an equal endpoint, for distinct ones exactly at the first attempt |
| `Failover.Connector.CreateConnection` | clickhouse/client.cpp:642-659 | the same over max(1, send_retries) rounds: exactly n * max(1, send_retries) attempts when all fail; where the iterator is in every outcome |
| `Failover.Connector.RetryHere` | clickhouse/client.cpp:1246-1269 | calls and reconnects as the scripts decide, every reconnect to the current endpoint |
| `Failover.Connector.TryNext` | clickhouse/client.cpp:1277-1283 | one reconnect to the next endpoint, and one call exactly if that connects |
| `Failover.Connector.Walk` | clickhouse/client.cpp:1273-1294 | reconnects to the endpoints in cyclic order as far as the scripts decide, the iterator as many steps on |
| `Failover.Connector.RetryElsewhere` | clickhouse/client.cpp:1273-1294 | the walk with the endpoint put back on failure, and the iterator left where the walk has taken it |
| `Failover.Connector.RetryGuard` | clickhouse/client.cpp:1244-1295 | ends as the scripts decide, within r + n * r calls and r - 1 + n * r reconnects, exactly the latter when all fail; the reconnects go to the current endpoint and then cyclically round; iterator and endpoint in every outcome, and when exactly they agree after another exception |
| `Failover.HereMeaning` | clickhouse/client.cpp:1246-1269 | at most limit calls and one reconnect fewer, all calls before the last ending in a system_error, and how it ends is how the last one ended |
| `Failover.WalkMeaning` | clickhouse/client.cpp:1273-1294 | at most limit reconnects and as many calls, exactly limit reconnects when it ends in a system_error, and how it ends is how the last one ended |
| `Failover.GuardMeaning` | clickhouse/client.cpp:1244-1295 | the bounds of a guarded call; what is thrown came from the last call or reconnect, and nothing before it ended otherwise than to be retried |
| `Failover.TurnBack` | clickhouse/base/endpoints_iterator.cpp:25-29 | the iterator is back exactly after whole rounds |
| `Failover.SyncAfterMoves` | clickhouse/client.cpp:1290-1293 | among distinct endpoints, an endpoint put back agrees with the iterator exactly after a whole number of rounds |
| `Failover.SyncWithinRound` | clickhouse/client.cpp:635-638 | within one round, exactly before the first move |
| `Failover.RoundWitness` | clickhouse/client.cpp:635-638 | two endpoints: apart after another exception at the second attempt of a round, agreeing after one at the first |
| `Failover.WalkWitness` | clickhouse/client.cpp:1290-1293 | two endpoints: apart after another exception at the first reconnect of the walk, agreeing after one at the second |
| `GuardedPing.HereMatches` | clickhouse/client.cpp:1246-1269 | pings on the current endpoint end for the retry loop as the network decides, leaving only pongs unread |
| `GuardedPing.ElsewhereMatches` | clickhouse/client.cpp:1273-1294 | so do those on the other endpoints, where a ping that is answered leaves nothing unread |
| `GuardedPing.GuardedPingMeaning` | clickhouse/client.cpp:365-367 | a guarded ping ends after as many pings and reconnects as the retry loops make, with the client idle and only pongs unread, how many if it returns |
| `GuardedPing.StaleExactly` | clickhouse/client.cpp:1246-1269 | nothing is unread exactly if each ping sent in vain was followed by a reconnect that connected |
| `GuardedPing.StalePongExample` | clickhouse/client.cpp:1246-1269 | a ping answered too late, a refused reconnect and a second ping leave a pong unread |
| `GuardedPing.SelectAfterPongs` | clickhouse/client.cpp:382-414 | stale pongs change nothing of what a select hands over, and it reads them away |
| `GuardedPing.InsertAfterPongs` | clickhouse/client.cpp:487-526 | nor of what an insert sends and returns |
| `GuardedPing.GuardedSelect` | clickhouse/client.cpp:360-442 | a select behind a guarded ping sends its query and tables, hands over exactly the server's blocks and leaves nothing unread, or the guard throws with the client idle |
| `GuardedPing.GuardedInsert` | clickhouse/client.cpp:487-526 | an insert behind a guarded ping sends its block and returns as without trouble, or the guard throws with the client idle |

## Left out

- Sockets, TLS, DNS, timeouts and sleeping: a socket only takes or gives some bytes at a time, and a read at the end gives none; faults in the middle of a stream are not described.
- LZ4, ZSTD and CityHash internals: a codec is any record of functions obeying the laws of `Frames.Lawful`.
- Aliasing of columns: an array column owns its nested column, so sharing it, moving it, `Swap`, and appending a column to itself are not modelled.
- `ColumnArray::OffsetsIncrease` and the mutable `GetData`/`GetOffsets`, which step outside the invariant on purpose.
- Tuple, Map, Nullable, LowCardinality, String, Date, Enum and geo columns, and `CanAppendTupleType`: leaves are fixed-width cells with an optional prefix.
- Column factory and type-name parsing: `BlockFormat.Faithful` assumes only that the factory undoes naming.
- `Block::RefreshRowCount`, `Clear`, `Reserve` and the iterator, and the zero-copy `Next` of output streams, `BufferOutput` and `WriteParamNullRepresentation`: they would add only easy members.
- Handshake, the bytes of a query packet, settings and parameters, and the UnimplementedError for old revisions.
- Exceptions thrown by callbacks, and what a server does with a query; the end of the data is the block without columns and rows that the client sends as such (clickhouse/client.cpp:577-579, 1119-1121), or an external table without rows, as the comment at clickhouse/client.cpp:458 describes the server. A well-behaved server gives an end of data that it did not expect a whole response too, and does not answer blocks with rows, not even after it has refused the insert.
- Retries around the ping: a reconnect whose handshake is cut off by a network error, and a network error in the middle of a message, are not described; in runs of calls a ping succeeds or throws once.
- WireFormat.AnnouncedExactly: signed overflow, undefined in C++, is taken to wrap around.
- OutputStreams.CompressedOutput.Write: a chunk of 2^31 bytes or more throws, because the laws give such sizes no bound; the original casts the size to int, and what the libraries do with the cut size is not modelled.
- InputStreams.OpenFrame: a frame that declares less than its own header fails; in the original the subtraction wraps around and what is then read is not modelled.
- The private constructor of ColumnDecimal from a type and data, and the column operations that ColumnDecimal forwards to its nested column.
