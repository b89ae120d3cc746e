# NReco.Csv reader and writer in Dafny

This project models the two classes of NReco.Csv: `CsvReader`, a streaming
CSV reader over a ring buffer, and `CsvWriter`, which quotes and escapes
fields. It proves properties of the model.

**Reader.** `CsvReader` keeps a `char[]` ring of `BufferSize + min(BufferSize, 8192)`
places and two cursors, `lineStartPos` and `actualBufferLen`. `FillBuffer`
tops the ring up from the `TextReader`. `Read` then scans one line from
`lineStartPos` with a small state machine:
- quoted fields, with doubled quotes inside them;
- the `\r`, `\n` and `\r\n` terminators;
- a delimiter of one or more characters;
- trimmed spaces.

The fields it finds are kept as linear ranges into the ring. The indexer,
`GetValueLength` and `ProcessValueInBuffer` read them from there.

The model comes in layers:

- `CsvText` (csv_text.dfy) writes out the .NET string operations the code
  relies on: `Contains`, `Replace` and `Trim`. It also holds the quote
  doubling and `Join`, a list of texts with a separator between each two,
  which is how a record's fields stand in the writer's output.
- `CsvScan` (csv_scan.dfy) states one line scan as pure functions over a
  `Window`, the buffered characters from `lineStartPos` on. `StepAt` is one
  pass of Read's loop body, `QuotedEnd` is `ReadQuotedFieldToEnd`, and
  `FieldValue` is `Field.GetValueInternal`.
- `CsvRecords` (csv_records.dfy) states the reader's effect on the stream as
  functions of values. `Fill` is `FillBuffer`, `Consume` is the line-end
  update, and `NextRecord` is a whole `Read`, blank-line skip included.
- `Reader` (csv_reader.dfy) holds the classes `TextSource`, `Field` and
  `CsvReader`, with the ring as an `array<char>`, the pool of fields as a
  sequence of `Field` objects and the cursors as fields.
  - Each method is proved against the functions above.
  - The invariant `Valid()` keeps the ring within its bounds: `0 <= lineStartPos < bufferLength`
    and `0 <= actualBufferLen <= bufferLength`.
  - It also ties the fields of the current record to the window they were
    scanned in.
- `CsvScanProps` (csv_scan_props.dfy) proves what a line reads as, whatever
  ends it, under any delimiter without a quote or a line break:
  - a line of cells, each bare text, a quoted value with doubled quotes,
    or a quoted value with literal text after its closing quote, read as one
    field per cell;
  - as instances: a line without quotes, against a reference splitter; a
    quoted field alone; a line whose quotes all come after content;
  - an unclosed quote, and a line without a terminator in an input that
    is not exhausted.
- `Writer` (csv_writer.dfy) holds the quote decision and escaping of
  `WriteField` as pure functions (`ShouldQuote`, `Encoded`). The classes
  `TextSink`, the `TextWriter`, and `CsvWriter` append the result.
  `CsvWriter.Valid()` keeps `doubleQuoteString == quoteString + quoteString`
  and `recordFieldCount` equal to the number of fields of the current
  record. The output is what was written before plus the current record's
  fields joined by the delimiter.
- `RoundTrip` (csv_roundtrip.dfy) connects the two. With the quote `"`, a
  field the writer quotes is read back as written under any delimiter, and
  a whole record, its fields quoted or not, is read back field by field
  under a one-character delimiter.

The model keeps these behaviours of the code as written:
- `GetValueLength` of a quoted field counts its two quotes.
- A quote left open at the end of the input reads as its text less the
  last character, so `"abc` reads as `ab`.
- A lone `"` at the end of the input is a quoted field of Length 1, and
  `ProcessValueInBuffer` hands it over in place as the range at start + 1
  of length -1 (`HandedValue` allows a negative length only for an empty
  value).
- A line of spaces is skipped when fields are trimmed.

## Model

| member | source | states |
|---|---|---|
| CsvText.Contains | src/NReco.Csv/CsvWriter.cs:71 | String.Contains: true exactly when t occurs at some offset of s |
| CsvText.DoubleQuotes | src/NReco.Csv/CsvWriter.cs:84 | doubling the quotes of s adds one character per quote of s |
| CsvText.Trim | src/NReco.Csv/CsvWriter.cs:65-67 | String.Trim: the result is the run of s after its leading white space and before its trailing white space; what is cut at either end is white space, and a non-empty result neither starts nor ends with white space |
| CsvText.ReplaceUndoesDoubleQuotes | src/NReco.Csv/CsvReader.cs:319-320 | collapsing `""` to `"` undoes the doubling of quotes, for every value |
| CsvText.ReplaceQuoteIsDoubleQuotes | src/NReco.Csv/CsvWriter.cs:84 | the writer's Replace of `"` by `""` is the doubling of quotes |
| CsvText.ReplaceAbsent | src/NReco.Csv/CsvWriter.cs:83-84 | Replace leaves a string without the pattern as it is |
| CsvScan.EmptyField | src/NReco.Csv/CsvReader.cs:298-304 | Field.Reset(start): an unquoted field at start with Length 0 and no escapes |
| CsvScan.QuotedEnd | src/NReco.Csv/CsvReader.cs:93-117 | ReadQuotedFieldToEnd stops at or after start-1 and before maxPos and only adds escapes; it fails (the line is too long) only when the input is not exhausted |
| CsvScan.StartState | src/NReco.Csv/CsvReader.cs:201-205 | the scan starts at lineStartPos with one empty, unquoted current field and ignoreQuote false |
| CsvScan.StepAt | src/NReco.Csv/CsvReader.cs:211-265 | one pass of the loop body always advances charPos and never drops a closed field; it gives up only when the input is not exhausted |
| CsvScan.ScanFrom | src/NReco.Csv/CsvReader.cs:211-271 | the loop ends the line past where it started, with at least one more field; at EOF it always ends the line |
| CsvScan.Scan | src/NReco.Csv/CsvReader.cs:201-271 | a line read has at least one field, and a non-empty window consumes at least one character; at EOF a line is always read |
| CsvScan.FieldValue | src/NReco.Csv/CsvReader.cs:314-325 | the value of an unquoted field is exactly its characters in the window |
| CsvScan.ScanWithin | src/NReco.Csv/CsvReader.cs:211-267 | every field of a line read lies inside the characters the line consumes |
| CsvScan.QuotedValueLength | src/NReco.Csv/CsvReader.cs:314-321 | the value of a closed quoted field has Length - 2 - EscapedQuotesCount characters |
| CsvScan.QuotedEscapesBound | src/NReco.Csv/CsvReader.cs:100-106 | a quoted field holds at least two characters per escape plus its opening quote |
| CsvScan.ScanShaped | src/NReco.Csv/CsvReader.cs:215-229 | every quoted field a line reports starts with a quote and ends where ReadQuotedFieldToEnd stops, with the escapes it counted |
| CsvRecords.RingSlice | src/NReco.Csv/CsvReader.cs:327-338 | the characters of the ring from a linear position on, each at that position modulo the ring's length |
| CsvRecords.RingSliceSplit | src/NReco.Csv/CsvReader.cs:331-336 | a run of the ring is its first part followed by the rest, wherever the physical end falls |
| CsvRecords.FillUnwrapped | src/NReco.Csv/CsvReader.cs:78-81 | writing to the end of the ring and then to its front before lineStartPos appends what was read to the buffered text |
| CsvRecords.FillWrapped | src/NReco.Csv/CsvReader.cs:82-84 | writing into the free places between the wrapped end of the data and lineStartPos appends what was read |
| CsvRecords.LayoutFor | src/NReco.Csv/CsvReader.cs:185-188 | bufferLoadThreshold is at most 8192 and at most BufferSize, and bufferLength is BufferSize plus it |
| CsvRecords.Fill | src/NReco.Csv/CsvReader.cs:73-87 | FillBuffer keeps the text still to read and the characters already buffered, and only appends; eof means the source is empty; without eof more than BufferSize characters are buffered |
| CsvRecords.FillCaseUnwrapped | src/NReco.Csv/CsvReader.cs:76-81 | where the free region does not wrap, Fill reads up to the physical end and then up to lineStartPos, with eof when either read came up short |
| CsvRecords.FillCaseWrapped | src/NReco.Csv/CsvReader.cs:82-84 | where the free region wraps, Fill reads toRead characters in one run, with eof when the read came up short |
| CsvRecords.Values | src/NReco.Csv/CsvReader.cs:148-156 | one value per field, each the field's value in the window |
| CsvRecords.Consume | src/NReco.Csv/CsvReader.cs:272-274 | the line-end update drops exactly the consumed characters from the text still to read |
| CsvRecords.TakeLine | src/NReco.Csv/CsvReader.cs:195-274 | no data only when nothing is buffered; otherwise linesRead grows by one; a line too long leaves the stream as it is; a record consumes characters and its fields lie in its window |
| CsvRecords.NextRecord | src/NReco.Csv/CsvReader.cs:180-282 | Read never returns a blank record (one field of Length 0); a record has at least one field, all inside its window |
| CsvRecords.NextRecordSkips | src/NReco.Csv/CsvReader.cs:276-279 | a blank line is skipped: Read returns what the next Read from the stream past it returns |
| CsvRecords.NextRecordTakes | src/NReco.Csv/CsvReader.cs:280-281 | any other line is returned as it was scanned |
| CsvRecords.NextRecordConsumes | src/NReco.Csv/CsvReader.cs:193-279 | no more data leaves nothing to read; every other outcome leaves a suffix of the text; a record consumes at least one character; a line too long reports the line's number |
| CsvRecords.NextRecordAtEnd | src/NReco.Csv/CsvReader.cs:193-198 | once the text is exhausted, Read reports no more data and leaves the line count as it is |
| CsvRecords.NextRecordShaped | src/NReco.Csv/CsvReader.cs:215-229 | every quoted field of a record Read returns is what ReadQuotedFieldToEnd made of its quote |
| CsvScanProps.LineEndingEnds | src/NReco.Csv/CsvReader.cs:231-241 | `\n`, `\r\n`, a lone `\r` and the end of an exhausted input each end the line, and the next line starts just past the terminator (`\r\n` as a pair) |
| CsvScanProps.SplitJoin | src/NReco.Csv/CsvReader.cs:243-247 | joining the parts of the reference splitter by the delimiter gives the text back |
| CsvScanProps.SplitApart | src/NReco.Csv/CsvReader.cs:243-247 | no occurrence of the delimiter starts inside a part of the splitter, up to the delimiter after it, so the reader splits where the splitter does |
| CsvScanProps.SplitPlain | src/NReco.Csv/CsvReader.cs:243-247 | the parts of a text without quotes or line breaks have none either |
| CsvScanProps.PastDelim | src/NReco.Csv/CsvReader.cs:243-246 | at a delimiter that opens with neither a quote nor a line break, the current field is closed and an empty one begins past the whole delimiter, with ignoreQuote reset |
| CsvScanProps.QuotedCell | src/NReco.Csv/CsvReader.cs:223-229 | a quoted value with doubled quotes at a field start is read through its closing quote as one quoted field, with one escape per quote of the value, whose value is the value |
| CsvScanProps.BareCell | src/NReco.Csv/CsvReader.cs:248-264 | bare text at a field start is read to its end as one unquoted field whose value is the text, without its outer spaces when fields are trimmed |
| CsvScanProps.QuotedThenCell | src/NReco.Csv/CsvReader.cs:216-222 | a quoted value followed by literal text: the text's first character turns the field unquoted and later quotes are content, so the field's value is the whole text as it stands, trimmed when fields are |
| CsvScanProps.RecordFrom | src/NReco.Csv/CsvReader.cs:211-247 | from cell i of a laid-out line on, the scan ends the line at its next position with one field per remaining cell, each quoted exactly when its cell is and holding the cell's value |
| CsvScanProps.LayoutFrom | src/NReco.Csv/CsvReader.cs:211-247 | cells joined by the delimiter, followed by a line end, lie one after the other with the delimiter between each two and nothing inside them that the reader would take for a delimiter or a line end |
| CsvScanProps.ReadsRecordLine | src/NReco.Csv/CsvReader.cs:201-274 | a line of bare, quoted and quoted-then-literal cells joined by a delimiter without quotes or line breaks reads as one field per cell, quoted exactly for a quoted cell, each with the cell's value, and the next line starts past its terminator |
| CsvScanProps.ReadsPlainLine | src/NReco.Csv/CsvReader.cs:211-267 | a line without quotes or line breaks, under a delimiter of any length without them, reads as one field per part of the reference splitter, each part without its outer spaces exactly when fields are trimmed, and the next line starts past its terminator |
| CsvScanProps.ReadsQuotedLine | src/NReco.Csv/CsvReader.cs:215-229 | one quoted field whose quotes are doubled reads, under any delimiter and trim setting and whatever ends the line, as one quoted field whose value is the original text, with one escape per quote of it |
| CsvScanProps.QuotedEndDoubled | src/NReco.Csv/CsvReader.cs:93-110 | ReadQuotedFieldToEnd over doubled quotes stops on the closing quote and counts each doubled quote once |
| CsvScanProps.UnclosedQuoteAtEnd | src/NReco.Csv/CsvReader.cs:111-115 | a quote never closed before the end of the input makes one quoted field up to the last character, whose value drops that last character |
| CsvScanProps.UnclosedQuoteTooLong | src/NReco.Csv/CsvReader.cs:116 | the same unclosed quote where the input is not exhausted makes the line too long |
| CsvScanProps.ReadsQuotedThenLine | src/NReco.Csv/CsvReader.cs:215-222 | a quoted value followed by literal text that opens with a kept character other than a quote reads, alone on its line, as one unquoted field holding the whole text, so `""8 ` reads as `""8 ` without trimming |
| CsvScanProps.NoBreakTooLong | src/NReco.Csv/CsvReader.cs:268-271 | with no line break from charPos to maxPos, in an input that is not exhausted, the scan reports the line too long |
| CsvScanProps.LineTooLong | src/NReco.Csv/CsvReader.cs:211-271 | a window without a line break whose input is not exhausted is a line too long, whatever its quotes and delimiters |
| CsvScanProps.ReadsLiteralLine | src/NReco.Csv/CsvReader.cs:215-222 | a line that does not open with a quote and holds no space, no line break and not the delimiter's first character reads as one unquoted field holding the whole line, quotes after the first character included |
| Reader.TextSource.ReadBlock | src/NReco.Csv/CsvReader.cs:67 | TextReader.ReadBlock gives min(len, remaining) characters, writes them at start and leaves the rest of the buffer as it was |
| Reader.Field.Reset | src/NReco.Csv/CsvReader.cs:298-305 | the field becomes empty and unquoted at start, with no escapes and no cached value |
| Reader.Field.GetString | src/NReco.Csv/CsvReader.cs:327-338 | the string of len characters at start, read around the physical end of the ring as the tail and then the head |
| Reader.Field.ValueFromRing | src/NReco.Csv/CsvReader.cs:314-325 | GetValueInternal on the ring equals the field's value in the window the ring holds |
| Reader.Field.QuotedFromRing | src/NReco.Csv/CsvReader.cs:315-321 | the value of a quoted field read from the ring equals its value in the window |
| Reader.Field.InBufferFromRing | src/NReco.Csv/CsvReader.cs:172-176 | the range ProcessValueInBuffer hands over in place holds the field's value |
| Reader.Field.RingWindow | src/NReco.Csv/CsvReader.cs:327-338 | GetString reads the window's characters at the same linear positions |
| Reader.Field.GetValue | src/NReco.Csv/CsvReader.cs:307-312 | the value is GetValueInternal's, computed once and then cached |
| Reader.ValueLengthOf | src/NReco.Csv/CsvReader.cs:158-164 | GetValueLength is the value's length for an unquoted field, the value's length plus 2 for a closed quoted field, and positive for any quoted field |
| Reader.CsvReader.constructor | src/NReco.Csv/CsvReader.cs:46-53 | a reader over rdr with the delimiter, BufferSize 32768, TrimFields on, no buffer yet and no fields |
| Reader.CsvReader.Create | src/NReco.Csv/CsvReader.cs:46-53 | the constructor fails (ArgumentException) exactly for an empty delimiter |
| Reader.CsvReader.SetBufferSize | src/NReco.Csv/CsvReader.cs:34 | BufferSize becomes n; once the buffer exists its layout stays as it was, and the stream and the current record never change |
| Reader.CsvReader.ReadBlockAndCheckEof | src/NReco.Csv/CsvReader.cs:64-71 | reads min(len, remaining) characters into the buffer at start; eof is set when fewer than len came |
| Reader.CsvReader.FillBuffer | src/NReco.Csv/CsvReader.cs:73-87 | the ring and the source after the call are what Fill gives, and the ring invariant is kept |
| Reader.CsvReader.FillToEndThenFront | src/NReco.Csv/CsvReader.cs:78-81 | the unwrapped case of FillBuffer, as Fill gives it |
| Reader.CsvReader.FillUpToStart | src/NReco.Csv/CsvReader.cs:82-84 | the wrapped case of FillBuffer, as Fill gives it |
| Reader.CsvReader.ReadQuotedFieldToEnd | src/NReco.Csv/CsvReader.cs:93-117 | the loop over the ring gives what QuotedEnd gives on the window, None standing for the InvalidDataException |
| Reader.CsvReader.ReadDelimTail | src/NReco.Csv/CsvReader.cs:119-131 | true exactly when every character of the delimiter matches, in place and before maxPos; end moves to the delimiter's last character only then |
| Reader.CsvReader.GetOrAddField | src/NReco.Csv/CsvReader.cs:133-140 | one more field is counted; the pool grows by at most one fresh Field and keeps its earlier ones; the field returned is reset at startIdx |
| Reader.CsvReader.FieldsCount | src/NReco.Csv/CsvReader.cs:142-146 | the number of values of the current record |
| Reader.CsvReader.Item | src/NReco.Csv/CsvReader.cs:148-156 | the value of field idx of the current record, null (None) from FieldsCount on; the record is unchanged |
| Reader.CsvReader.GetValueLength | src/NReco.Csv/CsvReader.cs:158-164 | -1 from FieldsCount on; the value's length for an unquoted field; the value's length plus 2 for a closed quoted field |
| Reader.CsvReader.ProcessValueInBuffer | src/NReco.Csv/CsvReader.cs:166-178 | the handler gets a copy of the value exactly when the field is quoted with escapes or ends past the ring's length, and otherwise a range of the buffer holding the value |
| Reader.CsvReader.StoreFields | src/NReco.Csv/CsvReader.cs:133-140 | the pool holds the scanned ranges as the current record, in order, none with a cached value |
| Reader.CsvReader.ScanLine | src/NReco.Csv/CsvReader.cs:201-271 | the loop of Read finds a line exactly when Scan does, with the same fields and next position |
| Reader.CsvReader.ScanChar | src/NReco.Csv/CsvReader.cs:212-265 | one pass of the loop body over the ring does what StepAt says |
| Reader.CsvReader.ScanQuote | src/NReco.Csv/CsvReader.cs:215-230 | the quote case of the loop body does what StepAt says |
| Reader.CsvReader.IsDelimiter | src/NReco.Csv/CsvReader.cs:243 | the delimiter test is true exactly when the whole delimiter stands at charPos |
| Reader.CsvReader.ScanDefault | src/NReco.Csv/CsvReader.cs:242-264 | the delimiter, space and content cases of the loop body do what StepAt says |
| Reader.CsvReader.Allocate | src/NReco.Csv/CsvReader.cs:181-191 | the ring is made once, with the layout BufferSize fixes, and the stream is unchanged |
| Reader.CsvReader.Read | src/NReco.Csv/CsvReader.cs:180-282 | Read's result, the new stream, linesRead and the current record are what NextRecord gives, and the invariant is kept |
| Reader.CsvReader.ReadBuffered | src/NReco.Csv/CsvReader.cs:193-282 | Read after the buffer exists does what NextRecord gives |
| Reader.CsvReader.SkipBlank | src/NReco.Csv/CsvReader.cs:276-279 | given the line just taken, the outcome is NextRecord's: a blank line is skipped by reading on, any other line is returned |
| Reader.CsvReader.TakeLine | src/NReco.Csv/CsvReader.cs:195-274 | after the fill: false with no fields when nothing is buffered, else one line as TakeLine gives it |
| Reader.CsvReader.ScanRecord | src/NReco.Csv/CsvReader.cs:199-274 | a line too long raises InvalidDataException with the line's number and leaves the stream; otherwise the record is the scan's fields and the line is consumed |
| Reader.CsvReader.KeepRecord | src/NReco.Csv/CsvReader.cs:204-247 | the scanned ranges become the current record |
| Reader.CsvReader.LineEnded | src/NReco.Csv/CsvReader.cs:272-274 | the line-end update consumes exactly the characters before charPos and keeps lineStartPos and actualBufferLen within the ring |
| Writer.RequiredChars | src/NReco.Csv/CsvWriter.cs:54-55 | quoteRequiredChars holds `\r`, `\n` and, for a one-character delimiter, that character, and nothing else |
| Writer.IndexOfAny | src/NReco.Csv/CsvWriter.cs:74 | the first index holding one of the characters, -1 exactly when there is none |
| Writer.RecordTextSnoc | src/NReco.Csv/CsvWriter.cs:90-95 | one more field adds the delimiter, unless it is the record's first, and then the field |
| Writer.EncodedQuoted | src/NReco.Csv/CsvWriter.cs:83-89 | with the quote `"`, a quoted field is written as a quote, the field with its quotes doubled, and a quote |
| Writer.EncodedEmpty | src/NReco.Csv/CsvWriter.cs:87-94 | an empty field is two quotes under QuoteAllFields and nothing otherwise |
| Writer.EncodedPlain | src/NReco.Csv/CsvWriter.cs:69-80 | an unquoted field is written verbatim and holds no line break, quote string or delimiter and no outer space; conversely such a field is not quoted unless QuoteAllFields |
| Writer.CsvWriter.constructor | src/NReco.Csv/CsvWriter.cs:51-56 | a writer over wr with the delimiter, quote `"`, no QuoteAllFields, no Trim and no field written |
| Writer.CsvWriter.Default | src/NReco.Csv/CsvWriter.cs:49 | the same with a comma as the delimiter |
| Writer.CsvWriter.Create | src/NReco.Csv/CsvWriter.cs:51-55 | the constructor fails (delimiter[0] out of range) exactly for an empty delimiter |
| Writer.CsvWriter.SetQuoteString | src/NReco.Csv/CsvWriter.cs:29-37 | the QuoteString setter keeps doubleQuoteString the doubled quote string and changes nothing else |
| Writer.CsvWriter.Decide | src/NReco.Csv/CsvWriter.cs:61-80 | the field after the null and Trim handling is Prepared's, and shouldQuote is ShouldQuote's |
| Writer.CsvWriter.Escape | src/NReco.Csv/CsvWriter.cs:61-89 | the text to emit is Encoded's for the prepared field; it fails where Replace throws (an empty quote string) |
| Writer.CsvWriter.WriteField | src/NReco.Csv/CsvWriter.cs:60-96 | appends the delimiter unless the field is the record's first, then the encoded field; one more field is counted; nothing is written when Replace throws |
| Writer.CsvWriter.Emit | src/NReco.Csv/CsvWriter.cs:90-95 | appends the delimiter when a field was written before in the record, then the field, and counts it |
| Writer.CsvWriter.NextRecord | src/NReco.Csv/CsvWriter.cs:98-101 | appends exactly one NewLine and resets recordFieldCount to 0, leaving the settings |
| Writer.PlainUnderDefault | src/NReco.Csv/CsvWriter.cs:69-80 | under the default settings a non-empty field with no outer space and none of `"`, `,`, `\r`, `\n` is written as it stands |
| Writer.QuotedUnderDefault | src/NReco.Csv/CsvWriter.cs:69-89 | under the default settings a field without quotes but with an outer space, a comma or a line break is written between two quotes |
| Writer.DoubledUnderDefault | src/NReco.Csv/CsvWriter.cs:71-89 | under the default settings a field holding a quote is quoted with its quotes doubled |
| Writer.SampleEncoded | src/NReco.Csv.Tests/CsvWriterTests.cs:25-31 | how the default settings write each field of the writer test |
| Writer.SampleRecords | src/NReco.Csv.Tests/CsvWriterTests.cs:25-32 | the test's calls on a fresh writer produce its fields with commas between them and NewLine after each record |
| Writer.WriterSample | src/NReco.Csv.Tests/CsvWriterTests.cs:22-35 | the writer test's output, with NewLine as a parameter |
| RoundTrip.PlainField | src/NReco.Csv/CsvWriter.cs:69-80 | a field the writer leaves as it stands holds no quote, line break or delimiter and has no outer space |
| RoundTrip.QuotedFieldReadsBack | src/NReco.Csv/CsvWriter.cs:83-89 | a field the writer quotes with `"` is read back as the field on a line of its own, whatever the delimiter |
| RoundTrip.WrittenCell | src/NReco.Csv/CsvWriter.cs:69-89 | with the quote `"`, what the writer emits for a field is the text of a quoted cell of the field exactly when it quotes it, and of the bare field otherwise |
| RoundTrip.WrittenCellOk | src/NReco.Csv/CsvWriter.cs:69-89 | under a one-character delimiter that is no quote or line break, each written cell is one the reader takes as one field, whatever follows it, and its value is the field, trimmed or not |
| RoundTrip.RecordReadsBack | src/NReco.Csv/CsvWriter.cs:60-96 | a record of any fields written with the quote `"` and a one-character delimiter that is no quote or line break is read back field by field: one field per field written, quoted exactly where the writer quoted, each with the value written, trimmed or not |

## Left out

- I/O. The `TextReader` is a `TextSource` over a `seq<char>` with a cursor, and the `TextWriter` is a `TextSink` holding a string. Streams, encodings and `Environment.NewLine` are left out; the line terminator is a constructor parameter of the sink.
- The `Action<char[], int, int>` handler of ProcessValueInBuffer is not called. The method returns what it would pass (`Handed`: a range of the buffer or a copy).
- The .NET string functions are written out over `seq<char>`: Contains, Replace and Trim in CsvText, IndexOfAny in Writer. `Char.IsWhiteSpace` is a fixed list of Unicode white space characters.
- Exceptions are results. Read returns `InvalidData(line)` for InvalidDataException, Create returns None for the constructors' exceptions, and WriteField returns false where `String.Replace` throws for an empty QuoteString.
- The message text of GetLineTooLongMsg is not modelled; only the line number is kept.
- Reader.CsvReader.SetBufferSize: requires n > 0. The code sizes the ring from BufferSize and takes positions modulo its length, so it fails for 0 or less.
- Reader.CsvReader.Item, Reader.CsvReader.GetValueLength and Reader.CsvReader.ProcessValueInBuffer: require idx >= 0. The code indexes the List of fields with idx, which throws for a negative index.
- Reader.CsvReader.Read: on InvalidData its ensures say nothing of fieldsCount or the current record. By then the code has added fields and set part of their ranges and escape counts (CsvReader.cs:204, 224-227, 244), and the model does not describe that state.
- The lazy creation of the fields list (`fields == null`) is folded into the constructor; the pool starts empty.
- Reader.CsvReader.ScanLine: the loop of Read is split into ScanLine, which finds the ranges, and StoreFields, which puts them into the pool of fields afterwards. The source stores each field as it goes; the order of the stores into the pool is not modelled.
- Writer.CsvWriter.WriteField: its body is split into Decide, Escape and Emit. Their composition is what the source does in one method.
- Reader.CsvReader.GetValueLength: for a quoted field left open at the end of the input, it states only that the result is positive, not its exact relation to the value.
- The class invariant of the reader does not keep QuotedFrom for the fields of the current record. It is proved of every record NextRecord returns (NextRecordShaped) instead.
- The concrete samples of the reader's tests are not proved as literal strings. Their lines are instances of the general lemmas:
  - the odd headers `"A\nA",B  B,"C\r\n\tC"`, the lines without quotes under `\t`, `%%%` and `,` (such as `5%%%6%%6%%%7%`), and ` "7",""8 ,"9"` without trimming are lines of cells for ReadsRecordLine;
  - the long line `ABCDEF,123456` under a buffer of 5 is a window without a line break for LineTooLong.
  Nothing states the samples' values as concrete strings.
- CsvScanProps.ReadsRecordLine: the delimiter must hold no quote and no line break, and a bare cell that holds a quote must not open with it or with a trimmed space. Lines outside these bounds go through StepAt, and no lemma states what they read as. Among them is a quoted value with trimmed spaces around it, such as `"6"\t "7""" \t""""` under trimming in the reader's option test.
- Decimal parsing in the reader tests, and their timing and throughput.
- The second half of the writer test. It sets `QuoteIfTrimPossible`, which CsvWriter.cs does not define, and its expected ` ` unquoted contradicts the space rule of WriteField.
- A general write-then-read round trip. It does not hold:
  - a record of one empty field is skipped by the reader as a blank line;
  - the reader only knows the quote `"`, while the writer's QuoteString can be changed;
  - a delimiter that is a quote or a line break is not read back.
- RoundTrip.RecordReadsBack: only for a one-character delimiter. Under a longer one the writer quotes only fields that hold the whole delimiter, so a field that ends with part of it is not read back: under `%%`, the fields `6%` and `7` are written as `6%%%7`, which reads as `6` and `%7`.
- RoundTrip.QuotedFieldReadsBack: only for a field alone on its line. RecordReadsBack covers a field among others.
- A null delimiter is not modelled: strings are values.
