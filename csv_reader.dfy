/** The CsvReader class and its Field records, in the form the reader has:
    a char ring buffer filled in place from a text source, integer cursors,
    and a pool of Field objects reused from record to record. */
module Reader {
  import opened CsvText
  import opened CsvScan
  import opened CsvRecords

  /** The TextReader a CsvReader reads from: the characters it has not yet
      handed out. */
  class TextSource {
    var remaining: seq<char>

    constructor (text: string)
      ensures remaining == text
    {
      remaining := text;
    }

    /** TextReader.ReadBlock: copies into buf at start as many of the next
        len characters as the source still has, and says how many. */
    method ReadBlock(buf: array<char>, start: int, len: int) returns (n: int)
      requires 0 <= start && 0 <= len && start + len <= buf.Length
      modifies this, buf
      ensures n == Min(len, |old(remaining)|) && remaining == old(remaining)[n..]
      ensures buf[..] == Written(old(buf[..]), start, old(remaining)[..n])
    {
      n := Min(len, |remaining|);
      forall i | start <= i < start + n {
        buf[i] := remaining[i - start];
      }
      assert buf[..] == Written(old(buf[..]), start, remaining[..n]);
      remaining := remaining[n..];
    }
  }

  /** One field of the current record, kept between records and reset for reuse. */
  class Field {
    var Start: int
    var End: int
    var Quoted: bool
    var EscapedQuotesCount: nat
    var cachedValue: Option<string>

    constructor ()
      ensures cachedValue == None
    {
      Start, End, Quoted, EscapedQuotesCount, cachedValue := 0, 0, false, 0, None;
    }

    function Length(): int
      reads this
    {
      End - Start + 1
    }

    /** The field as the scanner describes it. */
    function Range(): FieldRange
      reads this
    {
      FieldRange(Start, End, Quoted, EscapedQuotesCount)
    }

    /** Reset: an empty, unquoted field at start, with no cached value. */
    method Reset(start: int)
      modifies this
      ensures Range() == EmptyField(start) && Length() == 0 && cachedValue == None
    {
      Start := start;
      End := start - 1;
      Quoted := false;
      EscapedQuotesCount := 0;
      cachedValue := None;
    }

    /** Sets the range the field covers, as the scanning loop of Read does
        while it reads the field. */
    method Assign(r: FieldRange)
      modifies this
      ensures Range() == r && cachedValue == old(cachedValue)
    {
      Start, End, Quoted, EscapedQuotesCount := r.start, r.end, r.quoted, r.escapes;
    }

    /** GetString: the len characters of the ring from linear position start,
        built as the tail of the array followed by its head when the range
        runs past the physical end. */
    static function GetString(buf: seq<char>, start: int, len: int): (r: string)
      requires 0 <= start && 0 < len <= |buf|
      ensures r == RingSlice(buf, start, len)
    {
      var bufLen := |buf|;
      var s := if start < bufLen then start else start % bufLen;
      var endIdx := s + len - 1;
      var r := if endIdx >= bufLen then
        var prefixLen := bufLen - s;
        buf[s..] + buf[..len - prefixLen]
      else
        buf[s..s + len];
      assert forall k :: 0 <= k < len ==> r[k] == buf[(start + k) % bufLen] by {
        forall k | 0 <= k < len ensures r[k] == buf[(start + k) % bufLen] {
          if start < bufLen {
            ModWrap(start, bufLen);
          }
          ModShift(start, k, bufLen);
          ModWrap(s + k, bufLen);
        }
      }
      r
    }

    /** GetValueInternal: a quoted field without its two quotes and with each
        doubled quote collapsed; any other field as it stands. */
    function GetValueInternal(buf: seq<char>): string
      reads this
      requires 0 <= Start && Length() <= |buf|
    {
      RangeValue(buf, Range())
    }

    /** GetValueInternal on the ring buf for the field f. */
    static function RangeValue(buf: seq<char>, f: FieldRange): string
      requires 0 <= f.start && f.Length() <= |buf|
    {
      if f.quoted then
        var s := f.start + 1;
        var lenWithoutQuotes := f.Length() - 2;
        var v := if lenWithoutQuotes > 0 then GetString(buf, s, lenWithoutQuotes) else [];
        if f.escapes > 0 then Replace(v, "\"\"", "\"") else v
      else
        var len := f.Length();
        if len > 0 then GetString(buf, f.start, len) else []
    }

    /** Read off the ring, a field has the value the scanner gives it in the
        window the ring holds. */
    static lemma ValueFromRing(buf: seq<char>, win: Window, f: FieldRange)
      requires 0 <= win.base && 0 < |buf| && |win.chars| <= |buf|
      requires RingSlice(buf, win.base, |win.chars|) == win.chars
      requires f.Within(win.base, win.MaxPos())
      ensures RangeValue(buf, f) == FieldValue(win, f)
    {
      if f.quoted {
        QuotedFromRing(buf, win, f);
      } else if f.Length() > 0 {
        RingWindow(buf, win, f.start, f.Length());
        assert f.start - win.base + f.Length() == f.end + 1 - win.base;
      }
    }

    static lemma QuotedFromRing(buf: seq<char>, win: Window, f: FieldRange)
      requires 0 <= win.base && 0 < |buf| && |win.chars| <= |buf|
      requires RingSlice(buf, win.base, |win.chars|) == win.chars
      requires f.Within(win.base, win.MaxPos()) && f.quoted
      ensures RangeValue(buf, f) == FieldValue(win, f)
    {
      if f.Length() - 2 > 0 {
        RingWindow(buf, win, f.start + 1, f.Length() - 2);
        assert f.start + 1 - win.base + (f.Length() - 2) == f.end - win.base;
      }
    }

    /** The range ProcessValueInBuffer hands for a field without escapes
        that ends before the physical end of the ring holds its value: inside
        the quotes of a quoted field, the whole range otherwise. */
    static lemma InBufferFromRing(buf: seq<char>, win: Window, f: FieldRange, h: Handed)
      requires 0 <= win.base && 0 < |buf| && |win.chars| <= |buf|
      requires RingSlice(buf, win.base, |win.chars|) == win.chars
      requires f.Within(win.base, win.MaxPos()) && !(f.quoted && f.escapes > 0) && f.end < |buf|
      requires h == if f.quoted then InBuffer(f.start + 1, f.Length() - 2) else InBuffer(f.start, f.Length())
      ensures HandedValue(h, f, FieldValue(win, f), buf)
    {
      ValueFromRing(buf, win, f);
      if h.len > 0 {
        RingSliceInside(buf, h.start, h.len);
      }
    }

    /** A range of the window read off the ring with GetString. */
    static lemma RingWindow(buf: seq<char>, win: Window, start: int, len: int)
      requires 0 <= win.base && 0 < |buf| && |win.chars| <= |buf|
      requires RingSlice(buf, win.base, |win.chars|) == win.chars
      requires win.base <= start && 0 < len && start + len <= win.MaxPos()
      ensures GetString(buf, start, len) == win.chars[start - win.base..start - win.base + len]
    {
      var w := win.chars[start - win.base..start - win.base + len];
      var g := GetString(buf, start, len);
      forall k | 0 <= k < len ensures g[k] == w[k] {
        var j := start - win.base + k;
        assert w[k] == win.chars[j] == RingSlice(buf, win.base, |win.chars|)[j];
        assert win.base + j == start + k;
      }
      assert g == w;
    }

    /** GetValue: the value, computed once and then served from the cache. */
    method GetValue(buf: array<char>) returns (r: string)
      requires 0 <= Start && Length() <= buf.Length
      requires cachedValue.Some? ==> cachedValue.value == GetValueInternal(buf[..])
      modifies this
      ensures Range() == old(Range())
      ensures r == GetValueInternal(buf[..]) && cachedValue == Some(r)
    {
      if cachedValue.None? {
        cachedValue := Some(GetValueInternal(buf[..]));
      }
      r := cachedValue.value;
    }
  }

  /** No object occurs twice in the pool. */
  ghost predicate Distinct(fs: seq<Field>)
  {
    forall i, j :: 0 <= i < j < |fs| ==> fs[i] != fs[j]
  }

  /** What the loop of Read does after one character: go on, start the
      next field, end the line, or fail on a quoted field left open. */
  datatype Pass = Stay | Delimiter | Terminator | Unclosed

  /** What Read reports: whether a record was read (the bool Read returns),
      or the failure of a line that does not fit in the buffer
      (InvalidDataException), with the number of the line. */
  datatype ReadResult = Ok(more: bool) | InvalidData(line: int)

  /** A reader whose stream is st, whose line count is lines and whose
      current record has fields scanned in win, after Read returned res, is
      what n says: a record (true, with its window and fields), the end of
      the data (false, no fields) or a line too long (its number). */
  predicate Reports(res: ReadResult, st: Stream, lines: int, win: Window, fields: seq<FieldRange>, n: Next)
  {
    && st == n.st && lines == n.lines
    && (n.outcome.Record? <==> res == Ok(true))
    && (n.outcome.Record? ==> win == n.outcome.win && fields == n.outcome.fields)
    && (n.outcome.NoMoreData? <==> res == Ok(false))
    && (n.outcome.NoMoreData? ==> fields == [])
    && (n.outcome.LineTooLong? ==> res == InvalidData(n.outcome.line))
  }

  /** The arguments ProcessValueInBuffer passes to its handler: a range of
      the buffer itself, or a fresh copy of the value (starting at 0, of its
      full length). */
  datatype Handed = InBuffer(start: int, len: int) | Copy(chars: seq<char>)

  /** GetValueLength for a field: its Length, less its escapes when it is
      quoted. */
  function ValueLength(f: FieldRange): int
  {
    if f.quoted then f.Length() - f.escapes else f.Length()
  }

  /** What GetValueLength tells about a value: the length of an unquoted
      value; for a quoted field closed inside its window, the length of the
      value plus the two quotes; some positive number for any quoted field. */
  lemma ValueLengthOf(win: Window, f: FieldRange)
    requires f.Within(win.base, win.MaxPos())
    ensures !f.quoted ==> ValueLength(f) == |FieldValue(win, f)|
    ensures f.quoted && QuotedFrom(win, f) ==> ValueLength(f) > 0
    ensures ClosedQuoted(win, f) ==> ValueLength(f) == |FieldValue(win, f)| + 2
  {
    if f.quoted && QuotedFrom(win, f) {
      QuotedEscapesBound(win, f);
      if Closes(win, f.start + 1) {
        QuotedValueLength(win, f);
      }
    }
  }

  /** What ProcessValueInBuffer hands over for a field f with value v, in
      the ring buf: a quoted field with escapes, and a field that runs past
      the physical end of buf, are handed as a copy of the value; any other
      field as the range of buf that holds its value. A range of negative
      length, which the handler cannot take, is only handed for an empty
      value. */
  predicate HandedValue(h: Handed, f: FieldRange, v: string, buf: seq<char>)
  {
    && (h.Copy? <==> (f.quoted && f.escapes > 0) || f.end >= |buf|)
    && (h.Copy? ==> h.chars == v)
    && (h.InBuffer? ==> 0 <= h.start && (h.len < 0 ==> v == []))
    && (h.InBuffer? && h.len >= 0 ==> h.start + h.len <= |buf| && buf[h.start..h.start + h.len] == v)
  }

  class CsvReader {
    const delimiter: string
    var bufferSize: int
    var trimFields: bool
    const rdr: TextSource

    var buffer: array?<char>
    var bufferLength: int
    var bufferLoadThreshold: int
    var lineStartPos: int
    var actualBufferLen: int
    var fields: seq<Field>
    var fieldsCount: int
    var linesRead: int

    ghost var Repr: set<object>
    /** The window the fields of the current record were scanned in. */
    ghost var recWin: Window

    /** The ring cursors: the line start is a physical index and at most the
        whole ring is buffered. */
    ghost predicate RingValid()
      reads this, buffer
    {
      buffer != null && Layout(bufferLength, bufferLoadThreshold).Valid() && buffer.Length == bufferLength
      && 0 <= lineStartPos < bufferLength && 0 <= actualBufferLen <= bufferLength
    }

    /** The pooled fields are distinct objects, and those of the current
        record lie in its window and cache only their own value. */
    ghost predicate FieldsValid()
      reads this, fields
    {
      && 0 <= fieldsCount <= |fields|
      && Distinct(fields)
      && (forall i :: 0 <= i < fieldsCount ==> fields[i].Range().Within(recWin.base, recWin.MaxPos()))
      && (forall i :: 0 <= i < fieldsCount && fields[i].cachedValue.Some? ==>
            fields[i].cachedValue.value == FieldValue(recWin, fields[i].Range()))
    }

    /** The ring still holds the window of the current record. */
    ghost predicate RecordInRing()
      reads this, buffer
      requires RingValid()
    {
      0 <= recWin.base && |recWin.chars| <= bufferLength
      && RingSlice(buffer[..], recWin.base, |recWin.chars|) == recWin.chars
    }

    /** The reader's invariant. Before the first Read there is no buffer,
        the line start is 0 (stated as a bound, which the solver handles
        better than the equation) and there is no record. */
    ghost predicate Valid()
      reads this, Repr
    {
      && this in Repr && rdr in Repr && (forall i :: 0 <= i < |fields| ==> fields[i] in Repr)
      && |delimiter| > 0 && bufferSize > 0
      && FieldsValid()
      && (buffer == null ==> 0 <= lineStartPos < 1 && actualBufferLen == 0 && fieldsCount == 0 && recWin.base == lineStartPos && recWin.chars == [])
      && (buffer != null ==> buffer in Repr && RingValid() && RecordInRing())
    }

    /** The buffer layout: fixed by the first Read, from BufferSize until then. */
    ghost function CurrentLayout(): Layout
      reads this
      requires bufferSize > 0
    {
      if buffer == null then LayoutFor(bufferSize) else Layout(bufferLength, bufferLoadThreshold)
    }

    ghost function Opts(): Options
      reads this
    {
      Options(delimiter, trimFields)
    }

    /** The characters buffered from the line start, as Read scans them. */
    ghost function ScanWindow(eof: bool): Window
      reads this, buffer
      requires RingValid()
    {
      Window(RingSlice(buffer[..], lineStartPos, actualBufferLen), lineStartPos, eof)
    }

    ghost function RingStream(): Stream
      reads this, buffer, rdr
      requires RingValid()
    {
      Stream(lineStartPos, RingSlice(buffer[..], lineStartPos, actualBufferLen), rdr.remaining)
    }

    /** The reader as a value: line start, buffered and unread characters. */
    ghost function StreamOf(): Stream
      reads this, buffer, rdr
      requires buffer != null ==> RingValid()
    {
      if buffer == null then Stream(lineStartPos, [], rdr.remaining) else RingStream()
    }

    /** The fields of the current record. */
    ghost function RecordFields(): (r: seq<FieldRange>)
      reads this, fields
      requires 0 <= fieldsCount <= |fields|
      ensures |r| == fieldsCount
    {
      seq(fieldsCount, i reads this, fields requires 0 <= i < fieldsCount <= |fields| => fields[i].Range())
    }

    /** The values of the fields of the current record. */
    ghost function RecordValues(): seq<string>
      reads this, fields
      requires FieldsValid()
    {
      CsvRecords.Values(recWin, RecordFields())
    }

    /** The constructor, for a non-empty delimiter. */
    constructor (rdr: TextSource, delimiter: string)
      requires |delimiter| > 0
      ensures Valid() && fresh(Repr - {rdr})
      ensures this.rdr == rdr && this.delimiter == delimiter && bufferSize == 32768 && trimFields
      ensures buffer == null && fieldsCount == 0 && linesRead == 0
    {
      this.rdr := rdr;
      this.delimiter := delimiter;
      bufferSize := 32768;
      trimFields := true;
      buffer := null;
      bufferLength, bufferLoadThreshold := 0, 0;
      lineStartPos, actualBufferLen := 0, 0;
      fields, fieldsCount, linesRead := [], 0, 0;
      recWin := Window([], 0, false);
      Repr := {this, rdr};
    }

    /** CsvReader(rdr, delimiter): an empty delimiter is refused
        (ArgumentException), any other gives a reader that has read nothing. */
    static method Create(rdr: TextSource, delimiter: string) returns (r: Option<CsvReader>)
      ensures r.None? <==> |delimiter| == 0
      ensures r.Some? ==> fresh(r.value) && r.value.Valid() && fresh(r.value.Repr - {rdr})
      ensures r.Some? ==> r.value.rdr == rdr && r.value.delimiter == delimiter
      ensures r.Some? ==> r.value.StreamOf() == Stream(0, [], rdr.remaining) && r.value.fieldsCount == 0
    {
      if |delimiter| == 0 {
        return None;
      }
      var c := new CsvReader(rdr, delimiter);
      return Some(c);
    }

    /** Setting BufferSize; it takes effect at the first Read. */
    method SetBufferSize(n: int)
      requires Valid() && n > 0
      modifies this
      ensures Valid() && Repr == old(Repr) && bufferSize == n
      ensures buffer == old(buffer) && StreamOf() == old(StreamOf()) && RecordValues() == old(RecordValues())
      ensures buffer != null ==> CurrentLayout() == old(CurrentLayout())
    {
      bufferSize := n;
    }

    /** ReadBlockAndCheckEof: reads len characters (none when len is 0) into
        the buffer at start; eof is set when fewer came than were asked for. */
    method ReadBlockAndCheckEof(start: int, len: int, eof: bool) returns (read: int, eofOut: bool)
      requires buffer != null && 0 <= start && 0 <= len && start + len <= buffer.Length
      modifies buffer, rdr
      ensures read == Min(len, |old(rdr.remaining)|) && rdr.remaining == old(rdr.remaining)[read..]
      ensures buffer[..] == Written(old(buffer[..]), start, old(rdr.remaining)[..read])
      ensures eofOut == (eof || read < len)
    {
      eofOut := eof;
      if len == 0 {
        assert buffer[..] == Written(buffer[..], start, []);
        return 0, eofOut;
      }
      read := rdr.ReadBlock(buffer, start, len);
      if read < len {
        eofOut := true;
      }
    }

    /** FillBuffer: once at least bufferLoadThreshold places are free, reads
        into the free places after the buffered characters. This is Fill on
        the reader's value. */
    method FillBuffer() returns (eof: bool)
      requires RingValid()
      modifies this`actualBufferLen, buffer, rdr
      ensures RingValid()
      ensures Fill(Layout(bufferLength, bufferLoadThreshold), old(RingStream())) == Filled(RingStream(), eof)
    {
      eof := false;
      var toRead := bufferLength - actualBufferLen;
      if toRead >= bufferLoadThreshold {
        var freeStart := (lineStartPos + actualBufferLen) % buffer.Length;
        ModWrap(lineStartPos + actualBufferLen, bufferLength);
        if freeStart >= lineStartPos {
          eof := FillToEndThenFront(freeStart);
        } else {
          eof := FillUpToStart(freeStart, toRead);
        }
      }
    }

    /** The first case of FillBuffer: the buffered characters end before the
        physical end, so the places up to the end are read first and then
        those before the line start, if any. */
    method FillToEndThenFront(freeStart: int) returns (eof: bool)
      requires RingValid() && freeStart == lineStartPos + actualBufferLen < bufferLength
      requires bufferLength - actualBufferLen >= bufferLoadThreshold
      modifies this`actualBufferLen, buffer, rdr
      ensures RingValid()
      ensures Fill(Layout(bufferLength, bufferLoadThreshold), old(RingStream())) == Filled(RingStream(), eof)
    {
      ghost var lay, lsp, a := Layout(bufferLength, bufferLoadThreshold), lineStartPos, actualBufferLen;
      ghost var ring, src := buffer[..], rdr.remaining;
      var n;
      n, eof := ReadBlockAndCheckEof(freeStart, buffer.Length - freeStart, false);
      actualBufferLen := actualBufferLen + n;
      ghost var ring1 := buffer[..];
      assert ring1 == Written(ring, lsp + a, src[..n]) && rdr.remaining == src[n..];
      var n2 := 0;
      if lineStartPos > 0 {
        n2, eof := ReadBlockAndCheckEof(0, lineStartPos, eof);
        actualBufferLen := actualBufferLen + n2;
        assert buffer[..] == Written(ring1, 0, src[n..][..n2]) && rdr.remaining == src[n..][n2..];
      } else {
        assert buffer[..] == Written(ring1, 0, src[n..][..0]);
      }
      FillCaseUnwrapped(lay, lsp, a, ring, src, n, n2, eof);
    }

    /** The second case of FillBuffer: the buffered characters wrap, so the
        free places are one run ending at the line start. */
    method FillUpToStart(freeStart: int, toRead: int) returns (eof: bool)
      requires RingValid() && bufferLength <= lineStartPos + actualBufferLen
      requires freeStart == lineStartPos + actualBufferLen - bufferLength
      requires toRead == bufferLength - actualBufferLen >= bufferLoadThreshold
      modifies this`actualBufferLen, buffer, rdr
      ensures RingValid()
      ensures Fill(Layout(bufferLength, bufferLoadThreshold), old(RingStream())) == Filled(RingStream(), eof)
    {
      ghost var lay, lsp, a := Layout(bufferLength, bufferLoadThreshold), lineStartPos, actualBufferLen;
      ghost var ring, src := buffer[..], rdr.remaining;
      var n;
      n, eof := ReadBlockAndCheckEof(freeStart, toRead, false);
      actualBufferLen := actualBufferLen + n;
      assert buffer[..] == Written(ring, lsp + a - lay.length, src[..n]) && rdr.remaining == src[n..];
      FillCaseWrapped(lay, lsp, a, ring, src, n, eof);
      assert RingStream() == Stream(lsp, RingSlice(buffer[..], lsp, a + n), src[n..]);
    }

    /** The window Read scans: the buffered characters from the line start,
        held by the ring; maxPos is the linear position past its end. */
    ghost predicate Scanning(win: Window, maxPos: int)
      reads this, buffer
    {
      RingValid() && win.base == lineStartPos && maxPos == win.MaxPos() == lineStartPos + actualBufferLen
      && Holds(buffer[..], win)
    }

    /** ReadQuotedFieldToEnd: from start, just past an opening quote, looks
        for the closing quote, counting the doubled quotes it skips; at maxPos
        it gives the last position when the input is exhausted and fails
        (None: the line is too long) otherwise. */
    method ReadQuotedFieldToEnd(ghost win: Window, start: int, maxPos: int, eof: bool, escapedQuotesCount: nat)
      returns (r: Option<(int, nat)>)
      requires Scanning(win, maxPos) && win.eof == eof && lineStartPos < start <= maxPos
      ensures r == QuotedEnd(win, start, escapedQuotesCount)
    {
      var pos, esc := start, escapedQuotesCount;
      while pos < maxPos
        invariant start <= pos <= maxPos
        invariant QuotedEnd(win, pos, esc) == QuotedEnd(win, start, escapedQuotesCount)
        decreases maxPos - pos
      {
        ModWrap(pos, bufferLength);
        var chIdx := if pos < bufferLength then pos else pos % bufferLength;
        var ch := buffer[chIdx];
        if ch == '"' {
          var hasNextCh := pos + 1 < maxPos;
          if hasNextCh && buffer[(pos + 1) % bufferLength] == '"' {
            // a doubled quote inside the quotes is content
            pos, esc := pos + 2, esc + 1;
          } else {
            return Some((pos, esc));
          }
        } else {
          pos := pos + 1;
        }
      }
      if eof {
        // the quote is never closed: at the end of the input that is let pass
        return Some((pos - 1, esc));
      }
      return None;
    }

    /** ReadDelimTail: the characters after the first one of a multi-character
        delimiter follow at start, inside maxPos; on success end is moved to
        the delimiter's last position, otherwise it is left as it was. */
    method ReadDelimTail(ghost win: Window, start: int, maxPos: int, end: int) returns (ok: bool, end': int)
      requires Scanning(win, maxPos) && lineStartPos <= start < maxPos
      requires |delimiter| > 0 && win.At(start) == delimiter[0]
      ensures ok <==> DelimAt(win, start, delimiter)
      ensures end' == if ok then start + |delimiter| - 1 else end
    {
      var offset := 1;
      while offset < |delimiter|
        invariant 1 <= offset <= |delimiter| && start + offset <= maxPos
        invariant DelimAt(win, start, delimiter) <==> start + |delimiter| <= maxPos && DelimFrom(win, start, delimiter, offset)
      {
        var pos := start + offset;
        var idx := if pos < bufferLength then pos else pos % bufferLength;
        if pos >= maxPos {
          return false, end;
        }
        ModWrap(pos, bufferLength);
        assert buffer[idx] == win.At(pos);
        if buffer[idx] != delimiter[offset] {
          return false, end;
        }
        offset := offset + 1;
      }
      return true, start + offset - 1;
    }

    /** GetOrAddField: the next field of the record, taken from the pool
        (and added to it when the pool is used up) and reset to start at
        startIdx. */
    method GetOrAddField(startIdx: int) returns (f: Field)
      requires 0 <= fieldsCount <= |fields| && Distinct(fields)
      modifies this`fieldsCount, this`fields, if fieldsCount < |fields| then {fields[fieldsCount]} else {}
      ensures fieldsCount == old(fieldsCount) + 1 <= |fields| && Distinct(fields)
      ensures |old(fields)| <= |fields| <= |old(fields)| + 1 && fields[..|old(fields)|] == old(fields)
      ensures forall i :: |old(fields)| <= i < |fields| ==> fresh(fields[i])
      ensures f == fields[fieldsCount - 1] && f.Range() == EmptyField(startIdx) && f.cachedValue == None
    {
      fieldsCount := fieldsCount + 1;
      while fieldsCount > |fields|
        invariant fieldsCount == old(fieldsCount) + 1 && |old(fields)| <= |fields| <= |old(fields)| + 1
        invariant fields[..|old(fields)|] == old(fields) && Distinct(fields)
        invariant forall i :: |old(fields)| <= i < |fields| ==> fresh(fields[i])
      {
        var nf := new Field();
        fields := fields + [nf];
      }
      f := fields[fieldsCount - 1];
      f.Reset(startIdx);
    }

    /** FieldsCount: the number of fields of the current record. */
    function FieldsCount(): (n: int)
      reads this, fields
      requires FieldsValid()
      ensures n == |RecordValues()| && n >= 0
    {
      fieldsCount
    }

    /** The indexer: the value of field idx of the current record, computed
        on first use and cached, or null (None) past its last field. */
    method Item(idx: int) returns (r: Option<string>)
      requires Valid() && idx >= 0
      modifies if idx < fieldsCount then {fields[idx]} else {}
      ensures Valid() && RecordFields() == old(RecordFields()) && RecordValues() == old(RecordValues())
      ensures r == if idx < fieldsCount then Some(RecordValues()[idx]) else None
    {
      if idx < fieldsCount {
        var f := fields[idx];
        Field.ValueFromRing(buffer[..], recWin, f.Range());
        var v := f.GetValue(buffer);
        r := Some(v);
        assert forall i :: 0 <= i < fieldsCount ==> RecordFields()[i] == old(RecordFields())[i];
      } else {
        r := None;
      }
    }

    /** GetValueLength: -1 past the last field of the record, else what
        ValueLength says of the field. */
    function GetValueLength(idx: int): (r: int)
      reads this, fields
      requires FieldsValid() && idx >= 0
      ensures idx >= fieldsCount ==> r == -1
      ensures idx < fieldsCount ==> var f, v := RecordFields()[idx], RecordValues()[idx];
        && (!f.quoted ==> r == |v|)
        && (f.quoted && QuotedFrom(recWin, f) ==> r > 0)
        && (ClosedQuoted(recWin, f) ==> r == |v| + 2)
    {
      if idx < fieldsCount then
        ValueLengthOf(recWin, fields[idx].Range());
        ValueLength(fields[idx].Range())
      else
        -1
    }

    /** ProcessValueInBuffer: what the handler is given for field idx of the
        current record, as HandedValue says; the handler is not called
        (None) past the last field. A copy caches the value. */
    method ProcessValueInBuffer(idx: int) returns (r: Option<Handed>)
      requires Valid() && idx >= 0
      modifies if idx < fieldsCount then {fields[idx]} else {}
      ensures Valid() && RecordFields() == old(RecordFields()) && RecordValues() == old(RecordValues())
      ensures r.None? <==> idx >= fieldsCount
      ensures r.Some? ==> buffer != null && HandedValue(r.value, RecordFields()[idx], RecordValues()[idx], buffer[..])
    {
      if idx >= fieldsCount {
        return None;
      }
      var f := fields[idx];
      if (f.Quoted && f.EscapedQuotesCount > 0) || f.End >= bufferLength {
        // f.GetValue(buffer), as the indexer reads it
        var v := Item(idx);
        r := Some(Copy(v.value));
      } else {
        var h := if f.Quoted then InBuffer(f.Start + 1, f.Length() - 2) else InBuffer(f.Start, f.Length());
        Field.InBufferFromRing(buffer[..], recWin, f.Range(), h);
        r := Some(h);
      }
    }

    /** The fields of a scanned line stored in the pool, in order, each
        taken with GetOrAddField at its start and then given its range, as
        the scanning loop of Read does field by field. */
    method StoreFields(ranges: seq<FieldRange>)
      requires fieldsCount == 0 && Distinct(fields)
      modifies this`fieldsCount, this`fields, set x | x in fields
      ensures Distinct(fields) && |old(fields)| <= |fields| && fields[..|old(fields)|] == old(fields)
      ensures forall i :: |old(fields)| <= i < |fields| ==> fresh(fields[i])
      ensures 0 <= fieldsCount <= |fields| && RecordFields() == ranges
      ensures forall i :: 0 <= i < fieldsCount ==> fields[i].cachedValue == None
    {
      var k := 0;
      while k < |ranges|
        invariant k <= |ranges| && fieldsCount == k <= |fields|
        invariant Distinct(fields) && |old(fields)| <= |fields| && fields[..|old(fields)|] == old(fields)
        invariant forall i :: |old(fields)| <= i < |fields| ==> fresh(fields[i])
        invariant forall i :: 0 <= i < k ==> fields[i].Range() == ranges[i] && fields[i].cachedValue == None
      {
        if k < |old(fields)| {
          assert fields[k] == old(fields)[k];
        }
        var f := GetOrAddField(ranges[k].start);
        f.Assign(ranges[k]);
        k := k + 1;
      }
      assert forall i :: 0 <= i < k ==> RecordFields()[i] == ranges[i];
    }

    /** The scanning loop of Read, from the first field of the line to
        LineEnded: the position just past the line's terminator, or None when
        the whole buffer was scanned before the end of the input
        (InvalidDataException: the line is too long), and the ranges of the
        fields met. On a line that ends they are the fields the scanner
        finds; on one that does not fit they are those met so far. */
    method ScanLine(ghost win: Window, maxPos: int, eof: bool) returns (r: Option<int>, ranges: seq<FieldRange>)
      requires Scanning(win, maxPos) && win.eof == eof && |delimiter| > 0
      ensures 0 < |ranges| && forall i :: 0 <= i < |ranges| ==> ranges[i].Within(win.base, win.MaxPos())
      ensures var sc := Scan(win, Opts());
        (r.Some? <==> sc.Line?) && (r.Some? ==> r.value == sc.next && ranges == sc.fields)
    {
      ghost var opt := Opts();
      var charPos := lineStartPos;
      var cur := EmptyField(charPos);
      var ignoreQuote := false;
      var done: seq<FieldRange> := [];
      while charPos < maxPos
        invariant lineStartPos <= charPos <= maxPos
        invariant Placed(win.base, ScanState(charPos, done, cur, ignoreQuote))
        invariant ScanFrom(win, opt, ScanState(charPos, done, cur, ignoreQuote)) == Scan(win, opt)
        decreases maxPos - charPos
      {
        ghost var st := ScanState(charPos, done, cur, ignoreQuote);
        StepPlaced(win, opt, st);
        var next, cur', ignoreQuote', pass := ScanChar(win, maxPos, eof, charPos, cur, ignoreQuote, done);
        if pass == Unclosed || pass == Terminator {
          ranges := done + [cur];
          PlacedRanges(win.base, st, win.MaxPos());
          return if pass == Terminator then Some(next) else None, ranges;
        }
        if pass == Delimiter {
          // the field ends at the delimiter and the next one begins after it
          done, cur, ignoreQuote' := done + [cur], EmptyField(next), false;
        } else {
          cur := cur';
        }
        charPos, ignoreQuote := next, ignoreQuote';
      }
      ranges := done + [cur];
      PlacedRanges(win.base, ScanState(charPos, done, cur, ignoreQuote), win.MaxPos());
      // without eof, the whole buffer is scanned and the line has not ended
      r := if eof then Some(charPos) else None;
    }

    /** One pass of the body of Read's scanning loop, at the character at
        charPos, with the current field's range in cur: it does what StepAt
        says, given what the loop does with the pass: go on from next with
        the field cur' (Stay), close the field and start one at next
        (Delimiter), end the line just before next (Terminator), or fail
        because a quoted field is not closed inside the buffer (Unclosed). */
    method ScanChar(ghost win: Window, maxPos: int, eof: bool, charPos: int,
                    cur: FieldRange, ignoreQuote: bool, ghost done: seq<FieldRange>)
      returns (next: int, cur': FieldRange, ignoreQuote': bool, pass: Pass)
      requires Scanning(win, maxPos) && win.eof == eof && |delimiter| > 0 && lineStartPos <= charPos < maxPos
      ensures PassOf(win, charPos, cur, ignoreQuote, done, next, cur', ignoreQuote', pass)
    {
      ModWrap(charPos, bufferLength);
      var charBufIdx := if charPos < bufferLength then charPos else charPos % bufferLength;
      var ch := buffer[charBufIdx];
      assert ch == win.At(charPos);
      if ch == '"' {
        next, cur', ignoreQuote', pass := ScanQuote(win, maxPos, eof, charPos, cur, ignoreQuote, done);
      } else if ch == '\r' {
        next, cur', ignoreQuote', pass := charPos + 1, cur, ignoreQuote, Terminator;
        if charPos + 1 < maxPos {
          ModWrap(charPos + 1, bufferLength);
        }
        if charPos + 1 < maxPos && buffer[(charPos + 1) % bufferLength] == '\n' {
          // "\r\n"
          next := next + 1;
        }
        // a lone '\r' ends a line too
      } else if ch == '\n' {
        next, cur', ignoreQuote', pass := charPos + 1, cur, ignoreQuote, Terminator;
      } else {
        next, cur', ignoreQuote', pass := ScanDefault(win, maxPos, charPos, cur, ignoreQuote, done);
      }
    }

    /** What one pass of the loop must do, stated by StepAt. */
    ghost predicate PassOf(win: Window, charPos: int, cur: FieldRange, ignoreQuote: bool, done: seq<FieldRange>,
                           next: int, cur': FieldRange, ignoreQuote': bool, pass: Pass)
      reads this
      requires |delimiter| > 0 && win.base <= charPos < win.MaxPos()
    {
      var step := StepAt(win, Opts(), ScanState(charPos, done, cur, ignoreQuote));
      && (pass == Unclosed <==> step.Overflow?) && (pass == Terminator <==> step.Ended?)
      && (pass == Terminator ==> next == step.next)
      && (pass == Stay ==> step == Continue(ScanState(next, done, cur', ignoreQuote')))
      && (pass == Delimiter ==> step == Continue(ScanState(next, done + [cur], EmptyField(next), false)))
    }

    /** The case '"' of the loop: a quote inside a field already read as
        literal text, a quote after content, or the opening quote of a
        quoted field, read to its closing quote. */
    method ScanQuote(ghost win: Window, maxPos: int, eof: bool, charPos: int,
                     cur: FieldRange, ignoreQuote: bool, ghost done: seq<FieldRange>)
      returns (next: int, cur': FieldRange, ignoreQuote': bool, pass: Pass)
      requires Scanning(win, maxPos) && win.eof == eof && |delimiter| > 0 && lineStartPos <= charPos < maxPos
      requires win.At(charPos) == '"'
      ensures PassOf(win, charPos, cur, ignoreQuote, done, next, cur', ignoreQuote', pass)
    {
      next, cur', ignoreQuote', pass := charPos + 1, cur, ignoreQuote, Stay;
      if ignoreQuote {
        cur' := cur.(end := charPos);
      } else if cur.quoted || cur.Length() > 0 {
        // a quote after content: the quotes of this field are content
        cur', ignoreQuote' := cur.(end := charPos, quoted := false), true;
      } else {
        var q := ReadQuotedFieldToEnd(win, charPos + 1, maxPos, eof, cur.escapes);
        if q.None? {
          return charPos, cur, ignoreQuote, Unclosed;
        }
        var endQuotePos := q.value.0;
        next, cur' := endQuotePos + 1, FieldRange(charPos, endQuotePos, true, q.value.1);
      }
    }

    /** The test of the default case: ch, the character at charPos, is the
        delimiter's first one, and the rest of the delimiter follows (with
        ReadDelimTail when it has more than one character); pos is then the
        delimiter's last position. */
    method IsDelimiter(ghost win: Window, maxPos: int, charPos: int, ch: char) returns (isDelim: bool, pos: int)
      requires Scanning(win, maxPos) && |delimiter| > 0 && lineStartPos <= charPos < maxPos
      requires ch == win.At(charPos)
      ensures isDelim <==> DelimAt(win, charPos, delimiter)
      ensures isDelim ==> pos == charPos + |delimiter| - 1
    {
      isDelim, pos := false, charPos;
      if ch == delimiter[0] {
        if |delimiter| == 1 {
          assert DelimFrom(win, charPos, delimiter, 1);
          isDelim := true;
        } else {
          isDelim, pos := ReadDelimTail(win, charPos, maxPos, charPos);
        }
      } else if DelimAt(win, charPos, delimiter) {
        DelimAtChar(win, charPos, delimiter, 0);
        assert false;
      }
    }

    /** The default case of the loop: the delimiter, a space to drop, or content. */
    method ScanDefault(ghost win: Window, maxPos: int, charPos: int,
                       cur: FieldRange, ignoreQuote: bool, ghost done: seq<FieldRange>)
      returns (next: int, cur': FieldRange, ignoreQuote': bool, pass: Pass)
      requires Scanning(win, maxPos) && |delimiter| > 0 && lineStartPos <= charPos < maxPos
      requires win.At(charPos) != '"' && win.At(charPos) != '\r' && win.At(charPos) != '\n'
      ensures PassOf(win, charPos, cur, ignoreQuote, done, next, cur', ignoreQuote', pass)
    {
      ModWrap(charPos, bufferLength);
      var ch := buffer[if charPos < bufferLength then charPos else charPos % bufferLength];
      assert ch == win.At(charPos);
      next, cur', ignoreQuote', pass := charPos + 1, cur, ignoreQuote, Stay;
      var isDelim, pos := IsDelimiter(win, maxPos, charPos, ch);
      if isDelim {
        next, pass := pos + 1, Delimiter;
      } else if ch == ' ' && trimFields {
        // a space outside a value is dropped
      } else {
        // content: the first content character starts the value, and
        // content after a closing quote makes the field literal text
        var c := cur;
        if c.Length() == 0 {
          c := c.(start := charPos);
        }
        if c.quoted {
          c := c.(quoted := false);
          ignoreQuote' := true;
        }
        cur' := c.(end := charPos);
      }
    }

    /** The reader once its buffer exists, whatever the current record. */
    ghost predicate Owned()
      reads this, Repr
    {
      && this in Repr && rdr in Repr && (forall i :: 0 <= i < |fields| ==> fields[i] in Repr)
      && |delimiter| > 0 && bufferSize > 0 && Distinct(fields)
      && buffer != null && buffer in Repr && RingValid()
    }

    /** The start of Read: the first call makes the buffer, BufferSize
        characters of a line plus Min(BufferSize, 8192) to read ahead, empty,
        with the line start at 0. */
    method Allocate()
      requires Valid()
      modifies this`buffer, this`bufferLength, this`bufferLoadThreshold, this`lineStartPos,
        this`actualBufferLen, this`Repr
      ensures Valid() && buffer != null && fresh(Repr - old(Repr))
      ensures Layout(bufferLength, bufferLoadThreshold) == old(CurrentLayout())
      ensures RingStream() == old(StreamOf())
    {
      if buffer == null {
        var threshold := Min(bufferSize, 8192);
        bufferLoadThreshold := threshold;
        bufferLength := bufferSize + threshold;
        buffer := new char[bufferLength];
        lineStartPos, actualBufferLen := 0, 0;
        Repr := Repr + {buffer};
      }
    }

    /** Read: on the first call the buffer is made, of BufferSize plus
        Min(BufferSize, 8192) characters; then the buffer is filled and a
        line taken; a blank line is skipped by reading again. This is
        NextRecord on the reader's value. */
    method Read() returns (res: ReadResult)
      requires Valid()
      modifies Repr
      ensures Valid() && fresh(Repr - old(Repr)) && buffer != null
      ensures bufferSize == old(bufferSize) && trimFields == old(trimFields)
      ensures CurrentLayout() == old(CurrentLayout())
      ensures Reports(res, StreamOf(), linesRead, recWin, RecordFields(), NextRecord(old(CurrentLayout()), old(Opts()), old(StreamOf()), old(linesRead)))
    {
      ghost var lay, opt, st, lines := CurrentLayout(), Opts(), StreamOf(), linesRead;
      Allocate();
      res := ReadBuffered(lay, opt, st, lines);
    }

    /** Read once the buffer exists: fill it, take a line, skip it if blank. */
    method ReadBuffered(ghost lay: Layout, ghost opt: Options, ghost st: Stream, ghost lines: int) returns (res: ReadResult)
      requires Valid() && buffer != null && lay == CurrentLayout() && opt == Opts()
      requires st == RingStream() && lines == linesRead
      modifies Repr
      decreases |st.Text()|, 1
      ensures Valid() && fresh(Repr - old(Repr)) && buffer != null
      ensures bufferSize == old(bufferSize) && trimFields == old(trimFields)
      ensures CurrentLayout() == lay
      ensures Reports(res, StreamOf(), linesRead, recWin, RecordFields(), NextRecord(lay, opt, st, lines))
    {
      var eof := FillBuffer();
      ghost var f := Filled(RingStream(), eof);
      assert f == Fill(lay, st) && Owned();
      res := TakeLine(eof, lay, opt, f, lines);
      res := SkipBlank(res, lay, opt, st, lines);
    }

    /** The end of Read: a blank line just taken is skipped by reading
        again; anything else is what Read returns. */
    method SkipBlank(r: ReadResult, ghost lay: Layout, ghost opt: Options, ghost st: Stream, ghost lines: int)
      returns (res: ReadResult)
      requires Valid() && buffer != null && lay == CurrentLayout() && opt == Opts() && st.Valid(lay)
      requires Reports(r, StreamOf(), linesRead, recWin, RecordFields(), CsvRecords.TakeLine(lay, opt, Fill(lay, st), lines))
      modifies Repr
      decreases |st.Text()|, 0
      ensures Valid() && fresh(Repr - old(Repr)) && buffer != null
      ensures bufferSize == old(bufferSize) && trimFields == old(trimFields)
      ensures CurrentLayout() == lay
      ensures Reports(res, StreamOf(), linesRead, recWin, RecordFields(), NextRecord(lay, opt, st, lines))
    {
      ghost var n := CsvRecords.TakeLine(lay, opt, Fill(lay, st), lines);
      if r == Ok(true) && fieldsCount == 1 && fields[0].Length() == 0 {
        // skip empty lines
        assert RecordFields()[0] == fields[0].Range();
        assert IsBlank(n.outcome.fields);
        NextRecordSkips(lay, opt, st, lines);
        res := ReadBuffered(lay, opt, StreamOf(), linesRead);
      } else {
        res := r;
        NextRecordTakes(lay, opt, st, lines);
      }
    }

    /** The part of Read after FillBuffer: no record when nothing is
        buffered; otherwise the line is counted and scanned, its fields
        become the current record and the line start moves past it
        (LineEnded). A line that does not fit fails (InvalidDataException).
        This is TakeLine on the filled buffer f, in layout lay and with
        lines lines read so far. */
    method TakeLine(eof: bool, ghost lay: Layout, ghost opt: Options, ghost f: Filled, ghost lines: int)
      returns (res: ReadResult)
      requires Owned() && lay == CurrentLayout() && opt == Opts()
      requires f == Filled(RingStream(), eof) && lines == linesRead
      modifies Repr
      ensures Valid() && fresh(Repr - old(Repr)) && buffer == old(buffer)
      ensures bufferSize == old(bufferSize) && trimFields == old(trimFields)
      ensures CurrentLayout() == lay && Opts() == opt
      ensures Reports(res, StreamOf(), linesRead, recWin, RecordFields(), CsvRecords.TakeLine(lay, opt, f, lines))
    {
      ghost var st := f.st;
      ghost var n := CsvRecords.TakeLine(lay, opt, f, lines);
      fieldsCount := 0;
      recWin := ScanWindow(eof);
      if actualBufferLen <= 0 {
        // no more data
        assert n == Next(NoMoreData, st, lines);
        return Ok(false);
      }
      linesRead := linesRead + 1;
      res := ScanRecord(eof);
      assert n.outcome.LineTooLong? ==> n == Next(LineTooLong(lines + 1), st, lines + 1);
    }

    /** Read from the first character of a line to LineEnded: the line does
        not fit (InvalidDataException), or its fields become the current
        record and the line start moves past it. */
    method ScanRecord(eof: bool) returns (res: ReadResult)
      requires Owned() && fieldsCount == 0 && recWin == ScanWindow(eof) && actualBufferLen > 0
      modifies Repr
      ensures Valid() && fresh(Repr - old(Repr)) && buffer == old(buffer)
      ensures bufferSize == old(bufferSize) && trimFields == old(trimFields) && linesRead == old(linesRead)
      ensures bufferLength == old(bufferLength) && bufferLoadThreshold == old(bufferLoadThreshold)
      ensures recWin == old(recWin)
      ensures var sc := Scan(recWin, Opts());
        && (sc.TooLong? ==> res == InvalidData(linesRead) && RingStream() == old(RingStream()))
        && (sc.Line? ==> res == Ok(true) && RecordFields() == sc.fields)
        && (sc.Line? ==> RingStream() == Consume(Layout(bufferLength, bufferLoadThreshold), old(RingStream()), sc.next))
    {
      RingSliceHolds(buffer[..], lineStartPos, actualBufferLen, eof);
      var r, ranges := ScanLine(recWin, lineStartPos + actualBufferLen, eof);
      KeepRecord(ranges);
      if r.None? {
        // the line does not fit in the buffer
        return InvalidData(linesRead);
      }
      LineEnded(r.value);
      return Ok(true);
    }

    /** The fields of the scanned line become the current record. */
    method KeepRecord(ranges: seq<FieldRange>)
      requires Owned() && fieldsCount == 0 && RingValid() && RecordInRing()
      requires forall i :: 0 <= i < |ranges| ==> ranges[i].Within(recWin.base, recWin.MaxPos())
      modifies this`fieldsCount, this`fields, this`Repr, set x | x in fields
      ensures Valid() && fresh(Repr - old(Repr)) && RecordFields() == ranges
    {
      StoreFields(ranges);
      Repr := Repr + set x | x in fields;
      assert forall i :: 0 <= i < fieldsCount ==> fields[i].Range() == ranges[i];
    }

    /** LineEnded: the line start moves to charPos, past the line's
        terminator, and the characters up to it are no longer buffered. */
    method LineEnded(charPos: int)
      requires Valid() && buffer != null && lineStartPos <= charPos <= lineStartPos + actualBufferLen
      modifies this`lineStartPos, this`actualBufferLen
      ensures Valid()
      ensures RingStream() == Consume(Layout(bufferLength, bufferLoadThreshold), old(RingStream()), charPos)
    {
      ghost var used := charPos - lineStartPos;
      RingSliceDrop(buffer[..], lineStartPos, actualBufferLen, used);
      actualBufferLen := actualBufferLen - (charPos - lineStartPos);
      lineStartPos := charPos % bufferLength;
    }
  }
}
