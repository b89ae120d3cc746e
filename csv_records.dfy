/** CsvReader.Read as a function on values: the ring buffer is seen as
    the characters it holds from lineStartPos on, the source as the
    characters not yet read from it. Filling, scanning one line, moving the
    line start and skipping blank lines are each a function here; the Reader
    module proves that the class does exactly this. */
module CsvRecords {
  import opened CsvText
  import opened CsvScan

  function Min(a: int, b: int): int { if a <= b then a else b }

  /** The len characters of a ring buffer from linear position start on,
      wrapping around its physical end. */
  function RingSlice(ring: seq<char>, start: int, len: int): (r: seq<char>)
    requires |ring| > 0 && 0 <= len
    ensures |r| == len && forall k :: 0 <= k < len ==> r[k] == ring[(start + k) % |ring|]
  {
    seq(len, k requires 0 <= k < len => ring[(start + k) % |ring|])
  }

  lemma MulAtLeast(d: int, n: int)
    requires 1 <= d && 0 < n
    ensures d * n >= n
  {
    var e := d - 1;
    assert e * n >= 0;
    assert d * n == e * n + n;
  }

  /** The remainder of a division is determined by any quotient that leaves it. */
  lemma ModUnique(a: int, n: int, q: int, b: int)
    requires 0 < n && a == q * n + b && 0 <= b < n
    ensures a % n == b
  {
    var q', b' := a / n, a % n;
    assert a == q' * n + b';
    if q' < q {
      var d := q - q';
      assert d * n == q * n - q' * n;
      MulAtLeast(d, n);
    } else if q' > q {
      var d := q' - q;
      assert d * n == q' * n - q * n;
      MulAtLeast(d, n);
    }
  }

  lemma ModWrap(x: int, n: int)
    requires 0 < n && 0 <= x < 2 * n
    ensures x % n == if x < n then x else x - n
  {
    if x < n {
      ModUnique(x, n, 0, x);
    } else {
      ModUnique(x, n, 1, x - n);
    }
  }

  lemma ModShift(x: int, k: int, n: int)
    requires 0 <= x && 0 <= k && 0 < n
    ensures (x % n + k) % n == (x + k) % n
  {
    var q, r := x / n, x % n;
    var q2, r2 := (r + k) / n, (r + k) % n;
    assert x + k == (q + q2) * n + r2 by {
      assert x == q * n + r;
      assert r + k == q2 * n + r2;
      assert (q + q2) * n == q * n + q2 * n;
    }
    ModUnique(x + k, n, q + q2, r2);
  }

  /** A ring slice that stops before the physical end is a plain slice. */
  lemma RingSliceInside(ring: seq<char>, start: int, len: int)
    requires |ring| > 0 && 0 <= start && 0 <= len && start + len <= |ring|
    ensures RingSlice(ring, start, len) == ring[start..start + len]
  {
    forall k | 0 <= k < len ensures RingSlice(ring, start, len)[k] == ring[start..start + len][k] {
      ModWrap(start + k, |ring|);
    }
  }

  /** Dropping the first u characters of a ring slice is the slice that starts
      u places further on, its start reduced modulo the ring length. */
  lemma RingSliceDrop(ring: seq<char>, start: int, len: int, u: int)
    requires |ring| > 0 && 0 <= start && 0 <= u <= len
    ensures RingSlice(ring, start, len)[u..] == RingSlice(ring, (start + u) % |ring|, len - u)
  {
    forall k | 0 <= k < len - u
      ensures RingSlice(ring, start, len)[u..][k] == RingSlice(ring, (start + u) % |ring|, len - u)[k]
    {
      ModShift(start + u, k, |ring|);
    }
  }

  /** A ring slice read in two parts. */
  lemma RingSliceSplit(ring: seq<char>, start: int, a: int, b: int)
    requires |ring| > 0 && 0 <= a && 0 <= b
    ensures RingSlice(ring, start, a + b) == RingSlice(ring, start, a) + RingSlice(ring, start + a, b)
  {
    var r, r1, r2 := RingSlice(ring, start, a + b), RingSlice(ring, start, a), RingSlice(ring, start + a, b);
    forall k | 0 <= k < a + b ensures r[k] == (r1 + r2)[k] {
      if k >= a {
        assert start + a + (k - a) == start + k;
      }
    }
  }

  /** The ring holds the window: each linear position of the window is
      found at that position reduced modulo the ring length. */
  predicate Holds(ring: seq<char>, win: Window)
    requires |ring| > 0
  {
    0 <= win.base && forall p {:trigger win.At(p)} :: win.base <= p < win.MaxPos() ==> win.At(p) == ring[p % |ring|]
  }

  /** A window read off the ring from a physical start is held by it. */
  lemma RingSliceHolds(ring: seq<char>, start: int, len: int, eof: bool)
    requires 0 <= start < |ring| && 0 <= len <= |ring|
    ensures Holds(ring, Window(RingSlice(ring, start, len), start, eof))
  {
    var win := Window(RingSlice(ring, start, len), start, eof);
    forall p | win.base <= p < win.MaxPos() ensures win.At(p) == ring[p % |ring|] {
      assert start + (p - start) == p;
    }
  }

  /** The ring after data is copied into it at physical index at. */
  function Written(ring: seq<char>, at: int, data: seq<char>): (r: seq<char>)
    requires 0 <= at && at + |data| <= |ring|
    ensures |r| == |ring|
  {
    ring[..at] + data + ring[at + |data|..]
  }

  /** Filling a ring whose buffered characters do not reach its physical
      end: first the places up to the end, then those before the line start. */
  lemma FillUnwrapped(ring: seq<char>, lsp: int, a: int, src: seq<char>, n1: int, n2: int)
    requires 0 <= lsp < |ring| && 0 <= a && 0 <= n1 && 0 <= n2 && n1 + n2 <= |src|
    requires lsp + a + n1 <= |ring| && n2 <= lsp && (n2 > 0 ==> lsp + a + n1 == |ring|)
    ensures var r := Written(Written(ring, lsp + a, src[..n1]), 0, src[n1..n1 + n2]);
      RingSlice(r, lsp, a + n1 + n2) == RingSlice(ring, lsp, a) + src[..n1 + n2]
  {
    var L := |ring|;
    var r := Written(Written(ring, lsp + a, src[..n1]), 0, src[n1..n1 + n2]);
    var x, y := RingSlice(r, lsp, a + n1 + n2), RingSlice(ring, lsp, a) + src[..n1 + n2];
    forall k | 0 <= k < a + n1 + n2 ensures x[k] == y[k] {
      ModWrap(lsp + k, L);
    }
  }

  /** Filling a ring whose buffered characters wrap: one run up to the line start. */
  lemma FillWrapped(ring: seq<char>, lsp: int, a: int, src: seq<char>, n: int)
    requires 0 <= lsp < |ring| && a <= |ring| <= lsp + a && 0 <= n <= |src| && a + n <= |ring|
    ensures var r := Written(ring, lsp + a - |ring|, src[..n]);
      RingSlice(r, lsp, a + n) == RingSlice(ring, lsp, a) + src[..n]
  {
    var L := |ring|;
    var r := Written(ring, lsp + a - L, src[..n]);
    var x, y := RingSlice(r, lsp, a + n), RingSlice(ring, lsp, a) + src[..n];
    forall k | 0 <= k < a + n ensures x[k] == y[k] {
      ModWrap(lsp + k, L);
    }
  }

  /** bufferLength and bufferLoadThreshold: the buffer holds
      length - threshold = BufferSize characters of a line, plus room to read
      ahead, and a refill waits until threshold characters are free. */
  datatype Layout = Layout(length: int, threshold: int)
  {
    predicate Valid() { 0 < threshold <= length - threshold }

    function BufferSize(): int { length - threshold }
  }

  /** The layout Read fixes from BufferSize the first time it runs. */
  function LayoutFor(bufferSize: int): (l: Layout)
    requires bufferSize > 0
    ensures l.Valid() && l.BufferSize() == bufferSize && l.threshold <= 8192
    ensures bufferSize <= 8192 ==> l.length == 2 * bufferSize
  {
    var t := Min(bufferSize, 8192);
    Layout(bufferSize + t, t)
  }

  /** The reader between two calls: the line start in the ring, the
      buffered characters from there on, and what the source still holds. */
  datatype Stream = Stream(start: int, pending: seq<char>, rest: seq<char>)
  {
    predicate Valid(lay: Layout) { 0 <= start < lay.length && |pending| <= lay.length }

    /** Everything still to be read: buffered, then unread. */
    function Text(): seq<char> { pending + rest }
  }

  datatype Filled = Filled(st: Stream, eof: bool)

  /** FillBuffer: when at least threshold places are free, the free places
      are offered to the source, which gives as many characters as it has up
      to that number; eof says it had fewer than were asked for. */
  function Fill(lay: Layout, st: Stream): (r: Filled)
    requires lay.Valid() && st.Valid(lay)
    ensures r.st.Valid(lay) && r.st.start == st.start
    ensures r.st.Text() == st.Text()
    ensures |st.pending| <= |r.st.pending| && r.st.pending[..|st.pending|] == st.pending
    ensures r.eof ==> r.st.rest == []
    ensures !r.eof ==> |r.st.pending| > lay.BufferSize()
    ensures |st.pending| == 0 && |st.rest| > 0 ==> |r.st.pending| > 0
  {
    var free := lay.length - |st.pending|;
    if free >= lay.threshold then
      var n := Min(free, |st.rest|);
      assert st.Text() == (st.pending + st.rest[..n]) + st.rest[n..];
      Filled(Stream(st.start, st.pending + st.rest[..n], st.rest[n..]), |st.rest| < free)
    else
      Filled(st, false)
  }

  /** FillBuffer's first case: the buffered characters end before the
      physical end, so the source is asked for the places up to the end and
      then for those before the line start (if any); Fill is the result. */
  lemma FillCaseUnwrapped(lay: Layout, lsp: int, a: int, ring: seq<char>, src: seq<char>,
                          n: int, n2: int, eof: bool)
    requires lay.Valid() && |ring| == lay.length && 0 <= lsp < lay.length && 0 <= a
    requires lay.length - a >= lay.threshold && lsp + a < lay.length
    requires n == Min(lay.length - (lsp + a), |src|)
    requires n2 == if lsp > 0 then Min(lsp, |src| - n) else 0
    requires eof == (n < lay.length - (lsp + a) || (lsp > 0 && n2 < lsp))
    ensures var r := Written(Written(ring, lsp + a, src[..n]), 0, src[n..][..n2]);
      Fill(lay, Stream(lsp, RingSlice(ring, lsp, a), src))
        == Filled(Stream(lsp, RingSlice(r, lsp, a + n + n2), src[n..][n2..]), eof)
  {
    assert src[n..][..n2] == src[n..n + n2];
    assert src[n..][n2..] == src[n + n2..];
    FillUnwrapped(ring, lsp, a, src, n, n2);
  }

  /** FillBuffer's second case: the buffered characters wrap, so the free
      places are one run ending at the line start. */
  lemma FillCaseWrapped(lay: Layout, lsp: int, a: int, ring: seq<char>, src: seq<char>, n: int, eof: bool)
    requires lay.Valid() && |ring| == lay.length && 0 <= lsp < lay.length && 0 <= a
    requires lay.length - a >= lay.threshold && lay.length <= lsp + a
    requires n == Min(lay.length - a, |src|) && eof == (n < lay.length - a)
    ensures var r := Written(ring, lsp + a - lay.length, src[..n]);
      Fill(lay, Stream(lsp, RingSlice(ring, lsp, a), src))
        == Filled(Stream(lsp, RingSlice(r, lsp, a + n), src[n..]), eof)
  {
    FillWrapped(ring, lsp, a, src, n);
  }

  /** What one call of Read produces: a record (the window it was scanned in
      and its fields), the end of the data, or the failure of a line that
      does not fit in the buffer (with the line number). */
  datatype Outcome = Record(win: Window, fields: seq<FieldRange>) | NoMoreData | LineTooLong(line: int)

  datatype Next = Next(outcome: Outcome, st: Stream, lines: int)

  /** The values of the fields of a record. */
  function Values(win: Window, fields: seq<FieldRange>): (vs: seq<string>)
    requires forall i :: 0 <= i < |fields| ==> fields[i].Within(win.base, win.MaxPos())
    ensures |vs| == |fields|
    ensures forall i :: 0 <= i < |fields| ==> vs[i] == FieldValue(win, fields[i])
  {
    seq(|fields|, i requires 0 <= i < |fields| => FieldValue(win, fields[i]))
  }

  /** The stream once a line ending just before linear position next is
      consumed: lineStartPos moves to next, reduced modulo the ring length. */
  function Consume(lay: Layout, st: Stream, next: int): (r: Stream)
    requires lay.Valid() && st.Valid(lay) && st.start <= next <= st.start + |st.pending|
    ensures r.Valid(lay) && r.Text() == st.Text()[next - st.start..]
    ensures |r.Text()| == |st.Text()| - (next - st.start) && IsSuffix(r.Text(), st.Text())
  {
    var used := next - st.start;
    assert st.Text()[used..] == st.pending[used..] + st.rest;
    Stream(next % lay.length, st.pending[used..], st.rest)
  }

  /** Read after FillBuffer: stop if nothing is buffered; otherwise count
      the line, scan it and move the line start past it. */
  function TakeLine(lay: Layout, opt: Options, f: Filled, lines: int): (r: Next)
    requires lay.Valid() && opt.Valid() && f.st.Valid(lay)
    ensures r.st.Valid(lay)
    ensures r.outcome.NoMoreData? ==> r == Next(NoMoreData, f.st, lines) && f.st.pending == []
    ensures !r.outcome.NoMoreData? ==> r.lines == lines + 1
    ensures r.outcome.LineTooLong? ==> r.st == f.st && r.outcome.line == r.lines
    ensures r.outcome.Record? ==>
      0 < |r.outcome.fields| && IsSuffix(r.st.Text(), f.st.Text()) && |r.st.Text()| < |f.st.Text()|
    ensures r.outcome.Record? ==>
      forall i :: 0 <= i < |r.outcome.fields| ==>
        r.outcome.fields[i].Within(r.outcome.win.base, r.outcome.win.MaxPos())
  {
    if |f.st.pending| == 0 then
      Next(NoMoreData, f.st, lines)
    else
      var win := Window(f.st.pending, f.st.start, f.eof);
      match Scan(win, opt)
      case TooLong => Next(LineTooLong(lines + 1), f.st, lines + 1)
      case Line(fields, next) =>
        ScanWithin(win, opt);
        Next(Record(win, fields), Consume(lay, f.st, next), lines + 1)
  }

  /** Read: fill, take a line, and read again past a blank one. A record
      returned is never blank and its fields lie in its window. */
  function NextRecord(lay: Layout, opt: Options, st: Stream, lines: int): (r: Next)
    requires lay.Valid() && opt.Valid() && st.Valid(lay)
    decreases |st.Text()|
    ensures r.st.Valid(lay) && r.lines >= lines
    ensures r.outcome.Record? ==> r.lines > lines && 0 < |r.outcome.fields| && !IsBlank(r.outcome.fields)
    ensures r.outcome.Record? ==>
      forall i :: 0 <= i < |r.outcome.fields| ==>
        r.outcome.fields[i].Within(r.outcome.win.base, r.outcome.win.MaxPos())
  {
    var n := TakeLine(lay, opt, Fill(lay, st), lines);
    if n.outcome.Record? && IsBlank(n.outcome.fields) then NextRecord(lay, opt, n.st, n.lines)
    else n
  }

  /** Read past a blank line is Read from the stream after it. */
  lemma NextRecordSkips(lay: Layout, opt: Options, st: Stream, lines: int)
    requires lay.Valid() && opt.Valid() && st.Valid(lay)
    requires var n := TakeLine(lay, opt, Fill(lay, st), lines); n.outcome.Record? && IsBlank(n.outcome.fields)
    ensures var n := TakeLine(lay, opt, Fill(lay, st), lines);
      NextRecord(lay, opt, st, lines) == NextRecord(lay, opt, n.st, n.lines)
  {
  }

  /** Read that does not meet a blank line is the line it takes. */
  lemma NextRecordTakes(lay: Layout, opt: Options, st: Stream, lines: int)
    requires lay.Valid() && opt.Valid() && st.Valid(lay)
    requires var n := TakeLine(lay, opt, Fill(lay, st), lines); !(n.outcome.Record? && IsBlank(n.outcome.fields))
    ensures NextRecord(lay, opt, st, lines) == TakeLine(lay, opt, Fill(lay, st), lines)
  {
  }

  /** a is what is left of b once some prefix of b is taken off. */
  predicate IsSuffix(a: seq<char>, b: seq<char>)
  {
    |a| <= |b| && a == b[|b| - |a|..]
  }

  lemma SuffixTrans(a: seq<char>, b: seq<char>, c: seq<char>)
    requires IsSuffix(a, b) && IsSuffix(b, c)
    ensures IsSuffix(a, c)
  {
    assert c[|c| - |b|..][|b| - |a|..] == c[|c| - |a|..];
  }

  /** What Read consumes: it only ever takes characters off the front of
      the text still to be read (the skipped blank lines, then the record),
      at least one for a record; the end of the data leaves nothing behind. */
  lemma {:induction false} NextRecordConsumes(lay: Layout, opt: Options, st: Stream, lines: int)
    requires lay.Valid() && opt.Valid() && st.Valid(lay)
    decreases |st.Text()|
    ensures var r := NextRecord(lay, opt, st, lines);
      && (r.outcome.NoMoreData? ==> r.st.Text() == [] && r.st.pending == [])
      && (!r.outcome.NoMoreData? ==> IsSuffix(r.st.Text(), st.Text()))
      && (r.outcome.Record? ==> |r.st.Text()| < |st.Text()|)
      && (r.outcome.LineTooLong? ==> r.outcome.line == r.lines)
  {
    var r := NextRecord(lay, opt, st, lines);
    var f := Fill(lay, st);
    var n := TakeLine(lay, opt, f, lines);
    if n.outcome.Record? && IsBlank(n.outcome.fields) {
      NextRecordSkips(lay, opt, st, lines);
      NextRecordConsumes(lay, opt, n.st, n.lines);
      if !r.outcome.NoMoreData? {
        SuffixTrans(r.st.Text(), n.st.Text(), st.Text());
      }
    } else {
      NextRecordTakes(lay, opt, st, lines);
      assert r == n;
      if n.outcome.LineTooLong? {
        assert IsSuffix(st.Text(), st.Text());
      } else if n.outcome.NoMoreData? {
        assert f.st.pending == [] && f.st.rest == [];
      }
    }
  }

  /** Once everything is read, Read reports the end of the data. */
  lemma NextRecordAtEnd(lay: Layout, opt: Options, st: Stream, lines: int)
    requires lay.Valid() && opt.Valid() && st.Valid(lay) && st.Text() == []
    ensures NextRecord(lay, opt, st, lines) == Next(NoMoreData, Stream(st.start, [], []), lines)
  {
  }

  /** Every quoted field of a record Read returns is what
      ReadQuotedFieldToEnd made of the quote at its start. */
  lemma {:induction false} NextRecordShaped(lay: Layout, opt: Options, st: Stream, lines: int)
    requires lay.Valid() && opt.Valid() && st.Valid(lay)
    decreases |st.Text()|
    ensures var r := NextRecord(lay, opt, st, lines);
      r.outcome.Record? ==>
        forall i :: 0 <= i < |r.outcome.fields| ==> QuotedFrom(r.outcome.win, r.outcome.fields[i])
  {
    var f := Fill(lay, st);
    var n := TakeLine(lay, opt, f, lines);
    if n.outcome.Record? && IsBlank(n.outcome.fields) {
      NextRecordSkips(lay, opt, st, lines);
      NextRecordShaped(lay, opt, n.st, n.lines);
    } else {
      NextRecordTakes(lay, opt, st, lines);
      if n.outcome.Record? {
        ScanShaped(Window(f.st.pending, f.st.start, f.eof), opt);
      }
    }
  }
}
