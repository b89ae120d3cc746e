/** The line scanner of CsvReader.Read as pure functions. Positions are the
    reader's linear positions: the scan of a line starts at lineStartPos and
    may run up to maxPos = lineStartPos + actualBufferLen, past the physical
    end of the ring buffer; the characters in that range form a Window. */
module CsvScan {
  import opened CsvText

  /** The buffered characters from linear position base on, and whether the
      source had no more characters to give when the buffer was filled. */
  datatype Window = Window(chars: seq<char>, base: int, eof: bool)
  {
    function MaxPos(): int { base + |chars| }

    function At(p: int): char
      requires base <= p < MaxPos()
    {
      chars[p - base]
    }
  }

  /** The reader's settings that the scanner uses. */
  datatype Options = Options(delim: string, trim: bool)
  {
    predicate Valid() { |delim| > 0 }
  }

  /** One field of the current record: the inclusive range [start, end] of
      linear positions it covers, whether it was read as a quoted field, and
      the number of doubled quotes met inside the quotes. */
  datatype FieldRange = FieldRange(start: int, end: int, quoted: bool, escapes: nat)
  {
    function Length(): int { end - start + 1 }

    /** The field lies inside the linear positions [lo, hi). */
    predicate Within(lo: int, hi: int)
    {
      lo <= start && start <= end + 1 && end < hi
    }
  }

  /** Field.Reset(start): an empty, unquoted field that begins at start. */
  function EmptyField(start: int): (f: FieldRange)
    ensures f.start == start && f.Length() == 0 && !f.quoted && f.escapes == 0
  {
    FieldRange(start, start - 1, false, 0)
  }

  /** A record found in the window (its fields, and the linear position just
      past the line and its terminator), or the line does not fit. */
  datatype Scanned = Line(fields: seq<FieldRange>, next: int) | TooLong

  /** The delimiter occurs at pos, every one of its characters inside the window. */
  predicate DelimAt(win: Window, pos: int, delim: string)
  {
    var ok := win.base <= pos && pos + |delim| <= win.MaxPos() && DelimFrom(win, pos, delim, 0);
    ok
  }

  /** The characters of the delimiter from its k-th on follow at pos + k, as
      ReadDelimTail compares them, one offset after the other. */
  predicate DelimFrom(win: Window, pos: int, delim: string, k: nat)
    requires win.base <= pos
    decreases |delim| - k
  {
    k >= |delim| || (pos + k < win.MaxPos() && win.At(pos + k) == delim[k] && DelimFrom(win, pos, delim, k + 1))
  }

  /** Each character of a delimiter found at pos is in its place. */
  lemma DelimAtChar(win: Window, pos: int, delim: string, k: int)
    requires DelimAt(win, pos, delim) && 0 <= k < |delim|
    ensures win.At(pos + k) == delim[k]
  {
    DelimFromChar(win, pos, delim, 0, k);
  }

  lemma {:induction false} DelimFromChar(win: Window, pos: int, delim: string, k: nat, j: int)
    requires win.base <= pos && DelimFrom(win, pos, delim, k) && k <= j < |delim|
    decreases j - k
    ensures pos + j < win.MaxPos() && win.At(pos + j) == delim[j]
  {
    if k < j {
      DelimFromChar(win, pos, delim, k + 1, j);
    }
  }

  /** The delimiter occurs at pos when each of its characters is in its place. */
  lemma DelimAtChars(win: Window, pos: int, delim: string)
    requires win.base <= pos && pos + |delim| <= win.MaxPos()
    requires forall j :: 0 <= j < |delim| ==> win.At(pos + j) == delim[j]
    ensures DelimAt(win, pos, delim)
  {
    DelimFromChars(win, pos, delim, 0);
  }

  lemma {:induction false} DelimFromChars(win: Window, pos: int, delim: string, k: nat)
    requires win.base <= pos && pos + |delim| <= win.MaxPos()
    requires forall j :: 0 <= j < |delim| ==> win.At(pos + j) == delim[j]
    decreases |delim| - k
    ensures DelimFrom(win, pos, delim, k)
  {
    if k < |delim| {
      DelimFromChars(win, pos, delim, k + 1);
    }
  }

  /** ReadQuotedFieldToEnd: from pos, just past an opening quote, find the
      closing quote, skipping each doubled quote and counting it. At the end
      of the window the field is closed at its last character when the input
      is exhausted, and the line does not fit otherwise (None). */
  function QuotedEnd(win: Window, pos: int, escapes: nat): (r: Option<(int, nat)>)
    requires win.base < pos <= win.MaxPos()
    decreases win.MaxPos() - pos
    ensures r.Some? ==> pos - 1 <= r.value.0 < win.MaxPos() && escapes <= r.value.1
    ensures r.None? ==> !win.eof
  {
    if pos == win.MaxPos() then
      if win.eof then Some((pos - 1, escapes)) else None
    else if win.At(pos) == '"' then
      if pos + 1 < win.MaxPos() && win.At(pos + 1) == '"' then QuotedEnd(win, pos + 2, escapes + 1)
      else Some((pos, escapes))
    else
      QuotedEnd(win, pos + 1, escapes)
  }

  /** The variables of Read's scanning loop: the position reached (charPos),
      the fields already closed, the field being read (currentField) and
      the ignoreQuote flag. */
  datatype ScanState = ScanState(pos: int, done: seq<FieldRange>, cur: FieldRange, ignoreQuote: bool)

  /** Read's variables when the scan of a line begins at lineStartPos. */
  function StartState(start: int): (s: ScanState)
    ensures s.pos == start && s.done == [] && s.cur.start == start && s.cur.Length() == 0
    ensures !s.cur.quoted && !s.ignoreQuote
  {
    ScanState(start, [], EmptyField(start), false)
  }

  /** What one pass of the loop body does: go on from a later position, end
      the line just before position next, or give up because a quoted field
      is not closed inside the window. */
  datatype Step = Continue(state: ScanState) | Ended(next: int) | Overflow

  /** One pass of the body of Read's scanning loop, at the character at s.pos. */
  function StepAt(win: Window, opt: Options, s: ScanState): (r: Step)
    requires opt.Valid() && win.base <= s.pos < win.MaxPos()
    ensures r.Continue? ==> s.pos < r.state.pos <= win.MaxPos() && |s.done| <= |r.state.done|
    ensures r.Ended? ==> s.pos < r.next <= win.MaxPos()
    ensures r.Overflow? ==> !win.eof
  {
    var pos := s.pos;
    var ch := win.At(pos);
    if ch == '"' then
      if s.ignoreQuote then
        Continue(s.(pos := pos + 1, cur := s.cur.(end := pos)))
      else if s.cur.quoted || s.cur.Length() > 0 then
        // a quote after content is content, and so is every later quote of the field
        Continue(s.(pos := pos + 1, cur := s.cur.(end := pos, quoted := false), ignoreQuote := true))
      else
        match QuotedEnd(win, pos + 1, s.cur.escapes)
        case None => Overflow
        case Some((e, n)) => Continue(s.(pos := e + 1, cur := FieldRange(pos, e, true, n)))
    else if ch == '\r' then
      // "\r\n" is one terminator, a lone '\r' another
      Ended(if pos + 1 < win.MaxPos() && win.At(pos + 1) == '\n' then pos + 2 else pos + 1)
    else if ch == '\n' then
      Ended(pos + 1)
    else if DelimAt(win, pos, opt.delim) then
      Continue(ScanState(pos + |opt.delim|, s.done + [s.cur], EmptyField(pos + |opt.delim|), false))
    else if ch == ' ' && opt.trim then
      Continue(s.(pos := pos + 1))
    else
      // content: the first content character starts the field, and content
      // after a closing quote turns the field into literal text
      var c := if s.cur.Length() == 0 then s.cur.(start := pos) else s.cur;
      Continue(ScanState(pos + 1, s.done, c.(end := pos, quoted := false), s.ignoreQuote || c.quoted))
  }

  /** Read's scanning loop from state s to the end of the line: at the end of
      the window the line ends there if the input is exhausted, and does not
      fit otherwise. */
  function ScanFrom(win: Window, opt: Options, s: ScanState): (r: Scanned)
    requires opt.Valid() && win.base <= s.pos <= win.MaxPos()
    decreases win.MaxPos() - s.pos
    ensures r.Line? ==> s.pos <= r.next <= win.MaxPos() && (s.pos < win.MaxPos() ==> s.pos < r.next)
    ensures r.Line? ==> |s.done| < |r.fields|
    ensures win.eof ==> r.Line?
  {
    if s.pos == win.MaxPos() then
      if win.eof then Line(s.done + [s.cur], s.pos) else TooLong
    else
      match StepAt(win, opt, s)
      case Continue(t) => ScanFrom(win, opt, t)
      case Ended(next) => Line(s.done + [s.cur], next)
      case Overflow => TooLong
  }

  /** Scanning a line from its first character: Read from lineStartPos. */
  function Scan(win: Window, opt: Options): (r: Scanned)
    requires opt.Valid()
    ensures r.Line? ==> 0 < |r.fields| && win.base <= r.next <= win.MaxPos()
    ensures r.Line? && |win.chars| > 0 ==> win.base < r.next
    ensures win.eof ==> r.Line?
  {
    ScanFrom(win, opt, StartState(win.base))
  }

  /** The value of a field (Field.GetValueInternal read off the window): a
      quoted field drops its first and last character and collapses each
      doubled quote; any other field is its characters as they stand. */
  function FieldValue(win: Window, f: FieldRange): (v: string)
    requires f.Within(win.base, win.MaxPos())
    ensures !f.quoted ==> v == win.chars[f.start - win.base..f.end + 1 - win.base]
  {
    var lo, hi := f.start - win.base, f.end + 1 - win.base;
    if f.quoted then
      var inner := if f.Length() - 2 > 0 then win.chars[lo + 1..hi - 1] else [];
      if f.escapes > 0 then Replace(inner, "\"\"", "\"") else inner
    else if f.Length() > 0 then win.chars[lo..hi]
    else []
  }

  /** A record's only field is empty: Read skips such a line (a blank line,
      or only spaces when fields are trimmed). */
  predicate IsBlank(fields: seq<FieldRange>)
  {
    |fields| == 1 && fields[0].Length() == 0
  }

  /** The fields closed so far lie between lo and the position reached, and
      the field being read ends before it. */
  predicate Placed(lo: int, s: ScanState)
  {
    (forall i :: 0 <= i < |s.done| ==> s.done[i].Within(lo, s.pos))
    && s.cur.Within(lo, s.pos + 1) && s.cur.end < s.pos
  }

  lemma StepPlaced(win: Window, opt: Options, s: ScanState)
    requires opt.Valid() && win.base <= s.pos < win.MaxPos() && Placed(win.base, s)
    ensures var r := StepAt(win, opt, s);
      (r.Continue? ==> Placed(win.base, r.state)) && (r.Ended? ==> s.cur.Within(win.base, r.next))
  {
    var r := StepAt(win, opt, s);
    if r.Continue? {
      forall i | 0 <= i < |r.state.done| ensures r.state.done[i].Within(win.base, r.state.pos) {
        if i < |s.done| {
          assert r.state.done[i] == s.done[i];
        }
      }
    }
  }

  /** The fields of a scan state, the current one last, lie before hi. */
  lemma PlacedRanges(lo: int, s: ScanState, hi: int)
    requires Placed(lo, s) && s.pos <= hi
    ensures forall i :: 0 <= i < |s.done + [s.cur]| ==> (s.done + [s.cur])[i].Within(lo, hi)
  {
    forall i | 0 <= i < |s.done + [s.cur]| ensures (s.done + [s.cur])[i].Within(lo, hi) {
      if i < |s.done| {
        assert (s.done + [s.cur])[i] == s.done[i];
      }
    }
  }

  /** Every field the scanner reports lies inside the characters the line consumes. */
  lemma {:induction false} ScanFromWithin(win: Window, opt: Options, s: ScanState)
    requires opt.Valid() && win.base <= s.pos <= win.MaxPos() && Placed(win.base, s)
    requires ScanFrom(win, opt, s).Line?
    ensures var r := ScanFrom(win, opt, s);
      forall i :: 0 <= i < |r.fields| ==> r.fields[i].Within(win.base, r.next)
    decreases win.MaxPos() - s.pos
  {
    var r := ScanFrom(win, opt, s);
    if s.pos < win.MaxPos() {
      StepPlaced(win, opt, s);
      var st := StepAt(win, opt, s);
      if st.Continue? {
        ScanFromWithin(win, opt, st.state);
        return;
      }
    }
    assert r.fields == s.done + [s.cur];
    forall i | 0 <= i < |r.fields| ensures r.fields[i].Within(win.base, r.next) {
      if i < |s.done| {
        assert r.fields[i] == s.done[i];
      }
    }
  }

  lemma ScanWithin(win: Window, opt: Options)
    requires opt.Valid() && Scan(win, opt).Line?
    ensures var r := Scan(win, opt);
      forall i :: 0 <= i < |r.fields| ==> r.fields[i].Within(win.base, r.next)
  {
    ScanFromWithin(win, opt, StartState(win.base));
  }

  /** The field, if quoted, is what ReadQuotedFieldToEnd makes of the quote
      at its start: it ends where QuotedEnd stops, with the escapes QuotedEnd
      counts. */
  predicate QuotedFrom(win: Window, f: FieldRange)
  {
    f.quoted ==>
      win.base <= f.start < win.MaxPos() && win.At(f.start) == '"'
      && QuotedEnd(win, f.start + 1, 0) == Some((f.end, f.escapes))
  }

  /** From pos on, QuotedEnd stops at a closing quote inside the window
      rather than at the end of the window. */
  predicate Closes(win: Window, pos: int)
    requires win.base < pos <= win.MaxPos()
    decreases win.MaxPos() - pos
  {
    if pos == win.MaxPos() then false
    else if win.At(pos) == '"' then
      if pos + 1 < win.MaxPos() && win.At(pos + 1) == '"' then Closes(win, pos + 2) else true
    else Closes(win, pos + 1)
  }

  /** A quoted field whose closing quote is in the window. */
  predicate ClosedQuoted(win: Window, f: FieldRange)
  {
    f.quoted && QuotedFrom(win, f) && Closes(win, f.start + 1)
  }

  /** The characters at linear positions [lo, hi) with each doubled quote
      collapsed, as GetValueInternal does inside the quotes. */
  function Collapsed(win: Window, lo: int, hi: int): string
    requires win.base <= lo <= hi <= win.MaxPos()
  {
    Replace(win.chars[lo - win.base..hi - win.base], "\"\"", "\"")
  }

  /** A doubled quote at the front collapses to one quote. */
  lemma CollapsedPair(win: Window, pos: int, end: int)
    requires win.base <= pos && pos + 2 <= end <= win.MaxPos() && win.At(pos) == '"' && win.At(pos + 1) == '"'
    ensures |Collapsed(win, pos, end)| == 1 + |Collapsed(win, pos + 2, end)|
  {
    var b := win.chars[pos + 2 - win.base..end - win.base];
    assert win.chars[pos - win.base..end - win.base] == "\"\"" + b;
    ReplaceHead(b, "\"\"", "\"");
  }

  /** Any other character at the front is kept. */
  lemma CollapsedChar(win: Window, pos: int, end: int)
    requires win.base <= pos < end <= win.MaxPos() && win.At(pos) != '"'
    ensures |Collapsed(win, pos, end)| == 1 + |Collapsed(win, pos + 1, end)|
  {
    var b := win.chars[pos + 1 - win.base..end - win.base];
    assert win.chars[pos - win.base..end - win.base] == [win.chars[pos - win.base]] + b;
    ReplaceCons(win.chars[pos - win.base], b, "\"\"", "\"");
  }

  /** Up to a closing quote, collapsing the doubled quotes removes one
      character for each escape QuotedEnd counts, and QuotedEnd stops on
      that quote. */
  lemma {:induction false} QuotedEndLength(win: Window, pos: int, e: nat)
    requires win.base < pos <= win.MaxPos() && Closes(win, pos)
    decreases win.MaxPos() - pos
    ensures QuotedEnd(win, pos, e).Some?
    ensures var end := QuotedEnd(win, pos, e).value.0;
      pos <= end < win.MaxPos() && win.At(end) == '"'
      && |Collapsed(win, pos, end)| == end - pos - (QuotedEnd(win, pos, e).value.1 - e)
  {
    var r := QuotedEnd(win, pos, e);
    if win.At(pos) == '"' {
      if pos + 1 < win.MaxPos() && win.At(pos + 1) == '"' {
        assert r == QuotedEnd(win, pos + 2, e + 1);
        QuotedEndLength(win, pos + 2, e + 1);
        CollapsedPair(win, pos, r.value.0);
      } else {
        assert win.chars[pos - win.base..r.value.0 - win.base] == [];
      }
    } else {
      assert r == QuotedEnd(win, pos + 1, e);
      QuotedEndLength(win, pos + 1, e);
      CollapsedChar(win, pos, r.value.0);
    }
  }

  /** The value of a quoted field closed inside the window has
      Length() - 2 - escapes characters: the two quotes go, and each doubled
      quote becomes one quote. */
  lemma QuotedValueLength(win: Window, f: FieldRange)
    requires ClosedQuoted(win, f)
    ensures f.Within(win.base, win.MaxPos())
    ensures |FieldValue(win, f)| == f.Length() - 2 - f.escapes
  {
    QuotedEndLength(win, f.start + 1, 0);
    assert f.Length() - 2 > 0 ==>
             FieldValue(win, f) == (if f.escapes > 0 then Collapsed(win, f.start + 1, f.end)
                                    else win.chars[f.start + 1 - win.base..f.end - win.base]);
  }

  /** Each escape QuotedEnd counts stands for two characters before the
      position it stops at. */
  lemma {:induction false} QuotedEndEscapes(win: Window, pos: int, e: nat)
    requires win.base < pos <= win.MaxPos() && QuotedEnd(win, pos, e).Some?
    decreases win.MaxPos() - pos
    ensures var r := QuotedEnd(win, pos, e).value; 2 * (r.1 - e) <= r.0 - pos + 1
  {
    if pos < win.MaxPos() && win.At(pos) == '"' && pos + 1 < win.MaxPos() && win.At(pos + 1) == '"' {
      assert QuotedEnd(win, pos, e) == QuotedEnd(win, pos + 2, e + 1);
      QuotedEndEscapes(win, pos + 2, e + 1);
    } else if pos < win.MaxPos() && win.At(pos) != '"' {
      assert QuotedEnd(win, pos, e) == QuotedEnd(win, pos + 1, e);
      QuotedEndEscapes(win, pos + 1, e);
    }
  }

  /** A quoted field has fewer escapes than characters: each one is a
      doubled quote between the opening quote and the end. */
  lemma QuotedEscapesBound(win: Window, f: FieldRange)
    requires f.quoted && QuotedFrom(win, f)
    ensures 2 * f.escapes <= f.Length() - 1
  {
    QuotedEndEscapes(win, f.start + 1, 0);
  }

  /** What the scan keeps true of its fields: every quoted one is shaped by
      QuotedEnd; after a stray quote the field being read is not quoted; and
      an empty unquoted field has no escapes yet. */
  predicate Shaped(win: Window, s: ScanState)
  {
    && (forall i :: 0 <= i < |s.done| ==> QuotedFrom(win, s.done[i]))
    && QuotedFrom(win, s.cur)
    && (s.ignoreQuote ==> !s.cur.quoted)
    && (!s.cur.quoted && s.cur.Length() == 0 ==> s.cur.escapes == 0)
  }

  lemma StepShaped(win: Window, opt: Options, s: ScanState)
    requires opt.Valid() && win.base <= s.pos < win.MaxPos() && Placed(win.base, s) && Shaped(win, s)
    ensures var r := StepAt(win, opt, s);
      (r.Continue? ==> Shaped(win, r.state)) && (r.Ended? ==> QuotedFrom(win, s.cur))
  {
    var r := StepAt(win, opt, s);
    if r.Continue? {
      forall i | 0 <= i < |r.state.done| ensures QuotedFrom(win, r.state.done[i]) {
        if i < |s.done| {
          assert r.state.done[i] == s.done[i];
        }
      }
    }
  }

  /** Every quoted field the scanner reports is shaped by QuotedEnd. */
  lemma {:induction false} ScanFromShaped(win: Window, opt: Options, s: ScanState)
    requires opt.Valid() && win.base <= s.pos <= win.MaxPos() && Placed(win.base, s) && Shaped(win, s)
    requires ScanFrom(win, opt, s).Line?
    decreases win.MaxPos() - s.pos
    ensures var r := ScanFrom(win, opt, s);
      forall i :: 0 <= i < |r.fields| ==> QuotedFrom(win, r.fields[i])
  {
    var r := ScanFrom(win, opt, s);
    if s.pos < win.MaxPos() {
      StepPlaced(win, opt, s);
      StepShaped(win, opt, s);
      var st := StepAt(win, opt, s);
      if st.Continue? {
        ScanFromShaped(win, opt, st.state);
        return;
      }
    }
    assert r.fields == s.done + [s.cur];
    forall i | 0 <= i < |r.fields| ensures QuotedFrom(win, r.fields[i]) {
      if i < |s.done| {
        assert r.fields[i] == s.done[i];
      }
    }
  }

  lemma ScanShaped(win: Window, opt: Options)
    requires opt.Valid() && Scan(win, opt).Line?
    ensures var r := Scan(win, opt);
      forall i :: 0 <= i < |r.fields| ==> QuotedFrom(win, r.fields[i])
  {
    ScanFromShaped(win, opt, StartState(win.base));
  }
}
