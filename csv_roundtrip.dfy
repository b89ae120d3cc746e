/** What CsvReader reads back of what CsvWriter writes: with the default
    quote, a field the writer quotes is read back as the field under any
    delimiter, and a whole record under a one-character delimiter is read
    back field by field, quoted where the writer quoted, whatever ends the
    line. */
module RoundTrip {
  import opened CsvText
  import opened CsvScan
  import opened CsvScanProps
  import opened Writer

  /** A field that holds the character c contains the one-character string [c]. */
  lemma CharContained(f: string, k: int)
    requires 0 <= k < |f|
    ensures Contains(f, [f[k]])
  {
    assert f[k..k + 1] == [f[k]];
    assert OccursAt(f, [f[k]], k);
  }

  /** A field the writer leaves as it stands, with the default quote: no
      quote, no line break and no one-character delimiter d inside it, and
      no outer space. */
  lemma PlainField(f: string, cfg: Settings, d: char)
    requires cfg.delimiter == [d] && cfg.quote == "\"" && !ShouldQuote(f, cfg)
    ensures PlainText(f)
    ensures forall k :: 0 <= k < |f| ==> f[k] != d
    ensures Clean(f, true) == f
  {
    if |f| > 0 {
      EncodedPlain(f, cfg);
      forall k | 0 <= k < |f| ensures f[k] != '"' && f[k] != d {
        if f[k] == '"' || f[k] == d {
          CharContained(f, k);
        }
      }
    }
  }

  /** A field the writer quotes, with the default quote, whatever the
      delimiter: on a line of its own, Read finds that one field and its
      value is the field. */
  lemma QuotedFieldReadsBack(f: string, cfg: Settings, term: string, rest: string, base: int, eof: bool, opt: Options)
    requires |cfg.delimiter| > 0 && cfg.quote == "\"" && ShouldQuote(f, cfg)
    requires opt.Valid() && LineEnding(term, rest, eof)
    ensures Encoded(f, cfg).Some?
    ensures var win := Window(Encoded(f, cfg).value + term + rest, base, eof);
      var r := Scan(win, opt);
      && r.Line? && r.next == base + |Encoded(f, cfg).value| + |term| && |r.fields| == 1
      && r.fields[0].Within(base, win.MaxPos()) && FieldValue(win, r.fields[0]) == f
  {
    EncodedQuoted(f, cfg);
    ReadsQuotedLine(f, term, rest, base, eof, opt);
  }

  /** A text without the character d is Apart from whatever follows it
      under the delimiter [d]. */
  lemma ApartChar(x: string, follow: string, d: char)
    requires forall k :: 0 <= k < |x| ==> x[k] != d
    ensures Apart(x, follow, [d])
  {
    forall k | 0 <= k < |x| ensures !OccursAt(x + follow, [d], k) {
      assert (x + follow)[k] == x[k];
    }
  }

  /** The cell the writer makes of a field under the default quote: the
      field between quotes when it quotes it, the field as it stands otherwise. */
  function WrittenCell(f: string, cfg: Settings): (c: Cell)
    requires |cfg.delimiter| > 0 && cfg.quote == "\""
    ensures Encoded(f, cfg) == Some(CellText(c))
    ensures c.Quoted? <==> ShouldQuote(f, cfg)
  {
    if ShouldQuote(f, cfg) then
      EncodedQuoted(f, cfg);
      Quoted(f)
    else
      EncodedPlain(f, cfg);
      Bare(f)
  }

  /** The cells the writer makes of a record's fields, one per field. */
  function WrittenCells(fields: seq<string>, cfg: Settings): (cells: seq<Cell>)
    requires |cfg.delimiter| > 0 && cfg.quote == "\""
    ensures |cells| == |fields| && forall i :: 0 <= i < |fields| ==> cells[i] == WrittenCell(fields[i], cfg)
  {
    seq(|fields|, i requires 0 <= i < |fields| => WrittenCell(fields[i], cfg))
  }

  /** A written cell under a one-character delimiter d that is not a quote
      or a line break is one Read takes as one field, whatever follows it,
      and its value is the field, trimmed or not. */
  lemma WrittenCellOk(f: string, cfg: Settings, d: char, follow: string, trim: bool)
    requires cfg.delimiter == [d] && cfg.quote == "\"" && IsPlain(d)
    ensures CellOk(WrittenCell(f, cfg), follow, Options([d], trim))
    ensures CellValue(WrittenCell(f, cfg), trim) == f
  {
    if !ShouldQuote(f, cfg) {
      PlainField(f, cfg, d);
      ApartChar(f, follow, [d][0]);
      assert NoQuote(f) && NoBreak(f);
    }
  }

  /** A record of any fields, under the default quote and a one-character
      delimiter d that is not a quote or a line break: the writer emits each
      field as its written cell, and Read finds one field per field written,
      quoted exactly where the writer quoted, each with the value written,
      whether or not it trims fields, and the next line starts past the
      line's ending. */
  lemma RecordReadsBack(fields: seq<string>, cfg: Settings, d: char, term: string, rest: string,
                        base: int, eof: bool, trim: bool)
    requires |fields| > 0 && cfg.delimiter == [d] && cfg.quote == "\"" && IsPlain(d)
    requires LineEnding(term, rest, eof)
    ensures var texts := Texts(WrittenCells(fields, cfg));
      forall i :: 0 <= i < |fields| ==> Encoded(fields[i], cfg) == Some(texts[i])
    ensures var line := RecordText(Texts(WrittenCells(fields, cfg)), cfg.delimiter);
      var win := Window(line + term + rest, base, eof);
      var r := Scan(win, Options([d], trim));
      && r.Line? && r.next == base + |line| + |term| && |r.fields| == |fields|
      && forall i :: 0 <= i < |fields| ==>
           && r.fields[i].Within(base, win.MaxPos()) && (r.fields[i].quoted <==> ShouldQuote(fields[i], cfg))
           && FieldValue(win, r.fields[i]) == fields[i]
  {
    var cells, opt := WrittenCells(fields, cfg), Options([d], trim);
    forall i | 0 <= i < |cells|
      ensures CellOk(cells[i], Follow(i, |cells|, opt.delim), opt) && CellValue(cells[i], trim) == fields[i]
    {
      WrittenCellOk(fields[i], cfg, d, Follow(i, |cells|, opt.delim), trim);
    }
    assert PlainText(opt.delim) by {
      assert forall k :: 0 <= k < |opt.delim| ==> opt.delim[k] == d;
    }
    ReadsRecordLine(cells, term, rest, base, eof, opt);
  }
}
