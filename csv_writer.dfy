/** CsvWriter: each field is written as it stands, or quoted with its quote
    strings doubled; a delimiter goes before every field but the first of a
    record, and NextRecord ends the record with a line break. The quote
    decision and the escaping are pure functions of the field and the
    settings; the class appends what they give to its sink. */
module Writer {
  import opened CsvText

  /** What WriteField reads of the writer: Delimiter, QuoteString,
      QuoteAllFields and Trim. */
  datatype Settings = Settings(delimiter: string, quote: string, quoteAll: bool, trim: bool)

  /** quoteRequiredChars: the line breaks, and the delimiter itself when it
      is a single character (a longer delimiter is searched for as a whole). */
  function RequiredChars(delimiter: string): (r: seq<char>)
    requires |delimiter| > 0
    ensures '\r' in r && '\n' in r
    ensures forall c :: c in r <==> c == '\r' || c == '\n' || (|delimiter| == 1 && c == delimiter[0])
  {
    if |delimiter| > 1 then ['\r', '\n'] else ['\r', '\n', delimiter[0]]
  }

  /** String.IndexOfAny: the first index of s holding one of chars, or -1. */
  function IndexOfAny(s: string, chars: seq<char>): (r: int)
    decreases |s|
    ensures -1 <= r < |s|
    ensures r >= 0 ==> s[r] in chars && forall k :: 0 <= k < r ==> s[k] !in chars
    ensures r == -1 <==> forall k :: 0 <= k < |s| ==> s[k] !in chars
  {
    if |s| == 0 then -1
    else if s[0] in chars then 0
    else
      var i := IndexOfAny(s[1..], chars);
      assert forall k :: 0 < k < |s| ==> s[k] == s[1..][k - 1];
      if i == -1 then -1 else i + 1
  }

  /** The field WriteField works on: a null field is the empty string, and a
      non-empty one is trimmed when Trim is set. */
  function Prepared(field: Option<string>, trim: bool): string
  {
    match field
    case None => []
    case Some(s) => if |s| > 0 && trim then Trim(s) else s
  }

  /** WriteField's quote decision: every field under QuoteAllFields, and
      otherwise a non-empty field holding the quote string, starting or
      ending with a space, holding a line break, or holding the delimiter. */
  predicate ShouldQuote(f: string, cfg: Settings)
    requires |cfg.delimiter| > 0
  {
    || cfg.quoteAll
    || (&& |f| > 0
        && (|| Contains(f, cfg.quote)
            || f[0] == ' ' || f[|f| - 1] == ' '
            || IndexOfAny(f, RequiredChars(cfg.delimiter)) > -1
            || (|cfg.delimiter| > 1 && Contains(f, cfg.delimiter))))
  }

  /** The text WriteField emits for the prepared field f, without the
      delimiter before it: a quoted field is the quote string, f with every
      quote string doubled, and the quote string again. None when String.Replace
      would throw, which it does for an empty quote string. */
  function Encoded(f: string, cfg: Settings): (r: Option<string>)
    requires |cfg.delimiter| > 0
  {
    if ShouldQuote(f, cfg) then
      if |f| > 0 then
        if |cfg.quote| == 0 then None
        else Some(cfg.quote + Replace(f, cfg.quote, cfg.quote + cfg.quote) + cfg.quote)
      else Some(cfg.quote + cfg.quote)
    else Some(f)
  }

  /** A record's fields as they stand in the output: with the delimiter
      between each two of them, and nothing for a record without fields. */
  function RecordText(fields: seq<string>, delimiter: string): string
  {
    if |fields| == 0 then [] else Join(fields, delimiter)
  }

  /** Writing one more field adds the delimiter, unless it is the record's
      first, and then the field. */
  lemma RecordTextSnoc(fields: seq<string>, f: string, delimiter: string)
    ensures RecordText(fields + [f], delimiter)
      == RecordText(fields, delimiter) + (if |fields| > 0 then delimiter else []) + f
  {
    var fs := fields + [f];
    if |fields| == 0 {
      assert fs == [f];
    } else {
      assert fs[..|fs| - 1] == fields;
    }
  }

  /** With the default quote, a quoted field is its value with every quote
      doubled, between quotes. */
  lemma EncodedQuoted(f: string, cfg: Settings)
    requires |cfg.delimiter| > 0 && cfg.quote == "\"" && ShouldQuote(f, cfg)
    ensures Encoded(f, cfg) == Some("\"" + DoubleQuotes(f) + "\"")
  {
    ReplaceQuoteIsDoubleQuotes(f);
    assert cfg.quote + cfg.quote == "\"\"";
    if |f| == 0 {
      assert DoubleQuotes(f) == [];
      assert "\"" + DoubleQuotes(f) + "\"" == "\"\"";
    }
  }

  /** An empty field is two quote strings under QuoteAllFields, and nothing
      otherwise. */
  lemma EncodedEmpty(cfg: Settings)
    requires |cfg.delimiter| > 0
    ensures Encoded([], cfg) == Some(if cfg.quoteAll then cfg.quote + cfg.quote else [])
  {
  }

  /** A field written as it stands: it is the field itself, and it holds no
      line break, no quote string and no delimiter, and does not start or end
      with a space; conversely, a non-empty field with none of these is
      written as it stands unless QuoteAllFields is set. */
  lemma EncodedPlain(f: string, cfg: Settings)
    requires |cfg.delimiter| > 0
    ensures !ShouldQuote(f, cfg) ==> Encoded(f, cfg) == Some(f)
    ensures !ShouldQuote(f, cfg) && |f| > 0 ==>
      && !cfg.quoteAll && !Contains(f, cfg.quote) && !Contains(f, cfg.delimiter)
      && f[0] != ' ' && f[|f| - 1] != ' '
      && forall k :: 0 <= k < |f| ==> f[k] != '\r' && f[k] != '\n'
    ensures |f| > 0 && !cfg.quoteAll && !Contains(f, cfg.quote) && !Contains(f, cfg.delimiter)
      && f[0] != ' ' && f[|f| - 1] != ' ' && (forall k :: 0 <= k < |f| ==> f[k] != '\r' && f[k] != '\n')
      ==> !ShouldQuote(f, cfg)
  {
    var req := RequiredChars(cfg.delimiter);
    if |cfg.delimiter| == 1 && |f| > 0 {
      var d := cfg.delimiter[0];
      if IndexOfAny(f, req) == -1 {
        OneCharAbsent(f, cfg.delimiter);
      }
      if Contains(f, cfg.quote) == false && !Contains(f, cfg.delimiter) {
        forall k | 0 <= k < |f| ensures f[k] != d {
          assert f[k..k + 1] == cfg.delimiter ==> OccursAt(f, cfg.delimiter, k);
        }
      }
    }
  }

  /** A one-character delimiter that is no character of f does not occur in f. */
  lemma OneCharAbsent(f: string, delimiter: string)
    requires |delimiter| == 1 && forall k :: 0 <= k < |f| ==> f[k] != delimiter[0]
    ensures !Contains(f, delimiter)
  {

  }

  /** The TextWriter a CsvWriter writes to: what was written, and the
      NewLine text WriteLine emits. */
  class TextSink {
    var text: string
    const newLine: string

    constructor (newLine: string)
      ensures text == [] && this.newLine == newLine
    {
      text := [];
      this.newLine := newLine;
    }

    /** TextWriter.Write(string). */
    method Write(s: string)
      modifies this
      ensures text == old(text) + s
    {
      text := text + s;
    }

    /** TextWriter.WriteLine(). */
    method WriteLine()
      modifies this
      ensures text == old(text) + newLine
    {
      text := text + newLine;
    }
  }

  class CsvWriter {
    const wr: TextSink
    const delimiter: string
    const checkDelimForQuote: bool
    const quoteRequiredChars: seq<char>
    var quoteString: string
    var doubleQuoteString: string
    var quoteAllFields: bool
    var trim: bool
    var recordFieldCount: int
    /** The output of the records already ended, and the encoded fields of
        the current one. */
    ghost var done: string
    ghost var record: seq<string>

    ghost predicate Valid()
      reads this, wr
    {
      && |delimiter| > 0
      && checkDelimForQuote == (|delimiter| > 1)
      && quoteRequiredChars == RequiredChars(delimiter)
      && doubleQuoteString == quoteString + quoteString
      && recordFieldCount == |record|
      && wr.text == done + RecordText(record, delimiter)
    }

    /** The settings WriteField reads. */
    function Config(): (cfg: Settings)
      reads this
      ensures cfg.delimiter == delimiter && cfg.quote == quoteString
    {
      Settings(delimiter, quoteString, quoteAllFields, trim)
    }

    /** CsvWriter(wr, delimiter): the constructor indexes delimiter[0], so an
        empty delimiter is refused (see Create). */
    constructor (wr: TextSink, delimiter: string)
      requires |delimiter| > 0
      ensures Valid() && this.wr == wr && this.delimiter == delimiter
      ensures quoteString == "\"" && !quoteAllFields && !trim && recordFieldCount == 0
      ensures done == wr.text && record == []
    {
      this.wr := wr;
      this.delimiter := delimiter;
      checkDelimForQuote := |delimiter| > 1;
      quoteRequiredChars := if |delimiter| > 1 then ['\r', '\n'] else ['\r', '\n', delimiter[0]];
      quoteString := "\"";
      doubleQuoteString := "\"\"";
      quoteAllFields := false;
      trim := false;
      recordFieldCount := 0;
      done := wr.text;
      record := [];
    }

    /** CsvWriter(wr): a comma as the delimiter. */
    constructor Default(wr: TextSink)
      ensures Valid() && this.wr == wr && delimiter == ","
      ensures quoteString == "\"" && !quoteAllFields && !trim && recordFieldCount == 0
      ensures done == wr.text && record == []
    {
      this.wr := wr;
      delimiter := ",";
      checkDelimForQuote := false;
      quoteRequiredChars := ['\r', '\n', ','];
      quoteString := "\"";
      doubleQuoteString := "\"\"";
      quoteAllFields := false;
      trim := false;
      recordFieldCount := 0;
      done := wr.text;
      record := [];
    }

    /** The constructor, with the IndexOutOfRangeException it raises for an
        empty delimiter as None. */
    static method Create(wr: TextSink, delimiter: string) returns (r: Option<CsvWriter>)
      ensures r.None? <==> |delimiter| == 0
      ensures r.Some? ==> fresh(r.value) && r.value.Valid() && r.value.wr == wr && r.value.delimiter == delimiter
    {
      if |delimiter| == 0 {
        return None;
      }
      var w := new CsvWriter(wr, delimiter);
      return Some(w);
    }

    /** The QuoteString setter: the doubled quote string follows it. */
    method SetQuoteString(value: string)
      requires Valid()
      modifies this
      ensures Valid() && quoteString == value && doubleQuoteString == value + value
      ensures quoteAllFields == old(quoteAllFields) && trim == old(trim)
      ensures recordFieldCount == old(recordFieldCount) && done == old(done) && record == old(record)
    {
      quoteString := value;
      doubleQuoteString := value + value;
    }

    /** The first half of WriteField (its lines up to the quoting of the
        field): the field to emit, or false where String.Replace throws. */
    method Escape(field: Option<string>) returns (ok: bool, f: string)
      requires Valid()
      ensures var enc := Encoded(Prepared(field, trim), Config()); ok == enc.Some? && (ok ==> f == enc.value)
    {
      var shouldQuote;
      shouldQuote, f := Decide(field);
      if shouldQuote && |f| > 0 {
        if |quoteString| == 0 {
          return false, f;
        }
        f := Replace(f, quoteString, doubleQuoteString);
      }
      if shouldQuote {
        f := quoteString + f + quoteString;
      }
      return true, f;
    }

    /** WriteField's lines that prepare the field and decide whether it is
        quoted. */
    method Decide(field: Option<string>) returns (shouldQuote: bool, f: string)
      requires Valid()
      ensures f == Prepared(field, trim) && shouldQuote == ShouldQuote(f, Config())
    {
      shouldQuote := quoteAllFields;
      f := if field.None? then [] else field.value;
      if |f| > 0 && trim {
        f := Trim(f);
      }
      if |f| > 0 {
        if || shouldQuote || Contains(f, quoteString) || f[0] == ' ' || f[|f| - 1] == ' '
           || IndexOfAny(f, quoteRequiredChars) > -1 || (checkDelimForQuote && Contains(f, delimiter))
        {
          shouldQuote := true;
        }
      }
    }

    /** WriteField: the delimiter unless the field is the first of the
        record, then the field as Encoded gives it. ok is false where
        String.Replace throws (an empty quote string), and nothing is
        written then. */
    method WriteField(field: Option<string>) returns (ok: bool)
      requires Valid()
      modifies this, wr
      ensures Valid() && done == old(done) && Config() == old(Config())
      ensures var enc := Encoded(Prepared(field, trim), Config());
        && ok == enc.Some?
        && (ok ==> && wr.text == old(wr.text) + (if old(recordFieldCount) > 0 then delimiter else []) + enc.value
                   && record == old(record) + [enc.value] && recordFieldCount == old(recordFieldCount) + 1)
        && (!ok ==> wr.text == old(wr.text) && record == old(record) && recordFieldCount == old(recordFieldCount))
    {
      var escaped, f := Escape(field);
      if !escaped {
        return false;
      }
      Emit(f);
      return true;
    }

    /** The second half of WriteField: the delimiter unless this is the
        record's first field, then the field, and one more field counted. */
    method Emit(f: string)
      requires Valid()
      modifies this, wr
      ensures Valid() && done == old(done) && Config() == old(Config())
      ensures wr.text == old(wr.text) + (if old(recordFieldCount) > 0 then delimiter else []) + f
      ensures record == old(record) + [f] && recordFieldCount == old(recordFieldCount) + 1
    {
      ghost var text0 := wr.text;
      ghost var sep: string := if recordFieldCount > 0 then delimiter else [];
      RecordTextSnoc(record, f, delimiter);
      assert done + RecordText(record + [f], delimiter) == text0 + sep + f;
      if recordFieldCount > 0 {
        wr.Write(delimiter);
      } else {
        assert text0 + sep == text0;
      }
      assert wr.text == text0 + sep;
      if |f| > 0 {
        wr.Write(f);
      } else {
        assert wr.text == wr.text + f;
      }
      assert wr.text == text0 + sep + f;
      recordFieldCount := recordFieldCount + 1;
      record := record + [f];
    }

    /** NextRecord: one line break ends the record, and the next field is
        the first of a new one. */
    method NextRecord()
      requires Valid()
      modifies this, wr
      ensures Valid() && recordFieldCount == 0 && record == []
      ensures wr.text == old(wr.text) + wr.newLine && done == wr.text
      ensures quoteString == old(quoteString) && quoteAllFields == old(quoteAllFields) && trim == old(trim)
    {
      wr.WriteLine();
      recordFieldCount := 0;
      done := wr.text;
      record := [];
    }
  }

  /** The settings of a writer made with a comma and left as it is. */
  function DefaultSettings(): Settings
  {
    Settings(",", "\"", false, false)
  }

  /** A field with no quote, comma or line break and no outer space is
      written as it stands under the default settings. */
  lemma PlainUnderDefault(f: string)
    requires |f| > 0 && f[0] != ' ' && f[|f| - 1] != ' ' && IndexOfAny(f, "\",\r\n") == -1
    ensures Encoded(f, DefaultSettings()) == Some(f)
  {
    var cfg := DefaultSettings();
    assert forall k :: 0 <= k < |f| ==> f[k] !in "\",\r\n";
    OneCharAbsent(f, "\"");
    assert forall k :: 0 <= k < |f| ==> f[k] !in RequiredChars(cfg.delimiter);
  }

  /** A field without quotes that must be quoted is written between quotes. */
  lemma QuotedNoQuote(f: string, cfg: Settings)
    requires |cfg.delimiter| > 0 && cfg.quote == "\"" && ShouldQuote(f, cfg) && |f| > 0
    requires forall k :: 0 <= k < |f| ==> f[k] != '"'
    ensures Encoded(f, cfg) == Some("\"" + f + "\"")
  {
    OneCharAbsent(f, "\"");
    ReplaceAbsent(f, "\"", "\"\"");
    assert cfg.quote + cfg.quote == "\"\"";
  }

  /** A field without quotes that starts or ends with a space, or holds a
      comma or a line break at i, is quoted as it stands under the default
      settings. */
  lemma QuotedUnderDefault(f: string, i: int)
    requires 0 <= i < |f| && (f[0] == ' ' || f[|f| - 1] == ' ' || f[i] == ',' || f[i] == '\n' || f[i] == '\r')
    requires IndexOfAny(f, "\"") == -1
    ensures Encoded(f, DefaultSettings()) == Some("\"" + f + "\"")
  {
    var cfg := DefaultSettings();
    assert forall k :: 0 <= k < |f| ==> f[k] !in "\"";
    if f[i] == ',' || f[i] == '\n' || f[i] == '\r' {
      assert f[i] in RequiredChars(cfg.delimiter);
    }
    QuotedNoQuote(f, cfg);
  }

  /** A field with a quote at i is quoted with its quotes doubled under the
      default settings. */
  lemma DoubledUnderDefault(f: string, i: int)
    requires 0 <= i < |f| && f[i] == '"'
    ensures Encoded(f, DefaultSettings()) == Some("\"" + DoubleQuotes(f) + "\"")
  {
    assert f[i..i + 1] == "\"";
    assert OccursAt(f, "\"", i);
    EncodedQuoted(f, DefaultSettings());
  }

  /** The writer sample: five fields and a record end, then one field and a
      record end, written to an empty sink with a comma as the delimiter.
      Each quoted field is shown as its quotes around its text. */
  method WriterSample(newLine: string) returns (text: string)
    ensures text == "AAA" + "," + ("\"" + "A\"\"AA" + "\"") + "," + ("\"" + " AAA " + "\"")
      + "," + ("\"" + "Something, again" + "\"") + "," + ("\"" + "Something\nonce more" + "\"") + newLine
      + "Just one value" + newLine
  {
    var sink := new TextSink(newLine);
    var w := new CsvWriter.Default(sink);
    SampleChars();
    var f1, f2, f3, f4, f5, f6 := "AAA", "A\"AA", " AAA ", "Something, again", "Something\nonce more", "Just one value";
    SampleEncoded(f1, f2, f3, f4, f5, f6);
    SampleRecords(w, f1, f2, f3, f4, f5, f6,
      f1, "\"" + "A\"\"AA" + "\"", "\"" + f3 + "\"", "\"" + f4 + "\"", "\"" + f5 + "\"", f6);
    text := sink.text;
  }

  /** Which of the sample's fields hold a quote, a comma or a line break. */
  lemma SampleChars()
    ensures IndexOfAny("AAA", "\",\r\n") == -1 && IndexOfAny("Just one value", "\",\r\n") == -1
    ensures IndexOfAny(" AAA ", "\"") == -1 && IndexOfAny("Something, again", "\"") == -1
    ensures IndexOfAny("Something\nonce more", "\"") == -1
  {
    SampleCharsRaw();
    NoneOf("AAA", "\",\r\n");
    NoneOf("Just one value", "\",\r\n");
    NoneOf(" AAA ", "\"");
    NoneOf("Something, again", "\"");
    NoneOf("Something\nonce more", "\"");
  }

  /** SampleChars, character by character. */
  lemma SampleCharsRaw()
    ensures forall k :: 0 <= k < |"AAA"| ==> "AAA"[k] !in "\",\r\n"
    ensures forall k :: 0 <= k < |"Just one value"| ==> "Just one value"[k] !in "\",\r\n"
    ensures forall k :: 0 <= k < |" AAA "| ==> " AAA "[k] !in "\""
    ensures forall k :: 0 <= k < |"Something, again"| ==> "Something, again"[k] !in "\""
    ensures forall k :: 0 <= k < |"Something\nonce more"| ==> "Something\nonce more"[k] !in "\""
  {
  }

  /** IndexOfAny finds nothing where no character is one searched for. */
  lemma NoneOf(s: string, cs: seq<char>)
    requires forall k :: 0 <= k < |s| ==> s[k] !in cs
    ensures IndexOfAny(s, cs) == -1
  {
  }

  /** How the default settings encode each of the sample's fields. */
  lemma SampleEncoded(f1: string, f2: string, f3: string, f4: string, f5: string, f6: string)
    requires f1 == "AAA" && f2 == "A\"AA" && f3 == " AAA " && f4 == "Something, again"
    requires f5 == "Something\nonce more" && f6 == "Just one value"
    requires IndexOfAny(f1, "\",\r\n") == -1 && IndexOfAny(f6, "\",\r\n") == -1
    requires IndexOfAny(f3, "\"") == -1 && IndexOfAny(f4, "\"") == -1 && IndexOfAny(f5, "\"") == -1
    ensures Encoded(f1, DefaultSettings()) == Some(f1)
    ensures Encoded(f2, DefaultSettings()) == Some("\"" + "A\"\"AA" + "\"")
    ensures Encoded(f3, DefaultSettings()) == Some("\"" + f3 + "\"")
    ensures Encoded(f4, DefaultSettings()) == Some("\"" + f4 + "\"")
    ensures Encoded(f5, DefaultSettings()) == Some("\"" + f5 + "\"")
    ensures Encoded(f6, DefaultSettings()) == Some(f6)
  {
    SamplePlain(f1, f6);
    SampleDoubled(f2);
    SampleQuoted(f3, f4, f5);
  }

  /** The sample's fields written as they stand. */
  lemma SamplePlain(f1: string, f6: string)
    requires f1 == "AAA" && f6 == "Just one value"
    requires IndexOfAny(f1, "\",\r\n") == -1 && IndexOfAny(f6, "\",\r\n") == -1
    ensures Encoded(f1, DefaultSettings()) == Some(f1)
    ensures Encoded(f6, DefaultSettings()) == Some(f6)
  {
    SampleShapes();
    PlainUnderDefault(f1);
    PlainUnderDefault(f6);
  }

  /** The sample's fields quoted for a space, a comma or a line break. */
  lemma SampleQuoted(f3: string, f4: string, f5: string)
    requires f3 == " AAA " && f4 == "Something, again" && f5 == "Something\nonce more"
    requires IndexOfAny(f3, "\"") == -1 && IndexOfAny(f4, "\"") == -1 && IndexOfAny(f5, "\"") == -1
    ensures Encoded(f3, DefaultSettings()) == Some("\"" + f3 + "\"")
    ensures Encoded(f4, DefaultSettings()) == Some("\"" + f4 + "\"")
    ensures Encoded(f5, DefaultSettings()) == Some("\"" + f5 + "\"")
  {
    SampleShapes();
    QuotedUnderDefault(f3, 0);
    QuotedUnderDefault(f4, 9);
    QuotedUnderDefault(f5, 9);
  }

  /** The characters of the sample that decide how each field is written. */
  lemma SampleShapes()
    ensures |"AAA"| == 3 && "AAA"[0] == 'A' && "AAA"[2] == 'A'
    ensures |"Just one value"| == 14 && "Just one value"[0] == 'J' && "Just one value"[13] == 'e'
    ensures |" AAA "| == 5 && " AAA "[0] == ' '
    ensures |"Something, again"| == 16 && "Something, again"[9] == ','
    ensures |"Something\nonce more"| == 19 && "Something\nonce more"[9] == '\n'
  {
  }

  /** The sample's second field, with its one quote doubled. */
  lemma SampleDoubled(f: string)
    requires f == "A\"AA"
    ensures Encoded(f, DefaultSettings()) == Some("\"" + "A\"\"AA" + "\"")
  {
    DoubledUnderDefault(f, 1);
    assert DoubleQuotes(f) == "A\"\"AA" by {
      assert DoubleQuotes(f[3..]) == "A";
      assert DoubleQuotes(f[2..]) == "AA";
      assert DoubleQuotes(f[1..]) == "\"\"AA";
    }
  }

  /** The writer sample's calls on a fresh writer with a comma as the
      delimiter: fields f1 to f5, a record end, f6 and a record end, where
      ei is how the settings encode fi. */
  method SampleRecords(w: CsvWriter, f1: string, f2: string, f3: string, f4: string, f5: string, f6: string,
                       e1: string, e2: string, e3: string, e4: string, e5: string, e6: string)
    requires w.Valid() && w.Config() == DefaultSettings() && w.recordFieldCount == 0 && w.wr.text == []
    requires Encoded(f1, DefaultSettings()) == Some(e1) && Encoded(f2, DefaultSettings()) == Some(e2)
    requires Encoded(f3, DefaultSettings()) == Some(e3) && Encoded(f4, DefaultSettings()) == Some(e4)
    requires Encoded(f5, DefaultSettings()) == Some(e5) && Encoded(f6, DefaultSettings()) == Some(e6)
    modifies w, w.wr
    ensures w.wr.text == e1 + "," + e2 + "," + e3 + "," + e4 + "," + e5 + w.wr.newLine + e6 + w.wr.newLine
  {
    WriteEncoded(w, f1, e1);
    assert w.wr.text == e1;
    WriteEncoded(w, f2, e2);
    WriteEncoded(w, f3, e3);
    WriteEncoded(w, f4, e4);
    WriteEncoded(w, f5, e5);
    w.NextRecord();
    var t := w.wr.text;
    WriteEncoded(w, f6, e6);
    assert w.wr.text == t + e6;
    w.NextRecord();
  }

  /** WriteField of a field whose encoding e is known. */
  method WriteEncoded(w: CsvWriter, f: string, e: string)
    requires w.Valid() && w.Config() == DefaultSettings() && Encoded(f, DefaultSettings()) == Some(e)
    modifies w, w.wr
    ensures w.Valid() && w.Config() == DefaultSettings()
    ensures w.recordFieldCount == old(w.recordFieldCount) + 1
    ensures w.wr.text == old(w.wr.text) + (if old(w.recordFieldCount) > 0 then "," else "") + e
  {
    var ok := w.WriteField(Some(f));
  }
}
