/** Properties of the line scanner over all inputs: how a line ends, what a
    record of fields reads as field by field (and a line without quotes
    against a reference splitter), what a quote left open reads as, and when
    a line does not fit. */
module CsvScanProps {
  import opened CsvText
  import opened CsvScan


  /** The ways a line ends: "\n", "\r\n", a lone '\r' (not followed by
      '\n'), or the end of an exhausted input. */
  predicate LineEnding(term: string, rest: string, eof: bool)
  {
    || (term == "" && rest == "" && eof)
    || term == "\n" || term == "\r\n"
    || (term == "\r" && (|rest| == 0 || rest[0] != '\n'))
  }

  /** A line ends at linear position at and the next one starts at next. */
  predicate EndsAt(win: Window, at: int, next: int)
  {
    && win.base <= at <= win.MaxPos()
    && (at == win.MaxPos() ==> win.eof && next == at)
    && (at < win.MaxPos() ==>
          || (win.At(at) == '\n' && next == at + 1)
          || (win.At(at) == '\r' && next == if at + 1 < win.MaxPos() && win.At(at + 1) == '\n' then at + 2 else at + 1))
  }

  /** The line stands in the window from base on; each ending of a line
      ends it just before it, and the next line starts past it. */
  lemma LineEndingEnds(line: string, term: string, rest: string, base: int, eof: bool)
    requires LineEnding(term, rest, eof)
    ensures var win := Window(line + term + rest, base, eof);
      Holds(win, base, line) && EndsAt(win, base + |line|, base + |line| + |term|)
  {
    var win := Window(line + term + rest, base, eof);
    var at := base + |line|;
    forall m | 0 <= m < |line| ensures win.At(base + m) == line[m] {
      assert win.chars[m] == line[m];
    }
    if term != "" {
      assert win.At(at) == term[0];
      if |term| == 2 {
        assert win.At(at + 1) == '\n';
      } else if at + 1 < win.MaxPos() {
        assert win.At(at + 1) == rest[0];
      }
    }
  }

  /** Neither a quote nor a line break. */
  predicate IsPlain(c: char)
  {
    c != '"' && c != '\r' && c != '\n'
  }

  /** No quote and no line break: a line Read splits on the delimiter alone. */
  predicate PlainText(s: string)
  {
    forall k :: 0 <= k < |s| ==> IsPlain(s[k])
  }

  /** No line break. */
  predicate NoBreak(s: string)
  {
    forall k :: 0 <= k < |s| ==> s[k] != '\r' && s[k] != '\n'
  }

  /** No quote. */
  predicate NoQuote(s: string)
  {
    forall k :: 0 <= k < |s| ==> s[k] != '"'
  }

  /** The reference splitter: the parts of s between the occurrences of the
      delimiter D, found from left to right without overlap. */
  function Split(s: string, D: string): (parts: seq<string>)
    requires |D| > 0
    decreases |s|
    ensures |parts| > 0
  {
    if |s| == 0 then [""]
    else if |D| <= |s| && s[..|D|] == D then [""] + Split(s[|D|..], D)
    else var r := Split(s[1..], D); [[s[0]] + r[0]] + r[1..]
  }

  /** A character added in front of the first part is added in front of the join. */
  lemma JoinFirst(c: char, r: seq<string>, D: string)
    requires |r| > 0
    ensures Join([[c] + r[0]] + r[1..], D) == [c] + Join(r, D)
  {
    if |r| == 1 {
      assert [[c] + r[0]] + r[1..] == [[c] + r[0]];
    } else {
      assert r == [r[0]] + r[1..];
      JoinCons([c] + r[0], r[1..], D);
      JoinCons(r[0], r[1..], D);
    }
  }

  /** The splitter loses nothing: joining its parts with D gives s back. */
  lemma {:induction false} SplitJoin(s: string, D: string)
    requires |D| > 0
    decreases |s|
    ensures Join(Split(s, D), D) == s
  {
    if |s| > 0 {
      if |D| <= |s| && s[..|D|] == D {
        SplitJoin(s[|D|..], D);
        JoinCons("", Split(s[|D|..], D), D);
        assert s == D + s[|D|..];
      } else {
        SplitJoin(s[1..], D);
        JoinFirst(s[0], Split(s[1..], D), D);
        assert s == [s[0]] + s[1..];
      }
    }
  }

  /** No occurrence of D starts inside x, when follow comes after x. */
  predicate Apart(x: string, follow: string, D: string)
  {
    forall k :: 0 <= k < |x| ==> !OccursAt(x + follow, D, k)
  }

  /** What comes after part i of n in a line, up to the next part: the
      delimiter, or nothing after the last part. */
  function Follow(i: int, n: int, D: string): string
  {
    if i < n - 1 then D else []
  }

  /** Every part is Apart from what follows it in the line. */
  predicate PartsApart(parts: seq<string>, D: string)
  {
    forall i :: 0 <= i < |parts| ==> Apart(parts[i], Follow(i, |parts|, D), D)
  }

  /** Every part holds no quote and no line break. */
  predicate PartsPlain(parts: seq<string>)
  {
    forall i :: 0 <= i < |parts| ==> PlainText(parts[i])
  }

  /** Apart grows by a character in front that does not start D. */
  lemma ApartCons(c: char, y: string, follow: string, D: string)
    requires Apart(y, follow, D) && !OccursAt([c] + y + follow, D, 0)
    ensures Apart([c] + y, follow, D)
  {
    var x := [c] + y;
    forall k | 0 <= k < |x| ensures !OccursAt(x + follow, D, k) {
      if k > 0 && k + |D| <= |x + follow| {
        assert (x + follow)[k..k + |D|] == (y + follow)[k - 1..k - 1 + |D|];
        assert !OccursAt(y + follow, D, k - 1);
      }
    }
  }

  /** The first part of the splitter, then what comes after it, start s. */
  lemma SplitFront(s: string, D: string)
    requires |D| > 0
    ensures var parts := Split(s, D);
      |parts[0] + Follow(0, |parts|, D)| <= |s| && s[..|parts[0] + Follow(0, |parts|, D)|] == parts[0] + Follow(0, |parts|, D)
  {
    var parts := Split(s, D);
    SplitJoin(s, D);
    if |parts| > 1 {
      assert parts == [parts[0]] + parts[1..];
      JoinCons(parts[0], parts[1..], D);
    }
  }

  /** The first part of the splitter, x = [c] + y, when s does not start
      with D: no occurrence of D starts at x's front, since x and what
      follows it open s. */
  lemma FirstApart(c: char, y: string, follow: string, s: string, D: string)
    requires |[c] + y + follow| <= |s| && s[..|[c] + y + follow|] == [c] + y + follow
    requires !(|D| <= |s| && s[..|D|] == D) && Apart(y, follow, D)
    ensures Apart([c] + y, follow, D)
  {
    var t := [c] + y + follow;
    assert !OccursAt(t, D, 0) by {
      assert |D| <= |t| ==> t[..|D|] == s[..|D|];
    }
    ApartCons(c, y, follow, D);
  }

  /** Every part of the splitter is Apart: no occurrence of D starts inside
      it, up to the delimiter after it. */
  lemma {:induction false} SplitApart(s: string, D: string)
    requires |D| > 0
    decreases |s|
    ensures PartsApart(Split(s, D), D)
  {
    var parts := Split(s, D);
    if |s| > 0 {
      if |D| <= |s| && s[..|D|] == D {
        var r := Split(s[|D|..], D);
        SplitApart(s[|D|..], D);
        assert parts == [""] + r;
        forall i | 0 <= i < |parts| ensures Apart(parts[i], Follow(i, |parts|, D), D) {
          if i > 0 {
            assert parts[i] == r[i - 1] && Follow(i, |parts|, D) == Follow(i - 1, |r|, D);
            assert Apart(r[i - 1], Follow(i - 1, |r|, D), D);
          }
        }
      } else {
        var r := Split(s[1..], D);
        SplitApart(s[1..], D);
        assert |parts| == |r| && parts[0] == [s[0]] + r[0];
        assert Apart(r[0], Follow(0, |r|, D), D);
        SplitFront(s, D);
        FirstApart(s[0], r[0], Follow(0, |r|, D), s, D);
        forall i | 0 <= i < |parts| ensures Apart(parts[i], Follow(i, |parts|, D), D) {
          if i > 0 {
            assert parts[i] == r[i] && Apart(r[i], Follow(i, |r|, D), D);
          }
        }
      }
    }
  }

  /** The parts of a line without quotes or line breaks have none either. */
  lemma {:induction false} SplitPlain(s: string, D: string)
    requires |D| > 0 && PlainText(s)
    decreases |s|
    ensures PartsPlain(Split(s, D))
  {
    var parts := Split(s, D);
    if |s| > 0 {
      if |D| <= |s| && s[..|D|] == D {
        var r := Split(s[|D|..], D);
        assert PlainText(s[|D|..]) by {
          forall k | 0 <= k < |s[|D|..]| ensures IsPlain(s[|D|..][k]) {
            assert s[|D|..][k] == s[k + |D|];
          }
        }
        SplitPlain(s[|D|..], D);
        assert parts == [""] + r;
        forall i | 0 < i < |parts| ensures PlainText(parts[i]) {
          assert parts[i] == r[i - 1] && PlainText(r[i - 1]);
        }
      } else {
        var r := Split(s[1..], D);
        assert PlainText(s[1..]) by {
          forall k | 0 <= k < |s[1..]| ensures IsPlain(s[1..][k]) {
            assert s[1..][k] == s[k + 1];
          }
        }
        SplitPlain(s[1..], D);
        assert PlainText(r[0]);
        assert PlainText([s[0]] + r[0]) by {
          forall k | 0 <= k < |[s[0]] + r[0]| ensures IsPlain(([s[0]] + r[0])[k]) {
            if k > 0 {
              assert ([s[0]] + r[0])[k] == r[0][k - 1] && IsPlain(r[0][k - 1]);
            } else {
              assert IsPlain(s[0]);
            }
          }
        }
        forall i | 0 < i < |parts| ensures PlainText(parts[i]) {
          assert parts[i] == r[i] && PlainText(r[i]);
        }
      }
    }
  }

  /** A character the scanner leaves out of values: a space, when fields
      are trimmed. */
  predicate Dropped(c: char, trim: bool)
  {
    trim && c == ' '
  }

  /** s without the spaces at either end. */
  function StripSpaces(s: string): (r: string)
    decreases |s|
  {
    if |s| > 0 && s[0] == ' ' then StripSpaces(s[1..])
    else if |s| > 0 && s[|s| - 1] == ' ' then StripSpaces(s[..|s| - 1])
    else s
  }

  /** A part as Read gives it: without its outer spaces when fields are trimmed. */
  function Clean(s: string, trim: bool): string
  {
    if trim then StripSpaces(s) else s
  }

  lemma {:induction false} StripAllSpaces(s: string)
    requires forall k :: 0 <= k < |s| ==> s[k] == ' '
    decreases |s|
    ensures StripSpaces(s) == []
  {
    if |s| > 0 {
      StripAllSpaces(s[1..]);
    }
  }

  /** Stripping s, which has only spaces before i and after j, leaves s[i..j]. */
  lemma {:induction false} StripShape(s: string, i: int, j: int)
    requires 0 <= i <= j < |s| && s[i] != ' ' && s[j] != ' '
    requires forall k :: 0 <= k < i ==> s[k] == ' '
    requires forall k :: j < k < |s| ==> s[k] == ' '
    decreases |s|
    ensures StripSpaces(s) == s[i..j + 1]
  {
    if i > 0 {
      assert s[0] == ' ';
      StripShape(s[1..], i - 1, j - 1);
      assert s[1..][i - 1..j] == s[i..j + 1];
    } else if j < |s| - 1 {
      assert s[|s| - 1] == ' ';
      StripShape(s[..|s| - 1], i, j);
      assert s[..|s| - 1][i..j + 1] == s[i..j + 1];
    } else {
      assert s[i..j + 1] == s;
    }
  }

  /** The characters a field covers in the window. */
  function Text(win: Window, f: FieldRange): string
    requires f.Within(win.base, win.MaxPos())
  {
    win.chars[f.start - win.base..f.end + 1 - win.base]
  }

  /** The field being read in the part that began at s0: empty while only
      dropped characters were met, and otherwise running from the first to
      the last character kept. */
  predicate Shape(win: Window, cur: FieldRange, s0: int, p: int, trim: bool)
    requires win.base <= s0 <= p <= win.MaxPos()
  {
    && !cur.quoted
    && (cur.Length() == 0 ==> cur == EmptyField(s0) && forall k :: s0 <= k < p ==> Dropped(win.At(k), trim))
    && (cur.Length() != 0 ==>
          && s0 <= cur.start <= cur.end < p
          && !Dropped(win.At(cur.start), trim) && !Dropped(win.At(cur.end), trim)
          && (forall k :: s0 <= k < cur.start ==> Dropped(win.At(k), trim))
          && (forall k :: cur.end < k < p ==> Dropped(win.At(k), trim)))
  }

  /** Dropped characters of the window between a and b are spaces of the
      segment that begins at s0. */
  lemma SegmentSpaces(win: Window, s0: int, p: int, a: int, b: int, trim: bool, seg: string)
    requires win.base <= s0 <= a <= b <= p <= win.MaxPos() && seg == win.chars[s0 - win.base..p - win.base]
    requires forall k :: a <= k < b ==> Dropped(win.At(k), trim)
    ensures forall k :: a - s0 <= k < b - s0 ==> seg[k] == ' '
  {
    forall k | a - s0 <= k < b - s0 ensures seg[k] == ' ' {
      assert Dropped(win.At(s0 + k), trim);
    }
  }

  /** ShapeValue for a field of which nothing was kept. */
  lemma ShapeValueEmpty(win: Window, cur: FieldRange, s0: int, p: int, trim: bool)
    requires win.base <= s0 <= p <= win.MaxPos() && Shape(win, cur, s0, p, trim) && cur.Length() == 0
    ensures cur.Within(win.base, p) && Text(win, cur) == Clean(win.chars[s0 - win.base..p - win.base], trim)
  {
    var seg := win.chars[s0 - win.base..p - win.base];
    if trim {
      SegmentSpaces(win, s0, p, s0, p, trim, seg);
      StripAllSpaces(seg);
    } else {
      assert s0 < p ==> Dropped(win.At(s0), trim);
    }
  }

  /** A slice of a slice is a slice. */
  lemma SliceOfSlice(s: string, a: int, b: int, i: int, j: int, lo: int, hi: int)
    requires 0 <= a <= b <= |s| && 0 <= i <= j <= b - a && lo == a + i && hi == a + j
    ensures s[a..b][i..j] == s[lo..hi]
  {
    forall k | 0 <= k < hi - lo ensures s[a..b][i..j][k] == s[lo..hi][k] {
      assert s[a..b][i..j][k] == s[a..b][i + k];
    }
  }

  /** A kept field's characters are its part of the segment that begins at s0. */
  lemma TextInSegment(win: Window, cur: FieldRange, s0: int, p: int, seg: string)
    requires win.base <= s0 <= cur.start <= cur.end < p <= win.MaxPos()
    requires seg == win.chars[s0 - win.base..p - win.base]
    ensures Text(win, cur) == seg[cur.start - s0..cur.end - s0 + 1]
  {
    SliceOfSlice(win.chars, s0 - win.base, p - win.base, cur.start - s0, cur.end - s0 + 1,
                 cur.start - win.base, cur.end + 1 - win.base);
  }

  /** ShapeValue for a kept field whose spaces are trimmed around it. */
  lemma ShapeValueTrim(win: Window, cur: FieldRange, s0: int, p: int, seg: string)
    requires win.base <= s0 <= cur.start <= cur.end < p <= win.MaxPos()
    requires seg == win.chars[s0 - win.base..p - win.base]
    requires forall k :: 0 <= k < cur.start - s0 ==> seg[k] == ' '
    requires forall k :: cur.end - s0 < k < |seg| ==> seg[k] == ' '
    requires seg[cur.start - s0] != ' ' && seg[cur.end - s0] != ' '
    ensures Text(win, cur) == StripSpaces(seg)
  {
    var i, j := cur.start - s0, cur.end - s0;
    StripShape(seg, i, j);
    TextInSegment(win, cur, s0, p, seg);
    assert Text(win, cur) == seg[i..j + 1];
  }

  /** The value of the field being read is the part read so far, cleaned. */
  lemma ShapeValue(win: Window, cur: FieldRange, s0: int, p: int, trim: bool)
    requires win.base <= s0 <= p <= win.MaxPos() && Shape(win, cur, s0, p, trim)
    ensures cur.Within(win.base, p) && Text(win, cur) == Clean(win.chars[s0 - win.base..p - win.base], trim)
  {
    if cur.Length() == 0 {
      ShapeValueEmpty(win, cur, s0, p, trim);
    } else if trim {
      var seg := win.chars[s0 - win.base..p - win.base];
      SegmentSpaces(win, s0, p, s0, cur.start, true, seg);
      SegmentSpaces(win, s0, p, cur.end + 1, p, true, seg);
      assert seg[cur.start - s0] == win.At(cur.start) && seg[cur.end - s0] == win.At(cur.end);
      ShapeValueTrim(win, cur, s0, p, seg);
    } else {
      assert s0 < cur.start ==> Dropped(win.At(s0), trim);
      assert cur.end < p - 1 ==> Dropped(win.At(p - 1), trim);
    }
  }

  /** The escaped text of v, closing quote included, is the escaped first
      character of v (k characters) followed by the escaped text of the rest. */
  lemma EscapedCons(v: string)
    requires |v| > 0
    ensures var t, t' := DoubleQuotes(v) + "\"", DoubleQuotes(v[1..]) + "\"";
      var k := if v[0] == '"' then 2 else 1;
      && |DoubleQuotes(v)| == k + |DoubleQuotes(v[1..])| && t[k..] == t' && t[0] == v[0] && (v[0] == '"' ==> t[1] == '"')
      && CountChar(v, '"') == k - 1 + CountChar(v[1..], '"')
  {
    var t, t' := DoubleQuotes(v) + "\"", DoubleQuotes(v[1..]) + "\"";
    if v[0] == '"' {
      assert t == "\"\"" + t';
    } else {
      assert t == [v[0]] + t';
    }
  }

  /** A doubled quote at pos is skipped and counted. */
  lemma QuotedEndPair(win: Window, pos: int, e: nat)
    requires win.base < pos && pos + 1 < win.MaxPos() && win.At(pos) == '"' && win.At(pos + 1) == '"'
    ensures QuotedEnd(win, pos, e) == QuotedEnd(win, pos + 2, e + 1)
  {
  }

  /** Any other character at pos is skipped. */
  lemma QuotedEndOther(win: Window, pos: int, e: nat)
    requires win.base < pos < win.MaxPos() && win.At(pos) != '"'
    ensures QuotedEnd(win, pos, e) == QuotedEnd(win, pos + 1, e)
  {
  }

  /** A quote at pos not followed, at at, by another closes the field there. */
  lemma QuotedEndClose(win: Window, pos: int, e: nat, at: int)
    requires win.base < pos < win.MaxPos() && win.At(pos) == '"'
    requires at == pos + 1 && (at < win.MaxPos() ==> win.At(at) != '"')
    ensures QuotedEnd(win, pos, e) == Some((pos, e))
  {
  }

  /** t stands in the window from pos on. */
  predicate Holds(win: Window, pos: int, t: string)
  {
    win.base <= pos && pos + |t| <= win.MaxPos() && forall m :: 0 <= m < |t| ==> win.At(pos + m) == t[m]
  }

  /** What follows the first k characters of t holds k later. */
  lemma HoldsDrop(win: Window, pos: int, t: string, k: int, t': string)
    requires Holds(win, pos, t) && 0 <= k <= |t| && t' == t[k..]
    ensures Holds(win, pos + k, t')
  {
    forall m | 0 <= m < |t'| ensures win.At(pos + k + m) == t'[m] {
      assert win.At(pos + (k + m)) == t[k + m];
    }
  }

  /** The first k characters of t hold where t does. */
  lemma HoldsTake(win: Window, pos: int, t: string, k: int, t': string)
    requires Holds(win, pos, t) && 0 <= k <= |t| && t' == t[..k]
    ensures Holds(win, pos, t')
  {
    forall m | 0 <= m < |t'| ensures win.At(pos + m) == t'[m] {
      assert win.At(pos + m) == t[m];
    }
  }

  /** The characters where t holds are t. */
  lemma HoldsSlice(win: Window, pos: int, t: string)
    requires Holds(win, pos, t)
    ensures win.chars[pos - win.base..pos - win.base + |t|] == t
  {
    forall m | 0 <= m < |t| ensures win.chars[pos - win.base..pos - win.base + |t|][m] == t[m] {
      assert win.At(pos + m) == t[m];
    }
  }

  /** ReadQuotedFieldToEnd over a value with its quotes doubled and a closing
      quote not followed, at at, by another: it stops on that closing quote
      and counts one escape per quote of the value. */
  lemma {:induction false} QuotedEndDoubled(win: Window, pos: int, e: nat, v: string, at: int)
    requires win.base < pos && Holds(win, pos, DoubleQuotes(v) + "\"")
    requires at == pos + |DoubleQuotes(v)| + 1 && (at < win.MaxPos() ==> win.At(at) != '"')
    decreases |v|
    ensures QuotedEnd(win, pos, e) == Some((at - 1, e + CountChar(v, '"')))
  {
    if |v| == 0 {
      QuotedEndEmpty(win, pos, e, v, at);
    } else {
      EscapedCons(v);
      var k := if v[0] == '"' then 2 else 1;
      HoldsDrop(win, pos, DoubleQuotes(v) + "\"", k, DoubleQuotes(v[1..]) + "\"");
      QuotedEndDoubled(win, pos + k, e + k - 1, v[1..], at);
      QuotedEndFirst(win, pos, e, v, k, at);
    }
  }

  /** The step of QuotedEndDoubled past the first character of v. */
  lemma QuotedEndFirst(win: Window, pos: int, e: nat, v: string, k: int, at: int)
    requires |v| > 0 && win.base < pos && Holds(win, pos, DoubleQuotes(v) + "\"")
    requires k == if v[0] == '"' then 2 else 1
    requires e + k - 1 >= 0 && QuotedEnd(win, pos + k, e + k - 1) == Some((at - 1, e + k - 1 + CountChar(v[1..], '"')))
    ensures QuotedEnd(win, pos, e) == Some((at - 1, e + CountChar(v, '"')))
  {
    var t := DoubleQuotes(v) + "\"";
    EscapedCons(v);
    assert win.At(pos + 0) == t[0];
    if v[0] == '"' {
      assert win.At(pos + 1) == t[1];
      QuotedEndPair(win, pos, e);
    } else {
      QuotedEndOther(win, pos, e);
    }
  }

  /** QuotedEndDoubled when v is empty: the closing quote is at pos. */
  lemma QuotedEndEmpty(win: Window, pos: int, e: nat, v: string, at: int)
    requires |v| == 0 && win.base < pos && Holds(win, pos, DoubleQuotes(v) + "\"")
    requires at == pos + |DoubleQuotes(v)| + 1 && (at < win.MaxPos() ==> win.At(at) != '"')
    ensures QuotedEnd(win, pos, e) == Some((at - 1, e + CountChar(v, '"')))
  {
    assert DoubleQuotes(v) == [];
    assert win.At(pos + 0) == (DoubleQuotes(v) + "\"")[0];
    QuotedEndClose(win, pos, e, at);
  }

  /** A quoted field's inner characters are the doubled value: its value is the value. */
  lemma QuotedValue(win: Window, f: FieldRange, v: string)
    requires f.quoted && f.Within(win.base, win.MaxPos()) && f.escapes == CountChar(v, '"')
    requires f.Length() == |DoubleQuotes(v)| + 2
    requires win.chars[f.start + 1 - win.base..f.end - win.base] == DoubleQuotes(v)
    ensures FieldValue(win, f) == v
  {
    QuotedInner(win, f);
    Unescape(win.chars[f.start + 1 - win.base..f.end - win.base], v, f.escapes);
  }

  /** The value of a quoted field is its inner characters, with each doubled
      quote collapsed when it has escapes. */
  lemma QuotedInner(win: Window, f: FieldRange)
    requires f.quoted && f.Within(win.base, win.MaxPos()) && f.Length() >= 2
    ensures var inner := win.chars[f.start + 1 - win.base..f.end - win.base];
      FieldValue(win, f) == if f.escapes > 0 then Replace(inner, "\"\"", "\"") else inner
  {
    var lo, hi := f.start - win.base, f.end + 1 - win.base;
    if f.Length() == 2 {
      assert win.chars[lo + 1..hi - 1] == [];
    }
  }

  /** Collapsing the doubled quotes of a value with its quotes doubled gives
      the value back; without quotes there is nothing to collapse. */
  lemma Unescape(inner: string, v: string, n: nat)
    requires inner == DoubleQuotes(v) && n == CountChar(v, '"')
    ensures (if n > 0 then Replace(inner, "\"\"", "\"") else inner) == v
  {
    if n > 0 {
      ReplaceUndoesDoubleQuotes(v);
    } else {
      DoubleQuotesNoQuote(v);
    }
  }

  /** A field as it stands in a line: text read as it stands (Bare), a value
      between quotes with each of its quotes doubled (Quoted), or such a
      quoted value with more text after its closing quote (QuotedThen). */
  datatype Cell = Bare(text: string) | Quoted(value: string) | QuotedThen(value: string, after: string)

  /** A value between quotes, each of its quotes doubled. */
  function QuotedText(v: string): (t: string)
    ensures |t| == |DoubleQuotes(v)| + 2
  {
    "\"" + DoubleQuotes(v) + "\""
  }

  /** The characters of a cell in the line. */
  function CellText(c: Cell): string
  {
    match c
    case Bare(x) => x
    case Quoted(v) => QuotedText(v)
    case QuotedThen(v, w) => QuotedText(v) + w
  }

  /** The value Read gives a cell: a quoted value is the value; any other
      cell is its characters as they stand, quotes included, without its
      outer spaces when fields are trimmed. */
  function CellValue(c: Cell, trim: bool): string
  {
    match c
    case Quoted(v) => v
    case _ => Clean(CellText(c), trim)
  }

  /** Read takes c, with follow after it, as one field: no line break and no
      delimiter inside the text read outside quotes, and a bare text that
      holds a quote, or the text after a closing quote, starts with a
      character that is kept and is no quote (a quote that opens a field,
      after nothing but dropped spaces, would open a quoted field instead). */
  predicate CellOk(c: Cell, follow: string, opt: Options)
  {
    match c
    case Bare(x) =>
      NoBreak(x) && Apart(x, follow, opt.delim) && (NoQuote(x) || (|x| > 0 && x[0] != '"' && !Dropped(x[0], opt.trim)))
    case Quoted(_) => true
    case QuotedThen(_, w) =>
      |w| > 0 && w[0] != '"' && !Dropped(w[0], opt.trim) && NoBreak(w) && Apart(w, follow, opt.delim)
  }

  /** Each cell of a line is one field, with the delimiter after it, or
      nothing after the last. */
  predicate CellsOk(cells: seq<Cell>, opt: Options)
  {
    forall i :: 0 <= i < |cells| ==> CellOk(cells[i], Follow(i, |cells|, opt.delim), opt)
  }

  /** The texts of the cells. */
  function Texts(cells: seq<Cell>): (ts: seq<string>)
    ensures |ts| == |cells| && forall i :: 0 <= i < |cells| ==> ts[i] == CellText(cells[i])
  {
    if |cells| == 0 then [] else [CellText(cells[0])] + Texts(cells[1..])
  }

  /** A field begins at s.pos: nothing of it read yet, quotes not ignored. */
  predicate FieldStart(s: ScanState)
  {
    s.cur == EmptyField(s.pos) && !s.ignoreQuote
  }

  /** The character at p is text of a bare field for Read: no line break,
      and no delimiter starts there. */
  predicate InText(win: Window, opt: Options, p: int)
    requires win.base <= p < win.MaxPos()
  {
    win.At(p) != '\r' && win.At(p) != '\n' && !DelimAt(win, p, opt.delim)
  }

  /** One character of bare text in the part that began at a: a quote once
      something is kept (content, and later quotes are content too), a
      dropped space, or any other content. The field keeps its shape, and
      once something is kept it stays kept. */
  lemma BareStep(win: Window, opt: Options, s: ScanState, a: int) returns (t: ScanState)
    requires opt.Valid() && win.base <= a <= s.pos < win.MaxPos() && InText(win, opt, s.pos)
    requires Shape(win, s.cur, a, s.pos, opt.trim) && (s.ignoreQuote ==> s.cur.Length() > 0)
    requires win.At(s.pos) == '"' ==> s.cur.Length() > 0
    ensures StepAt(win, opt, s) == Continue(t) && t.pos == s.pos + 1 && t.done == s.done
    ensures Shape(win, t.cur, a, t.pos, opt.trim) && (t.ignoreQuote ==> t.cur.Length() > 0)
    ensures s.cur.Length() > 0 || !Dropped(win.At(s.pos), opt.trim) ==> t.cur.Length() > 0
  {
    var p, ch := s.pos, win.At(s.pos);
    if ch == '"' {
      if s.ignoreQuote {
        t := s.(pos := p + 1, cur := s.cur.(end := p));
      } else {
        t := s.(pos := p + 1, cur := s.cur.(end := p, quoted := false), ignoreQuote := true);
      }
    } else if Dropped(ch, opt.trim) {
      t := s.(pos := p + 1);
    } else {
      var c := if s.cur.Length() == 0 then s.cur.(start := p) else s.cur;
      t := ScanState(p + 1, s.done, c.(end := p, quoted := false), s.ignoreQuote || c.quoted);
    }
  }

  /** Bare text from s.pos up to end: the scan reaches end with no field
      closed, and the field keeps its shape. */
  lemma {:induction false} BareRun(win: Window, opt: Options, s: ScanState, a: int, end: int) returns (t: ScanState)
    requires opt.Valid() && win.base <= a <= s.pos <= end <= win.MaxPos()
    requires Shape(win, s.cur, a, s.pos, opt.trim) && (s.ignoreQuote ==> s.cur.Length() > 0)
    requires forall p :: s.pos <= p < end ==> InText(win, opt, p)
    requires s.cur.Length() > 0 || forall p :: s.pos <= p < end ==> win.At(p) != '"'
    decreases end - s.pos
    ensures t.pos == end && t.done == s.done && Shape(win, t.cur, a, end, opt.trim)
    ensures ScanFrom(win, opt, s) == ScanFrom(win, opt, t)
  {
    if s.pos == end {
      t := s;
    } else {
      var u := BareStep(win, opt, s, a);
      t := BareRun(win, opt, u, a, end);
    }
  }

  /** At a delimiter that starts with neither a quote nor a line break, the
      field being read is closed and the next begins past the delimiter. */
  lemma PastDelim(win: Window, opt: Options, s: ScanState) returns (u: ScanState)
    requires opt.Valid() && IsPlain(opt.delim[0]) && DelimAt(win, s.pos, opt.delim)
    ensures u == ScanState(s.pos + |opt.delim|, s.done + [s.cur], EmptyField(s.pos + |opt.delim|), false)
    ensures win.base <= u.pos <= win.MaxPos() && ScanFrom(win, opt, s) == ScanFrom(win, opt, u)
  {
    DelimAtChar(win, s.pos, opt.delim, 0);
    u := ScanState(s.pos + |opt.delim|, s.done + [s.cur], EmptyField(s.pos + |opt.delim|), false);
  }

  /** Where the line ends, the scan closes the field being read. */
  lemma ScanAtEnd(win: Window, opt: Options, s: ScanState, next: int)
    requires opt.Valid() && EndsAt(win, s.pos, next)
    ensures ScanFrom(win, opt, s) == Line(s.done + [s.cur], next)
  {
  }

  /** A quoted value at the start of a field, the character after it not a
      quote: Read reads it through its closing quote as one quoted field,
      with one escape per quote of v, whose value is v. */
  lemma QuotedCell(win: Window, opt: Options, s: ScanState, v: string) returns (f: FieldRange)
    requires opt.Valid() && FieldStart(s) && Holds(win, s.pos, QuotedText(v))
    requires var q := s.pos + |QuotedText(v)|; q < win.MaxPos() ==> win.At(q) != '"'
    ensures var q := s.pos + |QuotedText(v)|;
      && f == FieldRange(s.pos, q - 1, true, CountChar(v, '"'))
      && f.Within(win.base, win.MaxPos()) && FieldValue(win, f) == v
      && ScanFrom(win, opt, s) == ScanFrom(win, opt, ScanState(q, s.done, f, false))
  {
    var q := s.pos + |QuotedText(v)|;
    QuotedOpen(win, s.pos, v);
    QuotedEndDoubled(win, s.pos + 1, 0, v, q);
    var u := QuotedStep(win, opt, s, q, CountChar(v, '"'));
    f := u.cur;
    QuotedHeldValue(win, s.pos, v, f);
  }

  /** The quoted field over held quoted text has the value the text quotes. */
  lemma QuotedHeldValue(win: Window, a: int, v: string, f: FieldRange)
    requires Holds(win, a, QuotedText(v)) && f == FieldRange(a, a + |QuotedText(v)| - 1, true, CountChar(v, '"'))
    ensures f.Within(win.base, win.MaxPos()) && FieldValue(win, f) == v
  {
    QuotedOpen(win, a, v);
    var lo, dq := a + 1 - win.base, DoubleQuotes(v);
    assert f.end - win.base == lo + |dq|;
    assert win.chars[f.start + 1 - win.base..f.end - win.base] == win.chars[lo..lo + |dq|] == dq;
    QuotedValue(win, f, v);
  }

  /** A held quoted value: its opening quote, and its escaped value and
      closing quote after it. */
  lemma QuotedOpen(win: Window, a: int, v: string)
    requires Holds(win, a, QuotedText(v))
    ensures a < win.MaxPos() && win.At(a) == '"' && Holds(win, a + 1, DoubleQuotes(v) + "\"")
    ensures win.chars[a + 1 - win.base..a + 1 - win.base + |DoubleQuotes(v)|] == DoubleQuotes(v)
  {
    var dq := DoubleQuotes(v);
    HoldsFirst(win, a, QuotedText(v));
    assert QuotedText(v)[1..] == dq + "\"";
    HoldsDrop(win, a, QuotedText(v), 1, dq + "\"");
    HoldsTake(win, a + 1, dq + "\"", |dq|, dq);
    HoldsSlice(win, a + 1, dq);
  }

  /** A quote at a field start that ReadQuotedFieldToEnd closes at q - 1:
      the scan goes on at q with that quoted field. */
  lemma QuotedStep(win: Window, opt: Options, s: ScanState, q: int, n: nat) returns (u: ScanState)
    requires opt.Valid() && FieldStart(s) && win.base <= s.pos < win.MaxPos() && win.At(s.pos) == '"'
    requires QuotedEnd(win, s.pos + 1, 0) == Some((q - 1, n))
    ensures u == ScanState(q, s.done, FieldRange(s.pos, q - 1, true, n), false)
    ensures ScanFrom(win, opt, s) == ScanFrom(win, opt, u)
  {
    u := ScanState(q, s.done, FieldRange(s.pos, q - 1, true, n), false);
    assert StepAt(win, opt, s) == Continue(u);
  }

  /** The field a shape describes over held text x is unquoted, and its
      value is x cleaned. */
  lemma ShapeHeld(win: Window, cur: FieldRange, a: int, x: string, trim: bool)
    requires Holds(win, a, x) && Shape(win, cur, a, a + |x|, trim)
    ensures !cur.quoted && cur.Within(win.base, win.MaxPos()) && FieldValue(win, cur) == Clean(x, trim)
  {
    ShapeValue(win, cur, a, a + |x|, trim);
    HoldsSlice(win, a, x);
  }

  /** Bare text x at the start of a field: Read reaches its end with the
      field unquoted, and its value is x cleaned. */
  lemma BareCell(win: Window, opt: Options, s: ScanState, x: string) returns (t: ScanState)
    requires opt.Valid() && FieldStart(s) && Holds(win, s.pos, x)
    requires forall p :: s.pos <= p < s.pos + |x| ==> InText(win, opt, p)
    requires NoQuote(x) || (|x| > 0 && x[0] != '"' && !Dropped(x[0], opt.trim))
    ensures t.pos == s.pos + |x| && t.done == s.done && !t.cur.quoted && t.cur.Within(win.base, win.MaxPos())
    ensures FieldValue(win, t.cur) == Clean(x, opt.trim)
    ensures ScanFrom(win, opt, s) == ScanFrom(win, opt, t)
  {
    var a, q := s.pos, s.pos + |x|;
    assert Shape(win, s.cur, a, a, opt.trim);
    if NoQuote(x) {
      HeldNoQuote(win, a, x);
      t := BareRun(win, opt, s, a, q);
    } else {
      HoldsFirst(win, a, x);
      var u := BareStep(win, opt, s, a);
      t := BareRun(win, opt, u, a, q);
    }
    ShapeHeld(win, t.cur, a, x, opt.trim);
  }

  /** Held text without quotes puts no quote in the window. */
  lemma HeldNoQuote(win: Window, a: int, x: string)
    requires Holds(win, a, x) && NoQuote(x)
    ensures forall p :: a <= p < a + |x| ==> win.At(p) != '"'
  {
    forall p | a <= p < a + |x| ensures win.At(p) != '"' {
      assert win.At(a + (p - a)) == x[p - a];
    }
  }

  /** A quoted value with text w after its closing quote, at the start of a
      field: the first character of w turns the field into text, and later
      quotes are content, so Read reads the whole text as one unquoted
      field, its value the text as it stands, cleaned. */
  lemma QuotedThenCell(win: Window, opt: Options, s: ScanState, v: string, w: string) returns (t: ScanState)
    requires opt.Valid() && FieldStart(s) && Holds(win, s.pos, QuotedText(v) + w)
    requires |w| > 0 && w[0] != '"' && !Dropped(w[0], opt.trim)
    requires var m := s.pos + |QuotedText(v)|; forall p :: m <= p < m + |w| ==> InText(win, opt, p)
    ensures t.pos == s.pos + |QuotedText(v) + w| && t.done == s.done && !t.cur.quoted
    ensures t.cur.Within(win.base, win.MaxPos()) && FieldValue(win, t.cur) == Clean(QuotedText(v) + w, opt.trim)
    ensures ScanFrom(win, opt, s) == ScanFrom(win, opt, t)
  {
    var a, m := s.pos, s.pos + |QuotedText(v)|;
    HeldQuotedThen(win, a, v, w);
    var f := QuotedCell(win, opt, s, v);
    assert InText(win, opt, m);
    var t0 := ScanState(m, s.done, f, false);
    assert ScanFrom(win, opt, s) == ScanFrom(win, opt, t0);
    var t1 := TextAfterQuote(win, opt, t0, a);
    t := BareRun(win, opt, t1, a, m + |w|);
    ShapeHeld(win, t.cur, a, QuotedText(v) + w, opt.trim);
  }

  /** A held quoted value with text after it: the value is held, with its
      opening quote, and the text's first character follows it. */
  lemma HeldQuotedThen(win: Window, a: int, v: string, w: string)
    requires Holds(win, a, QuotedText(v) + w) && |w| > 0
    ensures Holds(win, a, QuotedText(v)) && win.At(a) == '"'
    ensures a + |QuotedText(v)| < win.MaxPos() && win.At(a + |QuotedText(v)|) == w[0]
  {
    var text := QuotedText(v) + w;
    HoldsTake(win, a, text, |QuotedText(v)|, QuotedText(v));
    HoldsFirst(win, a, text);
    assert text[|QuotedText(v)|..] == w;
    HoldsDrop(win, a, text, |QuotedText(v)|, w);
    HoldsFirst(win, a + |QuotedText(v)|, w);
  }

  /** The first character of a non-empty held string. */
  lemma HoldsFirst(win: Window, pos: int, t: string)
    requires Holds(win, pos, t) && |t| > 0
    ensures pos < win.MaxPos() && win.At(pos) == t[0]
  {
    assert win.At(pos + 0) == t[0];
  }

  /** Content right after a closing quote: the quoted field that opened at
      a becomes unquoted text from a on, and later quotes are content. */
  lemma TextAfterQuote(win: Window, opt: Options, t0: ScanState, a: int) returns (t1: ScanState)
    requires opt.Valid() && win.base <= a < t0.pos < win.MaxPos() && win.At(a) == '"'
    requires t0.cur.quoted && t0.cur.start == a && t0.cur.end == t0.pos - 1 && !t0.ignoreQuote
    requires InText(win, opt, t0.pos) && win.At(t0.pos) != '"' && !Dropped(win.At(t0.pos), opt.trim)
    ensures t1.pos == t0.pos + 1 && t1.done == t0.done && t1.ignoreQuote && t1.cur.Length() > 0
    ensures Shape(win, t1.cur, a, t1.pos, opt.trim)
    ensures ScanFrom(win, opt, t0) == ScanFrom(win, opt, t1)
  {
    t1 := ScanState(t0.pos + 1, t0.done, FieldRange(a, t0.pos, false, t0.cur.escapes), true);
    assert StepAt(win, opt, t0) == Continue(t1);
  }

  /** The window holds cell c from a, each character Read reads outside
      quotes is text, the character after it is no quote, and a text that
      can open a quoted field does not. */
  predicate CellHolds(win: Window, opt: Options, a: int, c: Cell)
  {
    var q := a + |CellText(c)|;
    && Holds(win, a, CellText(c)) && (q < win.MaxPos() ==> win.At(q) != '"')
    && match c
       case Bare(x) =>
         && (forall p :: a <= p < q ==> InText(win, opt, p))
         && (NoQuote(x) || (|x| > 0 && x[0] != '"' && !Dropped(x[0], opt.trim)))
       case Quoted(_) => true
       case QuotedThen(v, w) =>
         && |w| > 0 && w[0] != '"' && !Dropped(w[0], opt.trim)
         && forall p :: a + |QuotedText(v)| <= p < q ==> InText(win, opt, p)
  }

  /** One cell at the start of a field: Read reaches its end holding one
      field, quoted exactly when the cell is Quoted, whose value is the
      cell's value. */
  lemma CellAt(win: Window, opt: Options, s: ScanState, c: Cell) returns (t: ScanState)
    requires opt.Valid() && FieldStart(s) && CellHolds(win, opt, s.pos, c)
    ensures t.pos == s.pos + |CellText(c)| && t.done == s.done && FieldAs(win, t.cur, c, opt.trim)
    ensures ScanFrom(win, opt, s) == ScanFrom(win, opt, t)
  {
    match c
    case Bare(x) =>
      t := BareCell(win, opt, s, x);
    case Quoted(v) =>
      var f := QuotedCell(win, opt, s, v);
      t := ScanState(s.pos + |QuotedText(v)|, s.done, f, false);
    case QuotedThen(v, w) =>
      t := QuotedThenCell(win, opt, s, v, w);
  }

  /** Where cell i of a line starts when the first starts at a, one
      delimiter between each two cells (i == |cells|: one delimiter past the
      last cell). */
  function Start(a: int, cells: seq<Cell>, D: string, i: int): int
    requires 0 <= i <= |cells|
    decreases i
  {
    if i == 0 then a else Start(a, cells, D, i - 1) + |CellText(cells[i - 1])| + |D|
  }

  /** Where cell i of the line ends. */
  function End(a: int, cells: seq<Cell>, D: string, i: int): int
    requires 0 <= i < |cells|
  {
    Start(a, cells, D, i) + |CellText(cells[i])|
  }

  /** The start of cell i is that of cell i - 1 among the cells after the first. */
  lemma {:induction false} StartTail(a: int, cells: seq<Cell>, D: string, i: int)
    requires 0 < i <= |cells|
    decreases i
    ensures Start(a, cells, D, i) == Start(a + |CellText(cells[0])| + |D|, cells[1..], D, i - 1)
  {
    if i > 1 {
      StartTail(a, cells, D, i - 1);
      assert cells[1..][i - 2] == cells[i - 1];
    }
  }

  /** Cell i of the line is held where it starts, and Read takes it there as one field. */
  predicate CellIn(win: Window, opt: Options, a: int, cells: seq<Cell>, i: int)
    requires 0 <= i < |cells|
  {
    var ok := CellHolds(win, opt, Start(a, cells, opt.delim, i), cells[i]);
    ok
  }

  /** A delimiter follows cell i. */
  predicate GapAfter(win: Window, opt: Options, a: int, cells: seq<Cell>, i: int)
    requires 0 <= i < |cells|
  {
    DelimAt(win, End(a, cells, opt.delim, i), opt.delim)
  }

  /** The window holds the cells from a, each where Read takes it as one
      field, a delimiter between each two of them, and the line ends after
      the last, the next line starting at next. */
  predicate Layout(win: Window, opt: Options, a: int, cells: seq<Cell>, next: int)
  {
    var ok :=
      && |cells| > 0
      && (forall i :: 0 <= i < |cells| ==> CellIn(win, opt, a, cells, i))
      && (forall i :: 0 <= i < |cells| - 1 ==> GapAfter(win, opt, a, cells, i))
      && EndsAt(win, End(a, cells, opt.delim, |cells| - 1), next);
    ok
  }

  /** Field f is in the window, quoted exactly when cell c is a quoted
      value alone, and has the cell's value. */
  predicate FieldAs(win: Window, f: FieldRange, c: Cell, trim: bool)
  {
    var ok := f.Within(win.base, win.MaxPos()) && (f.quoted <==> c.Quoted?) && FieldValue(win, f) == CellValue(c, trim);
    ok
  }

  /** Each field is read as its cell. */
  predicate ReadAs(win: Window, fs: seq<FieldRange>, cells: seq<Cell>, trim: bool)
  {
    var ok := |fs| == |cells| && forall i :: 0 <= i < |cells| ==> FieldAs(win, fs[i], cells[i], trim);
    ok
  }

  /** ReadAs grows by one field in front. */
  lemma ReadAsCons(win: Window, f: FieldRange, fs: seq<FieldRange>, cells: seq<Cell>, i: int, trim: bool)
    requires 0 <= i < |cells| && ReadAs(win, fs, cells[i + 1..], trim) && FieldAs(win, f, cells[i], trim)
    ensures ReadAs(win, [f] + fs, cells[i..], trim)
  {
    var gs, cs := [f] + fs, cells[i..];
    forall k | 0 < k < |cs| ensures FieldAs(win, gs[k], cs[k], trim) {
      assert gs[k] == fs[k - 1] && cs[k] == cells[i + 1..][k - 1];
    }
  }

  /** The fields before a state, one more field, then the rest. */
  lemma DoneCons(done: seq<FieldRange>, f: FieldRange, rest: seq<FieldRange>)
    ensures done + [f] + rest == done + ([f] + rest)
  {
  }

  /** Read stands at the start of cell i of a line laid out from a, ready
      for a field. The conjunction is bound to one name, so that each step of
      the walk over the cells establishes it as one fact. */
  predicate AtCell(win: Window, opt: Options, a: int, cells: seq<Cell>, next: int, i: int, s: ScanState)
  {
    var ok := && opt.Valid() && IsPlain(opt.delim[0]) && Layout(win, opt, a, cells, next)
              && 0 <= i < |cells| && FieldStart(s) && s.pos == Start(a, cells, opt.delim, i)
              && win.base <= s.pos <= win.MaxPos();
    ok
  }

  /** Read stands just past cell i of a line laid out from a. */
  predicate PastCell(win: Window, opt: Options, a: int, cells: seq<Cell>, next: int, i: int, t: ScanState)
  {
    var ok := && opt.Valid() && IsPlain(opt.delim[0]) && Layout(win, opt, a, cells, next) && 0 <= i < |cells|
              && t.pos == End(a, cells, opt.delim, i)
              && win.base <= t.pos <= win.MaxPos();
    ok
  }

  /** From s, the scan ends the line at next with fs after the fields
      already done, and fs are read as the cells from i on. */
  predicate ReadsFrom(win: Window, opt: Options, cells: seq<Cell>, next: int, i: int, s: ScanState, fs: seq<FieldRange>)
  {
    var ok := && opt.Valid() && win.base <= s.pos <= win.MaxPos() && 0 <= i <= |cells|
              && ScanFrom(win, opt, s) == Line(s.done + fs, next) && ReadAs(win, fs, cells[i..], opt.trim);
    ok
  }

  /** From t, the scan ends the line at next with the field being read and
      then rest after the fields already done, and rest are read as the
      cells after i. */
  predicate ReadsPast(win: Window, opt: Options, cells: seq<Cell>, next: int, i: int, t: ScanState, rest: seq<FieldRange>)
  {
    var ok := && opt.Valid() && win.base <= t.pos <= win.MaxPos() && 0 <= i < |cells|
              && ScanFrom(win, opt, t) == Line(t.done + [t.cur] + rest, next) && ReadAs(win, rest, cells[i + 1..], opt.trim);
    ok
  }

  /** The cells of a record from cell i on, cell i at a field start: the
      scan ends the line at next with one more field per cell, read as the
      cells. */
  lemma {:induction false} RecordFrom(win: Window, opt: Options, a: int, cells: seq<Cell>, next: int,
                                      i: int, s: ScanState)
    returns (fs: seq<FieldRange>)
    requires AtCell(win, opt, a, cells, next, i, s)
    decreases |cells| - i, 2
    ensures ReadsFrom(win, opt, cells, next, i, s, fs)
  {
    assert CellIn(win, opt, a, cells, i);
    var t := CellAt(win, opt, s, cells[i]);
    assert PastCell(win, opt, a, cells, next, i, t);
    var rest := RecordAfter(win, opt, a, cells, next, i, t);
    ReadAsCons(win, t.cur, rest, cells, i, opt.trim);
    DoneCons(s.done, t.cur, rest);
    fs := [t.cur] + rest;
  }

  /** The step of RecordFrom: past cell i, the line ends there or a
      delimiter leads to the next cell. */
  lemma {:induction false} RecordAfter(win: Window, opt: Options, a: int, cells: seq<Cell>, next: int,
                                       i: int, t: ScanState)
    returns (rest: seq<FieldRange>)
    requires PastCell(win, opt, a, cells, next, i, t)
    decreases |cells| - i, 1
    ensures ReadsPast(win, opt, cells, next, i, t, rest)
  {
    if i == |cells| - 1 {
      rest := RecordEnd(win, opt, a, cells, next, t);
    } else {
      rest := RecordNext(win, opt, a, cells, next, i, t);
    }
  }

  /** Past the last cell, the line ends. */
  lemma RecordEnd(win: Window, opt: Options, a: int, cells: seq<Cell>, next: int, t: ScanState)
    returns (rest: seq<FieldRange>)
    requires PastCell(win, opt, a, cells, next, |cells| - 1, t)
    ensures ReadsPast(win, opt, cells, next, |cells| - 1, t, rest)
  {
    ScanAtEnd(win, opt, t, next);
    rest := [];
  }

  /** Past a cell other than the last, the delimiter leads to the next cell. */
  lemma {:induction false} RecordNext(win: Window, opt: Options, a: int, cells: seq<Cell>, next: int,
                                      i: int, t: ScanState)
    returns (rest: seq<FieldRange>)
    requires PastCell(win, opt, a, cells, next, i, t) && i < |cells| - 1
    decreases |cells| - i, 0
    ensures ReadsPast(win, opt, cells, next, i, t, rest)
  {
    var u := NextCell(win, opt, a, cells, next, i, t);
    var u' := PastDelim(win, opt, t);
    rest := RecordFrom(win, opt, a, cells, next, i + 1, u);
  }

  /** Past a cell other than the last, a delimiter follows, and the next
      cell starts past it. */
  lemma NextCell(win: Window, opt: Options, a: int, cells: seq<Cell>, next: int, i: int, t: ScanState)
    returns (u: ScanState)
    requires PastCell(win, opt, a, cells, next, i, t) && i < |cells| - 1
    ensures u == ScanState(t.pos + |opt.delim|, t.done + [t.cur], EmptyField(t.pos + |opt.delim|), false)
    ensures DelimAt(win, t.pos, opt.delim) && AtCell(win, opt, a, cells, next, i + 1, u)
  {
    assert GapAfter(win, opt, a, cells, i);
    DelimAtChar(win, t.pos, opt.delim, 0);
    u := ScanState(t.pos + |opt.delim|, t.done + [t.cur], EmptyField(t.pos + |opt.delim|), false);
  }

  /** Where the window holds y from start, no occurrence of D in y means no
      delimiter starts at p, inside y. */
  lemma NoDelimInHolds(win: Window, start: int, y: string, p: int, D: string)
    requires Holds(win, start, y) && start <= p && p + |D| <= start + |y| && !OccursAt(y, D, p - start)
    ensures !DelimAt(win, p, D)
  {
    if DelimAt(win, p, D) {
      forall j | 0 <= j < |D| ensures y[p - start..p - start + |D|][j] == D[j] {
        DelimAtChar(win, p, D, j);
        assert win.At(start + (p - start + j)) == y[p - start + j];
      }
      assert false;
    }
  }

  /** A delimiter without line breaks does not run into a line's end. */
  lemma NoDelimAcrossEnd(win: Window, p: int, D: string, e: int, next: int)
    requires PlainText(D) && p < e < p + |D| && EndsAt(win, e, next)
    ensures !DelimAt(win, p, D)
  {
    if DelimAt(win, p, D) {
      DelimAtChar(win, p, D, e - p);
      assert false;
    }
  }

  /** No delimiter starts inside x when x is Apart from what follows it
      in the window: the delimiter itself, or a line's end. */
  lemma NoDelimInside(win: Window, opt: Options, start: int, x: string, follow: string, next: int)
    requires opt.Valid() && PlainText(opt.delim) && Apart(x, follow, opt.delim)
    requires Holds(win, start, x + follow)
    requires follow == opt.delim || (follow == [] && EndsAt(win, start + |x|, next))
    ensures forall p :: start <= p < start + |x| ==> !DelimAt(win, p, opt.delim)
  {
    forall p | start <= p < start + |x| ensures !DelimAt(win, p, opt.delim) {
      if p + |opt.delim| <= start + |x + follow| {
        NoDelimInHolds(win, start, x + follow, p, opt.delim);
      } else {
        NoDelimAcrossEnd(win, p, opt.delim, start + |x|, next);
      }
    }
  }

  /** A cell Read takes as one field, held in the window with what follows
      it: Read takes it there as one field. */
  lemma CellHoldsFrom(win: Window, opt: Options, a: int, c: Cell, follow: string, e: int, next: int)
    requires opt.Valid() && PlainText(opt.delim) && CellOk(c, follow, opt)
    requires Holds(win, a, CellText(c) + follow) && e == a + |CellText(c)|
    requires follow == opt.delim || (follow == [] && EndsAt(win, e, next))
    ensures CellHolds(win, opt, a, c)
  {
    HeldBefore(win, opt, a, CellText(c), follow, next);
    match c
    case Bare(x) =>
      TextFrom(win, opt, a, x, follow, next);
    case Quoted(_) =>
    case QuotedThen(v, w) =>
      var t := CellText(c);
      assert t + follow == QuotedText(v) + (w + follow);
      HoldsDrop(win, a, t + follow, |QuotedText(v)|, w + follow);
      TextFrom(win, opt, a + |QuotedText(v)|, w, follow, next);
  }

  /** A text held with what follows it holds, and no quote comes after it. */
  lemma HeldBefore(win: Window, opt: Options, a: int, t: string, follow: string, next: int)
    requires opt.Valid() && PlainText(opt.delim) && Holds(win, a, t + follow)
    requires follow == opt.delim || (follow == [] && EndsAt(win, a + |t|, next))
    ensures Holds(win, a, t) && (a + |t| < win.MaxPos() ==> win.At(a + |t|) != '"')
  {
    HoldsTake(win, a, t + follow, |t|, t);
    if follow == opt.delim {
      assert win.At(a + |t|) == (t + follow)[|t|];
    }
  }

  /** Text without line breaks, Apart from what follows it: each of its
      characters is text Read reads outside quotes. */
  lemma TextFrom(win: Window, opt: Options, m: int, w: string, follow: string, next: int)
    requires opt.Valid() && PlainText(opt.delim) && NoBreak(w) && Apart(w, follow, opt.delim)
    requires Holds(win, m, w + follow)
    requires follow == opt.delim || (follow == [] && EndsAt(win, m + |w|, next))
    ensures forall p :: m <= p < m + |w| ==> InText(win, opt, p)
  {
    NoDelimInside(win, opt, m, w, follow, next);
    forall p | m <= p < m + |w| ensures win.At(p) != '\r' && win.At(p) != '\n' {
      assert win.At(m + (p - m)) == (w + follow)[p - m];
    }
  }

  /** Cell i of the line is held where it starts, with what follows it in the line. */
  predicate HeldCell(win: Window, a: int, cells: seq<Cell>, D: string, i: int)
    requires 0 <= i < |cells|
  {
    Holds(win, Start(a, cells, D, i), CellText(cells[i]) + Follow(i, |cells|, D))
  }

  /** The cells joined by D, held from a: each cell is held where it starts,
      with what follows it, and the last ends where the line does. */
  lemma {:induction false} HeldCells(win: Window, a: int, cells: seq<Cell>, D: string)
    requires |cells| > 0 && Holds(win, a, Join(Texts(cells), D))
    decreases |cells|
    ensures forall i :: 0 <= i < |cells| ==> HeldCell(win, a, cells, D, i)
    ensures End(a, cells, D, |cells| - 1) == a + |Join(Texts(cells), D)|
  {
    if |cells| == 1 {
      HeldCellOne(win, a, cells, D);
    } else {
      var t0 := CellText(cells[0]);
      var j, a' := Join(Texts(cells[1..]), D), a + |t0| + |D|;
      JoinTexts(cells, D);
      HoldsParts(win, a, t0, D, j);
      HeldCells(win, a', cells[1..], D);
      HeldCellsCons(win, a, a', cells, D);
      EndTail(a, a', cells, D);
    }
  }

  /** A line of one cell: the cell is held where the line starts, and ends where it does. */
  lemma HeldCellOne(win: Window, a: int, cells: seq<Cell>, D: string)
    requires |cells| == 1 && Holds(win, a, Join(Texts(cells), D))
    ensures HeldCell(win, a, cells, D, 0) && End(a, cells, D, 0) == a + |Join(Texts(cells), D)|
  {
    JoinTextsOne(cells, D);
    assert CellText(cells[0]) + Follow(0, 1, D) == CellText(cells[0]);
  }

  /** The last cell ends where it does among the cells after the first. */
  lemma EndTail(a: int, a': int, cells: seq<Cell>, D: string)
    requires |cells| > 1 && a' == a + |CellText(cells[0])| + |D|
    ensures End(a, cells, D, |cells| - 1) == End(a', cells[1..], D, |cells| - 2)
  {
    StartTail(a, cells, D, |cells| - 1);
    assert cells[|cells| - 1] == cells[1..][|cells| - 2];
  }

  /** The first cell held with the delimiter after it, and the others held
      where they start among the cells after the first: all are held. */
  lemma HeldCellsCons(win: Window, a: int, a': int, cells: seq<Cell>, D: string)
    requires |cells| > 1 && Holds(win, a, CellText(cells[0]) + D) && a' == a + |CellText(cells[0])| + |D|
    requires forall i :: 0 <= i < |cells| - 1 ==> HeldCell(win, a', cells[1..], D, i)
    ensures forall i :: 0 <= i < |cells| ==> HeldCell(win, a, cells, D, i)
  {
    forall i | 0 <= i < |cells| ensures HeldCell(win, a, cells, D, i) {
      if i == 0 {
        assert Follow(0, |cells|, D) == D;
      } else {
        assert HeldCell(win, a', cells[1..], D, i - 1);
        StartTail(a, cells, D, i);
        assert cells[i] == cells[1..][i - 1] && Follow(i, |cells|, D) == Follow(i - 1, |cells| - 1, D);
      }
    }
  }

  /** The cells joined by the delimiter, held from a where a line ends after
      them: they are laid out from a. */
  lemma LayoutFrom(win: Window, opt: Options, a: int, cells: seq<Cell>, next: int)
    requires opt.Valid() && PlainText(opt.delim) && |cells| > 0 && CellsOk(cells, opt)
    requires Holds(win, a, Join(Texts(cells), opt.delim))
    requires EndsAt(win, a + |Join(Texts(cells), opt.delim)|, next)
    ensures Layout(win, opt, a, cells, next)
  {
    HeldCells(win, a, cells, opt.delim);
    LaidCells(win, opt, a, cells, next);
    forall i | 0 <= i < |cells| - 1 ensures GapAfter(win, opt, a, cells, i) {
      HeldGap(win, opt, a, cells, i);
    }
  }

  /** Each cell held with what follows it, the last where the line ends:
      Read takes each as one field where it starts. */
  lemma LaidCells(win: Window, opt: Options, a: int, cells: seq<Cell>, next: int)
    requires opt.Valid() && PlainText(opt.delim) && |cells| > 0 && CellsOk(cells, opt)
    requires forall i :: 0 <= i < |cells| ==> HeldCell(win, a, cells, opt.delim, i)
    requires EndsAt(win, End(a, cells, opt.delim, |cells| - 1), next)
    ensures forall i :: 0 <= i < |cells| ==> CellIn(win, opt, a, cells, i)
  {
    forall i | 0 <= i < |cells| ensures CellIn(win, opt, a, cells, i) {
      LaidCell(win, opt, a, cells, next, i);
    }
  }

  /** One cell of the line, held with what follows it, holds as a cell. */
  lemma LaidCell(win: Window, opt: Options, a: int, cells: seq<Cell>, next: int, i: int)
    requires opt.Valid() && PlainText(opt.delim) && 0 <= i < |cells|
    requires HeldCell(win, a, cells, opt.delim, i) && CellOk(cells[i], Follow(i, |cells|, opt.delim), opt)
    requires i == |cells| - 1 ==> EndsAt(win, End(a, cells, opt.delim, i), next)
    ensures CellIn(win, opt, a, cells, i)
  {
    var D, f := opt.delim, Follow(i, |cells|, opt.delim);
    assert f == D || (f == [] && EndsAt(win, End(a, cells, D, i), next));
    CellHoldsFrom(win, opt, Start(a, cells, D, i), cells[i], f, End(a, cells, D, i), next);
  }

  /** A cell held with the delimiter after it: the delimiter follows it. */
  lemma HeldGap(win: Window, opt: Options, a: int, cells: seq<Cell>, i: int)
    requires 0 <= i < |cells| - 1 && HeldCell(win, a, cells, opt.delim, i)
    ensures GapAfter(win, opt, a, cells, i)
  {
    assert Follow(i, |cells|, opt.delim) == opt.delim;
    HoldsDelim(win, Start(a, cells, opt.delim, i), CellText(cells[i]), opt.delim);
  }

  /** The text of a line of one cell is the cell's. */
  lemma JoinTextsOne(cells: seq<Cell>, D: string)
    requires |cells| == 1
    ensures Join(Texts(cells), D) == CellText(cells[0])
  {
    assert Texts(cells) == [CellText(cells[0])];
  }

  /** The text of a line of cells: the first cell, the delimiter, the rest. */
  lemma JoinTexts(cells: seq<Cell>, D: string)
    requires |cells| > 1
    ensures Join(Texts(cells), D) == CellText(cells[0]) + D + Join(Texts(cells[1..]), D)
  {
    assert Texts(cells) == [CellText(cells[0])] + Texts(cells[1..]);
    JoinCons(CellText(cells[0]), Texts(cells[1..]), D);
  }

  /** A held field, delimiter and rest of the line: the field with its
      delimiter holds, and the rest holds after it. */
  lemma HoldsParts(win: Window, a: int, t0: string, D: string, j: string)
    requires Holds(win, a, t0 + D + j)
    ensures Holds(win, a, t0 + D) && Holds(win, a + |t0| + |D|, j)
  {
    var line := t0 + D + j;
    assert line[..|t0| + |D|] == t0 + D && line[|t0| + |D|..] == j;
    HoldsTake(win, a, line, |t0| + |D|, t0 + D);
    HoldsDrop(win, a, line, |t0| + |D|, j);
  }

  /** A held field with the delimiter after it: the delimiter is there. */
  lemma HoldsDelim(win: Window, a: int, t: string, D: string)
    requires Holds(win, a, t + D)
    ensures DelimAt(win, a + |t|, D)
  {
    assert (t + D)[|t|..] == D;
    HoldsDrop(win, a, t + D, |t|, D);
    DelimAtChars(win, a + |t|, D);
  }

  /** A line of cells, joined by a delimiter that holds no quote and no
      line break, each a field Read takes as one: whatever ends the line,
      Read finds one field per cell, quoted exactly when the cell is a quoted
      value alone, each with the cell's value, and the next line starts just
      past the line's ending. */
  lemma ReadsRecordLine(cells: seq<Cell>, term: string, rest: string, base: int, eof: bool, opt: Options)
    requires opt.Valid() && PlainText(opt.delim) && |cells| > 0 && CellsOk(cells, opt)
    requires LineEnding(term, rest, eof)
    ensures var line := Join(Texts(cells), opt.delim);
      var win := Window(line + term + rest, base, eof);
      var r := Scan(win, opt);
      && r.Line? && r.next == base + |line| + |term| && |r.fields| == |cells|
      && forall i :: 0 <= i < |cells| ==>
           && r.fields[i].Within(base, win.MaxPos()) && (r.fields[i].quoted <==> cells[i].Quoted?)
           && FieldValue(win, r.fields[i]) == CellValue(cells[i], opt.trim)
  {
    var line := Join(Texts(cells), opt.delim);
    var win := Window(line + term + rest, base, eof);
    var next := base + |line| + |term|;
    LineEndingEnds(line, term, rest, base, eof);
    LayoutFrom(win, opt, base, cells, next);
    assert AtCell(win, opt, base, cells, next, 0, StartState(base));
    var fs := RecordFrom(win, opt, base, cells, next, 0, StartState(base));
    assert [] + fs == fs && cells[0..] == cells;
    assert ReadAs(win, fs, cells, opt.trim);
  }

  /** Plain text Apart from what follows it is a bare cell Read takes as one field. */
  lemma PlainBare(x: string, follow: string, opt: Options)
    requires PlainText(x) && Apart(x, follow, opt.delim)
    ensures CellOk(Bare(x), follow, opt)
  {
  }

  /** The parts of a line without quotes, as bare cells: joined, they give
      the line back, and Read takes each as one field. */
  lemma PlainCells(line: string, opt: Options) returns (cells: seq<Cell>)
    requires opt.Valid() && PlainText(opt.delim) && PlainText(line)
    ensures |cells| == |Split(line, opt.delim)| && |cells| > 0 && CellsOk(cells, opt)
    ensures forall i :: 0 <= i < |cells| ==> cells[i] == Bare(Split(line, opt.delim)[i])
    ensures Join(Texts(cells), opt.delim) == line
  {
    var D := opt.delim;
    var parts := Split(line, D);
    cells := seq(|parts|, i requires 0 <= i < |parts| => Bare(parts[i]));
    SplitJoin(line, D);
    SplitApart(line, D);
    SplitPlain(line, D);
    assert forall i :: 0 <= i < |parts| ==> Texts(cells)[i] == parts[i];
    assert Texts(cells) == parts;
    forall i | 0 <= i < |cells| ensures CellOk(cells[i], Follow(i, |cells|, D), opt) {
      assert PlainText(parts[i]) && Apart(parts[i], Follow(i, |parts|, D), D);
      PlainBare(parts[i], Follow(i, |cells|, D), opt);
    }
  }

  /** A line without quotes, under a delimiter without quotes or line
      breaks: whatever ends it, Read finds one field per part of the
      reference splitter, with that part as its value (without its outer
      spaces when fields are trimmed), and the next line starts just past
      the line's ending. */
  lemma ReadsPlainLine(line: string, term: string, rest: string, base: int, eof: bool, opt: Options)
    requires opt.Valid() && PlainText(opt.delim) && PlainText(line) && LineEnding(term, rest, eof)
    ensures var win := Window(line + term + rest, base, eof);
      var r, parts := Scan(win, opt), Split(line, opt.delim);
      && r.Line? && r.next == base + |line| + |term| && |r.fields| == |parts|
      && forall i :: 0 <= i < |parts| ==>
           r.fields[i].Within(base, win.MaxPos()) && FieldValue(win, r.fields[i]) == Clean(parts[i], opt.trim)
  {
    var cells := PlainCells(line, opt);
    ReadsRecordLine(cells, term, rest, base, eof, opt);
  }

  /** One quoted field written with its quotes doubled, whatever ends the
      line and whatever the delimiter: Read finds that field alone, quoted,
      with one escape per quote of v, its value is v, and the next line
      starts just past the line's ending. */
  lemma ReadsQuotedLine(v: string, term: string, rest: string, base: int, eof: bool, opt: Options)
    requires opt.Valid() && LineEnding(term, rest, eof)
    ensures var line := QuotedText(v);
      var win := Window(line + term + rest, base, eof);
      var r := Scan(win, opt);
      && r.Line? && r.next == base + |line| + |term| && |r.fields| == 1
      && r.fields[0].quoted && r.fields[0].escapes == CountChar(v, '"')
      && r.fields[0].Within(base, win.MaxPos()) && FieldValue(win, r.fields[0]) == v
  {
    var line := QuotedText(v);
    var win := Window(line + term + rest, base, eof);
    var next := base + |line| + |term|;
    LineEndingEnds(line, term, rest, base, eof);
    var f := QuotedLineAt(win, opt, v, next);
  }

  /** The same, in any window that holds the line from its base on. */
  lemma QuotedLineAt(win: Window, opt: Options, v: string, next: int) returns (f: FieldRange)
    requires opt.Valid() && Holds(win, win.base, QuotedText(v)) && EndsAt(win, win.base + |QuotedText(v)|, next)
    ensures Scan(win, opt) == Line([f], next) && f.quoted && f.escapes == CountChar(v, '"')
    ensures f.Within(win.base, win.MaxPos()) && FieldValue(win, f) == v
  {
    var at := win.base + |QuotedText(v)|;
    EndsNotQuote(win, at, next);
    f := QuotedCell(win, opt, StartState(win.base), v);
    ScanAtEnd(win, opt, ScanState(at, [], f, false), next);
  }

  /** Where a line ends, there is no quote. */
  lemma EndsNotQuote(win: Window, at: int, next: int)
    requires EndsAt(win, at, next)
    ensures at < win.MaxPos() ==> win.At(at) != '"'
  {
  }

  /** A line that does not open with a quote or a dropped space, with no
      line break and no delimiter inside: Read finds one unquoted field whose
      value is the whole line, every quote in it included (a quote after
      content is content), cleaned, and the next line starts past the line's
      ending. */
  lemma ReadsLiteralLine(line: string, term: string, rest: string, base: int, eof: bool, opt: Options)
    requires opt.Valid() && PlainText(opt.delim) && LineEnding(term, rest, eof)
    requires |line| > 0 && line[0] != '"' && !Dropped(line[0], opt.trim) && NoBreak(line) && Apart(line, [], opt.delim)
    ensures var win := Window(line + term + rest, base, eof);
      var r := Scan(win, opt);
      && r.Line? && r.next == base + |line| + |term| && |r.fields| == 1 && !r.fields[0].quoted
      && r.fields[0].Within(base, win.MaxPos()) && FieldValue(win, r.fields[0]) == Clean(line, opt.trim)
  {
    var cells := [Bare(line)];
    assert Texts(cells) == [line];
    ReadsRecordLine(cells, term, rest, base, eof, opt);
  }

  /** A quoted value with text after its closing quote, alone on its line, the
      text opening with a character that is kept and is no quote: Read
      finds one unquoted field whose value is the whole text from the
      opening quote on, quotes included, cleaned (so ""8 reads as ""8). */
  lemma ReadsQuotedThenLine(v: string, w: string, term: string, rest: string, base: int, eof: bool, opt: Options)
    requires opt.Valid() && PlainText(opt.delim) && LineEnding(term, rest, eof)
    requires |w| > 0 && w[0] != '"' && !Dropped(w[0], opt.trim) && NoBreak(w) && Apart(w, [], opt.delim)
    ensures var line := QuotedText(v) + w;
      var win := Window(line + term + rest, base, eof);
      var r := Scan(win, opt);
      && r.Line? && r.next == base + |line| + |term| && |r.fields| == 1 && !r.fields[0].quoted
      && r.fields[0].Within(base, win.MaxPos()) && FieldValue(win, r.fields[0]) == Clean(line, opt.trim)
  {
    var cells := [QuotedThen(v, w)];
    assert Texts(cells) == [QuotedText(v) + w];
    ReadsRecordLine(cells, term, rest, base, eof, opt);
  }

  /** With no line break from s.pos to the end of a window whose input is
      not exhausted, the line does not fit. */
  lemma {:induction false} NoBreakTooLong(win: Window, opt: Options, s: ScanState)
    requires opt.Valid() && !win.eof && win.base <= s.pos <= win.MaxPos()
    requires forall p :: s.pos <= p < win.MaxPos() ==> win.At(p) != '\r' && win.At(p) != '\n'
    decreases win.MaxPos() - s.pos
    ensures ScanFrom(win, opt, s) == TooLong
  {
    if s.pos < win.MaxPos() {
      var r := StepAt(win, opt, s);
      assert !r.Ended?;
      if r.Continue? {
        NoBreakTooLong(win, opt, r.state);
      }
    }
  }

  /** The characters buffered hold no line break and more input may follow:
      Read reports that the line does not fit in the buffer, whatever the
      characters are. */
  lemma LineTooLong(chars: string, base: int, opt: Options)
    requires opt.Valid() && NoBreak(chars)
    ensures Scan(Window(chars, base, false), opt) == TooLong
  {
    var win := Window(chars, base, false);
    forall p | base <= p < win.MaxPos() ensures win.At(p) != '\r' && win.At(p) != '\n' {
      assert win.At(p) == chars[p - base];
    }
    NoBreakTooLong(win, opt, StartState(base));
  }

  /** ReadQuotedFieldToEnd finding no quote from pos on: it runs to the end
      of the window, and closes the field at the window's last character
      when the input is exhausted; otherwise the line does not fit. */
  lemma {:induction false} QuotedEndRunsOut(win: Window, pos: int, e: nat)
    requires win.base < pos <= win.MaxPos()
    requires forall p :: pos <= p < win.MaxPos() ==> win.At(p) != '"'
    decreases win.MaxPos() - pos
    ensures QuotedEnd(win, pos, e) == if win.eof then Some((win.MaxPos() - 1, e)) else None
  {
    if pos < win.MaxPos() {
      QuotedEndRunsOut(win, pos + 1, e);
    }
  }

  /** A quote opening the rest of the input that no later quote closes:
      Read takes everything up to the end of the input as one quoted field,
      without escapes, and its value drops the last character, since the
      value of a quoted field leaves out its last character as if it were
      the closing quote (so "abc reads as ab). */
  lemma UnclosedQuoteAtEnd(v: string, base: int, opt: Options)
    requires opt.Valid() && forall k :: 0 <= k < |v| ==> v[k] != '"'
    ensures var win := Window("\"" + v, base, true);
      var f := FieldRange(base, base + |v|, true, 0);
      && Scan(win, opt) == Line([f], base + 1 + |v|)
      && f.Within(base, win.MaxPos())
      && FieldValue(win, f) == if |v| > 0 then v[..|v| - 1] else []
  {
    var win := Window("\"" + v, base, true);
    UnclosedQuoteRuns(win, v);
    var f := FieldRange(base, base + |v|, true, 0);
    var s := ScanState(base + 1 + |v|, [], f, false);
    assert StepAt(win, opt, StartState(base)) == Continue(s);
    assert ScanFrom(win, opt, s) == Line([f], base + 1 + |v|);
    if |v| > 1 {
      assert win.chars[1..|v|] == v[..|v| - 1];
    }
  }

  /** The same unclosed quote where the input is not exhausted: the line
      does not fit in the buffer, as Read reports by InvalidDataException. */
  lemma UnclosedQuoteTooLong(v: string, base: int, opt: Options)
    requires opt.Valid() && forall k :: 0 <= k < |v| ==> v[k] != '"'
    ensures Scan(Window("\"" + v, base, false), opt) == TooLong
  {
    var win := Window("\"" + v, base, false);
    UnclosedQuoteRuns(win, v);
  }

  /** An unclosed quote opening the window: no quote follows it. */
  lemma UnclosedQuoteRuns(win: Window, v: string)
    requires win.chars == "\"" + v && forall k :: 0 <= k < |v| ==> v[k] != '"'
    ensures win.At(win.base) == '"'
    ensures QuotedEnd(win, win.base + 1, 0) == if win.eof then Some((win.MaxPos() - 1, 0)) else None
  {
    assert forall p :: win.base + 1 <= p < win.MaxPos() ==> win.At(p) == v[p - win.base - 1];
    QuotedEndRunsOut(win, win.base + 1, 0);
  }
}
