/** Character and string helpers shared by the reader and the writer: the
    few .NET string operations the CSV code relies on (Contains, Replace,
    Trim), written out over seq<char>, the joining of a record's fields, and
    the doubling of a quote string. */
module CsvText {

  datatype Option<T> = None | Some(value: T)

  /** t occurs in s starting at offset i. */
  predicate OccursAt(s: string, t: string, i: int)
  {
    0 <= i && i + |t| <= |s| && s[i..i + |t|] == t
  }

  /** String.Contains(string): true when t occurs somewhere in s (always true for an empty t). */
  function Contains(s: string, t: string): (r: bool)
    decreases |s|
    ensures r <==> exists i :: OccursAt(s, t, i)
  {
    if |s| < |t| then
      assert forall i :: !OccursAt(s, t, i);
      false
    else if s[..|t|] == t then
      assert OccursAt(s, t, 0);
      true
    else
      var rest := Contains(s[1..], t);
      assert forall i :: OccursAt(s, t, i) && i > 0 ==> OccursAt(s[1..], t, i - 1) by {
        forall i | OccursAt(s, t, i) && i > 0 ensures OccursAt(s[1..], t, i - 1) {
          assert s[1..][i - 1..i - 1 + |t|] == s[i..i + |t|];
        }
      }
      assert forall i :: OccursAt(s[1..], t, i) ==> OccursAt(s, t, i + 1) by {
        forall i | OccursAt(s[1..], t, i) ensures OccursAt(s, t, i + 1) {
          assert s[1..][i..i + |t|] == s[i + 1..i + 1 + |t|];
        }
      }
      rest
  }

  /** String.Replace(pat, rep): every occurrence of pat, found left to right
      without overlap, is replaced by rep. .NET refuses an empty pat. */
  function Replace(s: string, pat: string, rep: string): string
    requires |pat| > 0
    decreases |s|
  {
    if |s| == 0 then []
    else if |pat| <= |s| && s[..|pat|] == pat then rep + Replace(s[|pat|..], pat, rep)
    else [s[0]] + Replace(s[1..], pat, rep)
  }

  /** A character that does not start pat is kept as it is. */
  lemma ReplaceCons(c: char, s: string, pat: string, rep: string)
    requires |pat| > 0 && c != pat[0]
    ensures Replace([c] + s, pat, rep) == [c] + Replace(s, pat, rep)
  {
    var t := [c] + s;
    if |pat| <= |t| {
      assert t[..|pat|][0] != pat[0];
    }
    assert t[1..] == s;
  }

  /** An occurrence of pat at the front is replaced by rep. */
  lemma ReplaceHead(s: string, pat: string, rep: string)
    requires |pat| > 0
    ensures Replace(pat + s, pat, rep) == rep + Replace(s, pat, rep)
  {
    var t := pat + s;
    assert t[..|pat|] == pat && t[|pat|..] == s;
  }

  /** The number of occurrences of c in s. */
  function CountChar(s: string, c: char): nat
  {
    if |s| == 0 then 0 else (if s[0] == c then 1 else 0) + CountChar(s[1..], c)
  }

  /** s with every '"' written twice: the escaped body of a quoted CSV field. */
  function DoubleQuotes(s: string): (r: string)
    ensures |r| == |s| + CountChar(s, '"')
  {
    if |s| == 0 then []
    else (if s[0] == '"' then "\"\"" else [s[0]]) + DoubleQuotes(s[1..])
  }

  /** Without a quote there is nothing to double. */
  lemma {:induction false} DoubleQuotesNoQuote(s: string)
    requires CountChar(s, '"') == 0
    ensures DoubleQuotes(s) == s
  {
    if |s| > 0 {
      DoubleQuotesNoQuote(s[1..]);
      assert s == [s[0]] + s[1..];
    }
  }

  /** The parts with d between each two of them, as a record's fields stand
      in a line. */
  function Join(parts: seq<string>, d: string): string
    requires |parts| > 0
  {
    if |parts| == 1 then parts[0] else Join(parts[..|parts| - 1], d) + d + parts[|parts| - 1]
  }

  /** Join read from the front: the first part, d, and the join of the rest. */
  lemma {:induction false} JoinCons(x: string, r: seq<string>, d: string)
    requires |r| > 0
    decreases |r|
    ensures Join([x] + r, d) == x + d + Join(r, d)
  {
    var p := [x] + r;
    if |r| == 1 {
      assert p[..|p| - 1] == [x];
    } else {
      var init, last := r[..|r| - 1], r[|r| - 1];
      assert p[..|p| - 1] == [x] + init && p[|p| - 1] == last;
      JoinCons(x, init, d);
      calc {
        Join(p, d);
        Join([x] + init, d) + d + last;
        x + d + Join(init, d) + d + last;
        x + d + (Join(init, d) + d + last);
        x + d + Join(r, d);
      }
    }
  }

  /** Char.IsWhiteSpace: the characters String.Trim() removes. */
  predicate IsWhiteSpace(c: char)
  {
    c == ' ' || ('\t' <= c <= '\r') || c == '\U{0085}' || c == '\U{00A0}' || c == '\U{1680}'
    || ('\U{2000}' <= c <= '\U{200A}') || c == '\U{2028}' || c == '\U{2029}'
    || c == '\U{202F}' || c == '\U{205F}' || c == '\U{3000}'
  }

  /** String.Trim(): s without its leading and trailing white space. */
  function Trim(s: string): (r: string)
    ensures TrimmedFront(s) + |r| <= |s| && r == s[TrimmedFront(s)..TrimmedFront(s) + |r|]
    ensures forall k :: 0 <= k < TrimmedFront(s) ==> IsWhiteSpace(s[k])
    ensures forall k :: TrimmedFront(s) + |r| <= k < |s| ==> IsWhiteSpace(s[k])
    ensures |r| > 0 ==> !IsWhiteSpace(r[0]) && !IsWhiteSpace(r[|r| - 1])
  {
    var t, i := TrimStart(s), TrimmedFront(s);
    assert t == s[i..];
    var r := TrimEnd(t);
    assert t[..|r|] == s[i..i + |r|];
    r
  }

  /** How many characters Trim removes from the front of s. */
  function TrimmedFront(s: string): (n: nat)
    ensures n <= |s|
  {
    |s| - |TrimStart(s)|
  }

  function TrimStart(s: string): (r: string)
    ensures |r| <= |s| && r == s[|s| - |r|..]
    ensures |r| > 0 ==> !IsWhiteSpace(r[0])
    ensures forall k :: 0 <= k < |s| - |r| ==> IsWhiteSpace(s[k])
  {
    if |s| > 0 && IsWhiteSpace(s[0]) then TrimStart(s[1..]) else s
  }

  function TrimEnd(s: string): (r: string)
    ensures |r| <= |s| && r == s[..|r|]
    ensures |r| > 0 ==> !IsWhiteSpace(r[|r| - 1])
    ensures forall k :: |r| <= k < |s| ==> IsWhiteSpace(s[k])
  {
    if |s| > 0 && IsWhiteSpace(s[|s| - 1]) then TrimEnd(s[..|s| - 1]) else s
  }

  /** Doubling every quote and then collapsing every doubled quote gives the value back. */
  lemma {:induction false} ReplaceUndoesDoubleQuotes(v: string)
    ensures Replace(DoubleQuotes(v), "\"\"", "\"") == v
  {
    if |v| > 0 {
      var d := DoubleQuotes(v);
      var tail := DoubleQuotes(v[1..]);
      ReplaceUndoesDoubleQuotes(v[1..]);
      if v[0] == '"' {
        assert d == "\"\"" + tail;
        assert d[2..] == tail;
      } else {
        assert d == [v[0]] + tail;
        assert d[1..] == tail;
        assert d[0] != '"';
      }
      assert v == [v[0]] + v[1..];
    }
  }

  /** Replacing each '"' by '""' is exactly DoubleQuotes. */
  lemma {:induction false} ReplaceQuoteIsDoubleQuotes(v: string)
    ensures Replace(v, "\"", "\"\"") == DoubleQuotes(v)
  {
    if |v| > 0 {
      ReplaceQuoteIsDoubleQuotes(v[1..]);
      assert v[..1] == [v[0]];
    }
  }

  /** Without an occurrence of pat, Replace leaves s as it is. */
  lemma {:induction false} ReplaceAbsent(s: string, pat: string, rep: string)
    requires |pat| > 0 && !Contains(s, pat)
    ensures Replace(s, pat, rep) == s
  {
    if |s| > 0 {
      assert !OccursAt(s, pat, 0);
      ReplaceAbsent(s[1..], pat, rep);
      assert s == [s[0]] + s[1..];
    }
  }
}
