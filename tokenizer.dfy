/**
 * The quote-aware splitter for one CSV data line (`parseCSVLine`): a comma outside quotes
 * ends a field, a `"` toggles the inside-quotes flag, and `""` inside quotes stands for one
 * literal `"`. Malformed quoting is never an error; it only leaves the flag toggled.
 */
module Tokenizer {
  import opened Text

  /** The loop state of the splitter: finished fields, the field being built, the quote flag. */
  datatype Scanner = Scanner(fields: seq<string>, current: string, insideQuotes: bool)

  const Start: Scanner := Scanner([], "", false)

  /** The state reached by reading `s` from `st`: fields already finished are never revised. */
  function Scan(s: string, st: Scanner): (r: Scanner)
    ensures |st.fields| <= |r.fields| && r.fields[..|st.fields|] == st.fields
    decreases |s|
  {
    if s == [] then st
    else if s[0] == '"' then
      if st.insideQuotes && |s| >= 2 && s[1] == '"' then
        Scan(s[2..], st.(current := st.current + "\""))
      else
        Scan(s[1..], st.(insideQuotes := !st.insideQuotes))
    else if s[0] == ',' && !st.insideQuotes then
      Scan(s[1..], Scanner(st.fields + [st.current], "", false))
    else
      Scan(s[1..], st.(current := st.current + [s[0]]))
  }

  /** The fields of `line`: everything finished, then the field in progress; one more than the commas outside quotes. */
  function Tokenize(line: string): (fields: seq<string>)
    ensures |fields| == UnquotedCommas(line, false) + 1
  {
    ScanFieldCount(line, Start);
    var st := Scan(line, Start);
    st.fields + [st.current]
  }

  /** Number of commas read while the quote flag is clear, following the same quote rules. */
  function UnquotedCommas(s: string, insideQuotes: bool): nat
    decreases |s|
  {
    if s == [] then 0
    else if s[0] == '"' then
      if insideQuotes && |s| >= 2 && s[1] == '"' then UnquotedCommas(s[2..], insideQuotes)
      else UnquotedCommas(s[1..], !insideQuotes)
    else if s[0] == ',' && !insideQuotes then 1 + UnquotedCommas(s[1..], insideQuotes)
    else UnquotedCommas(s[1..], insideQuotes)
  }

  /** The splitter, as a loop over the characters of `line`. */
  method ParseLine(line: string) returns (fields: seq<string>)
    ensures fields == Tokenize(line)
    ensures |fields| == UnquotedCommas(line, false) + 1
  {
    var result: seq<string> := [];
    var current: string := "";
    var insideQuotes := false;
    var i := 0;
    while i < |line|
      invariant 0 <= i <= |line|
      invariant Scan(line[i..], Scanner(result, current, insideQuotes)) == Scan(line, Start)
    {
      var c := line[i];
      assert line[i..][0] == c && line[i..][1..] == line[i + 1..];
      if c == '"' {
        if insideQuotes && i + 1 < |line| && line[i + 1] == '"' {
          assert line[i..][1] == line[i + 1] && line[i..][2..] == line[i + 2..];
          current := current + "\"";
          i := i + 1;
        } else {
          insideQuotes := !insideQuotes;
        }
      } else if c == ',' && !insideQuotes {
        result := result + [current];
        current := "";
      } else {
        current := current + [c];
      }
      i := i + 1;
    }
    fields := result + [current];
  }

  lemma {:induction false} ScanFieldCount(s: string, st: Scanner)
    ensures |Scan(s, st).fields| == |st.fields| + UnquotedCommas(s, st.insideQuotes)
    decreases |s|
  {
    if s == [] {
    } else if s[0] == '"' {
      if st.insideQuotes && |s| >= 2 && s[1] == '"' {
        ScanFieldCount(s[2..], st.(current := st.current + "\""));
      } else {
        ScanFieldCount(s[1..], st.(insideQuotes := !st.insideQuotes));
      }
    } else if s[0] == ',' && !st.insideQuotes {
      ScanFieldCount(s[1..], Scanner(st.fields + [st.current], "", false));
    } else {
      ScanFieldCount(s[1..], st.(current := st.current + [s[0]]));
    }
  }

  /** `[cur + parts[0]] + parts[1..]`: `cur` glued in front of the first part. */
  function Prepend(cur: string, parts: seq<string>): seq<string>
    requires |parts| >= 1
  {
    [cur + parts[0]] + parts[1..]
  }

  lemma PrependEmpty(parts: seq<string>)
    requires |parts| >= 1
    ensures Prepend("", parts) == parts
  {
    assert "" + parts[0] == parts[0];
    assert [parts[0]] + parts[1..] == parts;
  }

  lemma {:induction false} ScanQuoteFree(s: string, fs: seq<string>, cur: string)
    requires '"' !in s
    ensures var st := Scan(s, Scanner(fs, cur, false));
            !st.insideQuotes && st.fields + [st.current] == fs + Prepend(cur, SplitOn(s, ','))
    decreases |s|
  {
    if s != [] {
      var rest := SplitOn(s[1..], ',');
      if s[0] == ',' {
        ScanQuoteFree(s[1..], fs + [cur], "");
        PrependEmpty(rest);
      } else {
        ScanQuoteFree(s[1..], fs, cur + [s[0]]);
        assert cur + [s[0]] + rest[0] == cur + ([s[0]] + rest[0]);
      }
    } else {
      assert cur + "" == cur;
    }
  }

  /** Without any `"` the splitter is a plain split on commas, so joining the fields restores the line. */
  lemma QuoteFreeLine(line: string)
    requires '"' !in line
    ensures Tokenize(line) == SplitOn(line, ',')
    ensures Join(Tokenize(line), ',') == line
  {
    ScanQuoteFree(line, [], "");
    PrependEmpty(SplitOn(line, ','));
    JoinSplitOn(line, ',');
  }

  /** No `""` pair anywhere in `s`. */
  predicate NoDoubledQuote(s: string) {
    forall i :: 0 <= i < |s| - 1 && s[i] == '"' ==> s[i + 1] != '"'
  }

  /** None of the fields of `st` holds a `"`. */
  predicate QuoteFreeState(st: Scanner) {
    '"' !in st.current && forall k :: 0 <= k < |st.fields| ==> '"' !in st.fields[k]
  }

  lemma {:induction false} ScanKeepsQuotesOut(s: string, st: Scanner)
    requires NoDoubledQuote(s) && QuoteFreeState(st)
    ensures QuoteFreeState(Scan(s, st))
    decreases |s|
  {
    if s != [] {
      assert NoDoubledQuote(s[1..]) by {
        forall i | 0 <= i < |s[1..]| - 1 && s[1..][i] == '"' ensures s[1..][i + 1] != '"' {
          assert s[1..][i] == s[i + 1] && s[1..][i + 1] == s[i + 2];
        }
      }
      if s[0] == '"' {
        ScanKeepsQuotesOut(s[1..], st.(insideQuotes := !st.insideQuotes));
      } else if s[0] == ',' && !st.insideQuotes {
        ScanKeepsQuotesOut(s[1..], Scanner(st.fields + [st.current], "", false));
      } else {
        ScanKeepsQuotesOut(s[1..], st.(current := st.current + [s[0]]));
      }
    }
  }

  /** A `"` reaches a field only through a doubled `""`: a line without one yields quote-free fields. */
  lemma QuotesOnlyFromPairs(line: string)
    requires NoDoubledQuote(line)
    ensures forall k :: 0 <= k < |Tokenize(line)| ==> '"' !in Tokenize(line)[k]
  {
    ScanKeepsQuotesOut(line, Start);
  }

  /** Number of `""` pairs read while the quote flag is set, following the same quote rules. */
  function EscapedPairs(s: string, insideQuotes: bool): nat
    decreases |s|
  {
    if s == [] then 0
    else if s[0] == '"' then
      if insideQuotes && |s| >= 2 && s[1] == '"' then 1 + EscapedPairs(s[2..], insideQuotes)
      else EscapedPairs(s[1..], !insideQuotes)
    else if s[0] == ',' && !insideQuotes then EscapedPairs(s[1..], false)
    else EscapedPairs(s[1..], insideQuotes)
  }

  /** Each `""` read inside quotes puts exactly one `"` into the fields, and nothing else does. */
  lemma {:induction false} ScanQuoteCount(s: string, st: Scanner)
    ensures Count(Scan(s, st).current + Concat(Scan(s, st).fields), '"')
            == Count(st.current + Concat(st.fields), '"') + EscapedPairs(s, st.insideQuotes)
    decreases |s|
  {
    if s != [] {
      if s[0] == '"' {
        if st.insideQuotes && |s| >= 2 && s[1] == '"' {
          var st' := st.(current := st.current + "\"");
          ScanQuoteCount(s[2..], st');
          CountAppend(st.current, "\"");
          CountAppend(st.current, Concat(st.fields));
          CountAppend(st.current + "\"", Concat(st.fields));
        } else {
          ScanQuoteCount(s[1..], st.(insideQuotes := !st.insideQuotes));
        }
      } else if s[0] == ',' && !st.insideQuotes {
        var st' := Scanner(st.fields + [st.current], "", false);
        ScanQuoteCount(s[1..], st');
        ConcatAppend(st.fields, st.current);
        CountAppend(Concat(st.fields), st.current);
        CountAppend(st.current, Concat(st.fields));
        assert "" + Concat(st'.fields) == Concat(st'.fields);
      } else {
        var st' := st.(current := st.current + [s[0]]);
        ScanQuoteCount(s[1..], st');
        CountAppend(st.current, [s[0]]);
        CountAppend(st.current, Concat(st.fields));
        CountAppend(st.current + [s[0]], Concat(st.fields));
      }
    }
  }

  /** The `"` in the fields of a line are exactly its `""` pairs read inside quotes. */
  lemma QuoteCount(line: string)
    ensures Count(Concat(Tokenize(line)), '"') == EscapedPairs(line, false)
  {
    ScanQuoteCount(line, Start);
    var st := Scan(line, Start);
    ConcatAppend(st.fields, st.current);
    CountAppend(Concat(st.fields), st.current);
    CountAppend(st.current, Concat(st.fields));
  }

  /** Every escaped pair uses up two `"` of the input. */
  lemma {:induction false} EscapedPairsBound(s: string, insideQuotes: bool)
    ensures 2 * EscapedPairs(s, insideQuotes) <= Count(s, '"')
    decreases |s|
  {
    if s != [] {
      if s[0] == '"' && insideQuotes && |s| >= 2 && s[1] == '"' {
        EscapedPairsBound(s[2..], insideQuotes);
        assert s[1..][1..] == s[2..];
      } else if s[0] == '"' {
        EscapedPairsBound(s[1..], !insideQuotes);
      } else if s[0] == ',' && !insideQuotes {
        EscapedPairsBound(s[1..], false);
      } else {
        EscapedPairsBound(s[1..], insideQuotes);
      }
    }
  }

  /** The fields of a line hold at most half as many `"` as the line. */
  lemma QuoteCountHalved(line: string)
    ensures 2 * Count(Concat(Tokenize(line)), '"') <= Count(line, '"')
  {
    QuoteCount(line);
    EscapedPairsBound(line, false);
  }

  function Concat(parts: seq<string>): string {
    if parts == [] then [] else Concat(parts[..|parts| - 1]) + parts[|parts| - 1]
  }

  lemma ConcatAppend(parts: seq<string>, p: string)
    ensures Concat(parts + [p]) == Concat(parts) + p
  {
    assert (parts + [p])[..|parts|] == parts;
  }

  lemma {:induction false} CountAppend(a: string, b: string)
    ensures Count(a + b, '"') == Count(a, '"') + Count(b, '"')
    decreases |a|
  {
    if a != [] {
      assert (a + b)[1..] == a[1..] + b;
      CountAppend(a[1..], b);
    } else {
      assert a + b == b;
    }
  }

  /** One step of the splitter on the suffix of `line` from `k`. */
  lemma ScanSuffix(line: string, k: nat, st: Scanner)
    requires k < |line|
    requires !(line[k] == '"' && st.insideQuotes && k + 1 < |line| && line[k + 1] == '"')
    ensures Scan(line[k..], st) == Scan(line[k + 1..], Scan([line[k]], st))
  {
    assert line[k..][0] == line[k] && line[k..][1..] == line[k + 1..];
  }

  /** Reading `a,` of the line `a,"b,c",d` closes the first field. */
  lemma QuotedCommaFirstField(line: string)
    requires line == "a,\"b,c\",d"
    ensures Scan(line, Start) == Scan(line[2..], Scanner(["a"], "", false))
  {
    ScanSuffix(line, 0, Start);
    assert line[0..] == line;
    assert "" + "a" == "a";
    ScanSuffix(line, 1, Scanner([], "a", false));
    assert [] + ["a"] == ["a"];
  }

  /** Reading `"b,` opens the quoted field and keeps the comma in it. */
  lemma QuotedCommaOpen(line: string)
    requires line == "a,\"b,c\",d"
    ensures Scan(line[2..], Scanner(["a"], "", false)) == Scan(line[5..], Scanner(["a"], "b,", true))
  {
    ScanSuffix(line, 2, Scanner(["a"], "", false));
    ScanSuffix(line, 3, Scanner(["a"], "", true));
    assert "" + "b" == "b";
    ScanSuffix(line, 4, Scanner(["a"], "b", true));
    assert "b" + "," == "b,";
  }

  /** Reading `c"` finishes the quoted text and closes the quotes. */
  lemma QuotedCommaClose(line: string)
    requires line == "a,\"b,c\",d"
    ensures Scan(line[5..], Scanner(["a"], "b,", true)) == Scan(line[7..], Scanner(["a"], "b,c", false))
  {
    assert line[5] == 'c';
    ScanSuffix(line, 5, Scanner(["a"], "b,", true));
    assert "b," + "c" == "b,c";
    ScanSuffix(line, 6, Scanner(["a"], "b,c", true));
  }

  /** Reading `,d` closes the second field and starts the third. */
  lemma QuotedCommaLastField(line: string)
    requires line == "a,\"b,c\",d"
    ensures Scan(line[7..], Scanner(["a"], "b,c", false)) == Scanner(["a", "b,c"], "d", false)
  {
    ScanSuffix(line, 7, Scanner(["a"], "b,c", false));
    assert ["a"] + ["b,c"] == ["a", "b,c"];
    ScanSuffix(line, 8, Scanner(["a", "b,c"], "", false));
    assert "" + "d" == "d";
    assert line[9..] == [];
  }

  /** The line `a,"b,c",d` splits into `a`, `b,c` and `d`: the quoted comma does not split. */
  lemma QuotedCommaExample(line: string)
    requires line == "a,\"b,c\",d"
    ensures Tokenize(line) == ["a", "b,c", "d"]
  {
    QuotedCommaFirstField(line);
    QuotedCommaOpen(line);
    QuotedCommaClose(line);
    QuotedCommaLastField(line);
  }

  /** Reading `"a""` of `"a""b",c` turns the doubled quote into one literal quote. */
  lemma EscapedQuoteOpen(line: string)
    requires line == "\"a\"\"b\",c"
    ensures Scan(line, Start) == Scan(line[4..], Scanner([], "a\"", true))
  {
    ScanSuffix(line, 0, Start);
    assert line[0..] == line;
    ScanSuffix(line, 1, Scanner([], "", true));
    assert "" + "a" == "a";
    assert line[2..][0] == '"' && line[2..][1] == '"' && line[2..][2..] == line[4..];
    assert "a" + "\"" == "a\"";
  }

  /** Reading `b"` finishes the quoted text and closes the quotes. */
  lemma EscapedQuoteClose(line: string)
    requires line == "\"a\"\"b\",c"
    ensures Scan(line[4..], Scanner([], "a\"", true)) == Scan(line[6..], Scanner([], "a\"b", false))
  {
    ScanSuffix(line, 4, Scanner([], "a\"", true));
    assert "a\"" + "b" == "a\"b";
    ScanSuffix(line, 5, Scanner([], "a\"b", true));
  }

  /** Reading `,c` closes the first field and reads the second. */
  lemma EscapedQuoteLastField(line: string)
    requires line == "\"a\"\"b\",c"
    ensures Scan(line[6..], Scanner([], "a\"b", false)) == Scanner(["a\"b"], "c", false)
  {
    ScanSuffix(line, 6, Scanner([], "a\"b", false));
    assert [] + ["a\"b"] == ["a\"b"];
    ScanSuffix(line, 7, Scanner(["a\"b"], "", false));
    assert "" + "c" == "c";
    assert line[8..] == [];
  }

  /** A doubled quote inside quotes yields one literal quote: `"a""b",c` gives `a"b` and `c`. */
  lemma EscapedQuoteExample(line: string)
    requires line == "\"a\"\"b\",c"
    ensures Tokenize(line) == ["a\"b", "c"]
  {
    EscapedQuoteOpen(line);
    EscapedQuoteClose(line);
    EscapedQuoteLastField(line);
  }
}
