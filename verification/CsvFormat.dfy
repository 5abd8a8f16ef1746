/** The CSV text of Sqlite3.07.14-run/shell.c: what a row looks like when printed, and how lines are cut
    into fields and fields are unquoted when read.  Strings hold bytes and no NUL. */
module CsvFormat {
  import opened CBasics

  /** The needCsvQuote table. */
  predicate NeedCsvQuote(c: char) {
    c as int <= 32 || c == '"' || c == '\'' || c as int >= 127
  }

  /** Some character makes output_csv quote the field.  A longer separator is compared with the start of the
      field, whatever the position of the character. */
  predicate Triggers(z: string, sep: string, i: nat)
    requires i < |z|
  {
    NeedCsvQuote(z[i]) || (z[i] == At(sep, 0) && (|sep| == 1 || sep <= z))
  }

  predicate MustQuote(z: string, sep: string) {
    z == "" || exists i :: 0 <= i < |z| && Triggers(z, sep, i)
  }

  function Doubled(z: string): string {
    if z == "" then "" else (if z[0] == '"' then "\"\"" else [z[0]]) + Doubled(z[1..])
  }

  function Printed(z: string, sep: string): string {
    if MustQuote(z, sep) then "\"" + Doubled(z) + "\"" else z
  }

  function PrintedFields(row: seq<string>, sep: string): string
  {
    if row == [] then "" else Printed(row[0], sep) + if |row| == 1 then "" else sep + PrintedFields(row[1..], sep)
  }

  function PrintedRows(rows: seq<seq<string>>, sep: string): string
  {
    if rows == [] then "" else PrintedFields(rows[0], sep) + "\n" + PrintedRows(rows[1..], sep)
  }

  /** Where the line ends: at the first newline outside quotes, or at the end of the text. */
  function LineEnd(s: string, q: bool): (n: nat)
    ensures n <= |s| && (n < |s| ==> s[n] == '\n')
  {
    if s == "" || (s[0] == '\n' && !q) then 0 else 1 + LineEnd(s[1..], q != (s[0] == '"'))
  }

  function ChopReturn(s: string): string {
    if s != "" && s[|s|-1] == '\r' then s[..|s|-1] else s
  }

  /** One line of a non-empty text, without its line end, and the rest of the text. */
  function GetLine(s: string): (r: (string, string))
    requires s != ""
    ensures |r.1| < |s|
  {
    var n := LineEnd(s, false);
    if n == |s| then (s, "") else (ChopReturn(s[..n]), s[n+1..])
  }

  /** The raw fields of a line: cut at every separator outside quotes. */
  function Split(z: string, sep: string, q: bool): (pieces: seq<string>)
    requires sep != ""
    ensures pieces != []
  {
    if z == "" then [""]
    else
      var q' := q != (z[0] == '"');
      if !q' && sep <= z then [""] + Split(z[|sep|..], sep, q')
      else Glue([z[0]], Split(z[1..], sep, q'))
  }

  function Glue(t: string, pieces: seq<string>): (r: seq<string>)
    requires pieces != []
    ensures |r| == |pieces| && r != []
  {
    [t + pieces[0]] + pieces[1..]
  }

  /** The unquoting loop from position j of a field. */
  function Strip(z: string): string {
    if z == "" then ""
    else if z[0] == '"' then if |z| == 1 then "" else [z[1]] + Strip(z[2..])
    else [z[0]] + Strip(z[1..])
  }

  function Unquote(z: string): string {
    if z != "" && z[0] == '"' then Strip(z[1..]) else z
  }

  function UnquoteAll(pieces: seq<string>): (r: seq<string>)
    ensures |r| == |pieces| && forall i :: 0 <= i < |r| ==> r[i] == Unquote(pieces[i])
  {
    seq(|pieces|, i requires 0 <= i < |pieces| => Unquote(pieces[i]))
  }

  datatype Import = Rows(rows: seq<seq<string>>) | WrongColumns

  /** The .import command on a whole file: every line must have nCol fields. */
  function ImportAll(s: string, sep: string, nCol: nat): Import
    requires sep != ""
    decreases |s|
  {
    if s == "" then Rows([])
    else
      var (line, rest) := GetLine(s);
      var pieces := Split(line, sep, false);
      if |pieces| != nCol then WrongColumns
      else match ImportAll(rest, sep, nCol)
           case WrongColumns => WrongColumns
           case Rows(rows) => Rows([UnquoteAll(pieces)] + rows)
  }

  predicate IsTable(rows: seq<seq<string>>, nCol: nat) {
    forall i :: 0 <= i < |rows| ==> |rows[i]| == nCol
  }

  /** Every table comes back from its own printed text. */
  ghost predicate RoundTrips(sep: string)
    requires sep != ""
  {
    forall rows: seq<seq<string>>, nCol: nat :: nCol > 0 && IsTable(rows, nCol) ==>
      ImportAll(PrintedRows(rows, sep), sep, nCol) == Rows(rows)
  }
}

/** Printing and importing undo each other. */
module CsvRoundTrip {
  import opened CsvFormat

  /** A text that opens as many quotes as it closes and has no newline outside quotes. */
  predicate Balanced(s: string, q: bool) {
    if s == "" then !q else !(s[0] == '\n' && !q) && Balanced(s[1..], q != (s[0] == '"'))
  }

  lemma {:induction false} BalancedConcat(s: string, t: string, q: bool)
    requires Balanced(s, q) && Balanced(t, false)
    ensures Balanced(s + t, q)
  {
    if s == "" {
      assert s + t == t;
    } else {
      assert (s + t)[1..] == s[1..] + t;
      BalancedConcat(s[1..], t, q != (s[0] == '"'));
    }
  }

  lemma {:induction false} BalancedLine(s: string, rest: string, q: bool)
    requires Balanced(s, q)
    ensures LineEnd(s + "\n" + rest, q) == |s|
  {
    var all := s + "\n" + rest;
    if s == "" {
      assert all[0] == '\n';
    } else {
      assert all[1..] == s[1..] + "\n" + rest;
      BalancedLine(s[1..], rest, q != (s[0] == '"'));
    }
  }

  /** The inside of a quoted field, closing quote included, leads back out of the quotes. */
  lemma {:induction false} QuotedBalanced(z: string)
    ensures Balanced(Doubled(z) + "\"", true)
  {
    var s := Doubled(z) + "\"";
    if z != "" {
      QuotedBalanced(z[1..]);
      var inner := Doubled(z[1..]) + "\"";
      if z[0] == '"' {
        assert s == "\"\"" + inner;
        assert s[1..] == "\"" + inner;
        assert s[1..][1..] == inner;
      } else {
        assert s == [z[0]] + inner;
        assert s[1..] == inner;
      }
    } else {
      assert s[1..] == "";
    }
  }

  lemma {:induction false} PlainBalanced(z: string)
    requires forall i :: 0 <= i < |z| ==> z[i] != '"' && z[i] != '\n'
    ensures Balanced(z, false)
  {
    if z != "" {
      PlainBalanced(z[1..]);
    }
  }

  lemma PrintedBalanced(z: string, sep: string)
    ensures Balanced(Printed(z, sep), false)
  {
    if MustQuote(z, sep) {
      QuotedBalanced(z);
      assert Printed(z, sep) == "\"" + (Doubled(z) + "\"");
      assert Printed(z, sep)[1..] == Doubled(z) + "\"";
    } else {
      forall i | 0 <= i < |z| ensures z[i] != '"' && z[i] != '\n' { assert !Triggers(z, sep, i); }
      PlainBalanced(z);
    }
  }

  /** The separators that work, judged by the separator alone: quotes and newlines in it must not disturb line
      assembly, it must not start with a quote, and a longer one needs a character that forces quoting. */
  predicate GoodSeparator(sep: string) {
    && sep != "" && sep[0] != '"' && Balanced(sep, false)
    && (|sep| == 1 || exists i :: 0 <= i < |sep| && NeedCsvQuote(sep[i]))
  }

  lemma {:induction false} FieldsBalanced(row: seq<string>, sep: string)
    requires GoodSeparator(sep)
    ensures Balanced(PrintedFields(row, sep), false)
  {
    if row != [] {
      PrintedBalanced(row[0], sep);
      if |row| == 1 {
        assert PrintedFields(row, sep) == Printed(row[0], sep);
      } else {
        FieldsBalanced(row[1..], sep);
        BalancedConcat(sep, PrintedFields(row[1..], sep), false);
        BalancedConcat(Printed(row[0], sep), sep + PrintedFields(row[1..], sep), false);
      }
    }
  }

  /** A printed field never ends in a carriage return, so the line end is cut off cleanly. */
  lemma {:induction false} NoTrailingReturn(row: seq<string>, sep: string)
    requires row != []
    ensures var s := PrintedFields(row, sep); s != "" && s[|s|-1] != '\r'
  {
    var p := Printed(row[0], sep);
    if |row| == 1 {
      assert PrintedFields(row, sep) == p;
      if !MustQuote(row[0], sep) {
        assert !Triggers(row[0], sep, |row[0]| - 1);
      }
    } else {
      NoTrailingReturn(row[1..], sep);
    }
  }

  /** In s followed by rest, no separator starts at a position of s outside quotes. */
  predicate Unsplit(s: string, rest: string, sep: string, q: bool) {
    s == "" || (var q' := q != (s[0] == '"'); !(!q' && sep <= s + rest) && Unsplit(s[1..], rest, sep, q'))
  }

  function Parity(s: string, q: bool): bool {
    if s == "" then q else Parity(s[1..], q != (s[0] == '"'))
  }

  lemma GlueEmpty(pieces: seq<string>)
    requires pieces != []
    ensures Glue("", pieces) == pieces
  {
    assert "" + pieces[0] == pieces[0];
  }

  lemma GlueGlue(s: string, t: string, pieces: seq<string>)
    requires pieces != []
    ensures Glue(s, Glue(t, pieces)) == Glue(s + t, pieces)
  {
    assert s + (t + pieces[0]) == s + t + pieces[0];
  }

  lemma {:induction false} UnsplitGlues(s: string, rest: string, sep: string, q: bool)
    requires sep != "" && Unsplit(s, rest, sep, q)
    ensures Split(s + rest, sep, q) == Glue(s, Split(rest, sep, Parity(s, q)))
  {
    if s == "" {
      assert s + rest == rest;
      GlueEmpty(Split(rest, sep, q));
    } else {
      var all := s + rest;
      var q' := q != (s[0] == '"');
      assert all[1..] == s[1..] + rest;
      UnsplitGlues(s[1..], rest, sep, q');
      assert [s[0]] + s[1..] == s;
      GlueGlue([s[0]], s[1..], Split(rest, sep, Parity(s, q)));
      hide Glue;
    }
  }

  lemma {:induction false} QuotedUnsplit(z: string, rest: string, sep: string)
    requires sep != "" && sep[0] != '"'
    ensures Unsplit(Doubled(z) + "\"", rest, sep, true) && !Parity(Doubled(z) + "\"", true)
  {
    var s := Doubled(z) + "\"";
    if z != "" {
      QuotedUnsplit(z[1..], rest, sep);
      var inner := Doubled(z[1..]) + "\"";
      if z[0] == '"' {
        assert s == "\"\"" + inner;
        assert s[1..] == "\"" + inner;
        assert s[1..][1..] == inner;
      } else {
        assert s == [z[0]] + inner;
        assert s[1..] == inner;
      }
    } else {
      assert s[1..] == "";
    }
  }

  /** `rest` is the end of the line or starts with a separator, and s contains nothing that forces quoting. */
  lemma {:induction false} PlainUnsplit(s: string, rest: string, sep: string)
    requires GoodSeparator(sep) && (rest == "" || sep <= rest)
    requires forall i :: 0 <= i < |s| ==> !NeedCsvQuote(s[i]) && (|sep| == 1 ==> s[i] != sep[0])
    ensures Unsplit(s, rest, sep, false) && !Parity(s, false)
  {
    if s != "" {
      PlainUnsplit(s[1..], rest, sep);
      if |sep| > 1 && sep <= s + rest {
        NoEarlySeparator(s, rest, sep);
      }
    }
  }

  /** The first quoting character of a long separator cannot match anything at or before itself. */
  lemma NoEarlySeparator(s: string, rest: string, sep: string)
    requires s != "" && (exists i :: 0 <= i < |sep| && NeedCsvQuote(sep[i]))
    requires (rest == "" || sep <= rest) && forall i :: 0 <= i < |s| ==> !NeedCsvQuote(s[i])
    ensures !(sep <= s + rest)
  {
    var k := FirstQuoting(sep);
  }

  function FirstQuoting(s: string): (k: nat)
    requires exists i :: 0 <= i < |s| && NeedCsvQuote(s[i])
    ensures k < |s| && NeedCsvQuote(s[k]) && forall i :: 0 <= i < k ==> !NeedCsvQuote(s[i])
  {
    if NeedCsvQuote(s[0]) then 0
    else
      assert exists i :: 0 <= i < |s[1..]| && NeedCsvQuote(s[1..][i]) by {
        var i :| 0 <= i < |s| && NeedCsvQuote(s[i]);
        assert s[1..][i - 1] == s[i];
      }
      1 + FirstQuoting(s[1..])
  }

  lemma PrintedUnsplit(z: string, rest: string, sep: string)
    requires GoodSeparator(sep) && (rest == "" || sep <= rest)
    ensures Unsplit(Printed(z, sep), rest, sep, false) && !Parity(Printed(z, sep), false)
  {
    if MustQuote(z, sep) {
      QuotedUnsplit(z, rest, sep);
      assert Printed(z, sep) == "\"" + (Doubled(z) + "\"");
      assert Printed(z, sep)[1..] == Doubled(z) + "\"";
    } else {
      forall i | 0 <= i < |z| ensures !NeedCsvQuote(z[i]) && (|sep| == 1 ==> z[i] != sep[0]) {
        assert !Triggers(z, sep, i);
      }
      PlainUnsplit(z, rest, sep);
    }
  }

  lemma {:induction false} StripUndoubles(z: string)
    ensures Strip(Doubled(z) + "\"") == z
  {
    var s := Doubled(z) + "\"";
    if z != "" {
      StripUndoubles(z[1..]);
      var inner := Doubled(z[1..]) + "\"";
      if z[0] == '"' {
        assert s == "\"\"" + inner;
        assert s[2..] == inner;
      } else {
        assert s == [z[0]] + inner;
        assert s[1..] == inner;
      }
    }
  }

  lemma UnquotePrinted(z: string, sep: string)
    ensures Unquote(Printed(z, sep)) == z
  {
    hide Strip, Doubled, NeedCsvQuote;
    if MustQuote(z, sep) {
      hide MustQuote;
      StripUndoubles(z);
      assert Printed(z, sep)[1..] == Doubled(z) + "\"";
    } else {
      NoQuoteFirst(z, sep);
    }
  }

  lemma NoQuoteFirst(z: string, sep: string)
    requires !MustQuote(z, sep)
    ensures z != "" && z[0] != '"'
  {
    assert !Triggers(z, sep, 0);
  }

  function PrintedEach(row: seq<string>, sep: string): (r: seq<string>)
    ensures |r| == |row| && forall i :: 0 <= i < |row| ==> r[i] == Printed(row[i], sep)
  {
    if row == [] then [] else [Printed(row[0], sep)] + PrintedEach(row[1..], sep)
  }

  lemma {:induction false} FieldsSplit(row: seq<string>, sep: string)
    requires row != [] && GoodSeparator(sep)
    ensures Split(PrintedFields(row, sep), sep, false) == PrintedEach(row, sep)
  {
    var p := Printed(row[0], sep);
    if |row| == 1 {
      PrintedUnsplit(row[0], "", sep);
      assert PrintedFields(row, sep) == p + "";
      UnsplitGlues(p, "", sep, false);
      assert p + "" == p;
    } else {
      FieldsSplit(row[1..], sep);
      var rest := sep + PrintedFields(row[1..], sep);
      PrintedUnsplit(row[0], rest, sep);
      UnsplitGlues(p, rest, sep, false);
      SeparatorSplits(PrintedFields(row[1..], sep), sep);
      assert p + "" == p;
      assert ([""] + PrintedEach(row[1..], sep))[1..] == PrintedEach(row[1..], sep);
    }
  }

  lemma SeparatorSplits(rest: string, sep: string)
    requires sep != "" && sep[0] != '"'
    ensures Split(sep + rest, sep, false) == [""] + Split(rest, sep, false)
  {
  }

  /** A line that neither a quote nor a carriage return disturbs is assembled as it was printed. */
  lemma LineReads(line: string, rest: string)
    requires Balanced(line, false) && line != "" && line[|line|-1] != '\r'
    ensures GetLine(line + "\n" + rest) == (line, rest)
  {
    var text := line + "\n" + rest;
    BalancedLine(line, rest, false);
    assert text[..|line|] == line && text[|line|+1..] == rest;
    hide Balanced, LineEnd;
  }

  /** One line: assembling, splitting and unquoting a printed row gives back its fields. */
  lemma RowRoundTrip(row: seq<string>, sep: string, rest: string)
    requires row != [] && GoodSeparator(sep)
    ensures var text := PrintedFields(row, sep) + "\n" + rest;
      && GetLine(text) == (PrintedFields(row, sep), rest)
      && UnquoteAll(Split(PrintedFields(row, sep), sep, false)) == row
  {
    FieldsBalanced(row, sep);
    NoTrailingReturn(row, sep);
    FieldsSplit(row, sep);
    hide PrintedFields, Split, GoodSeparator, GetLine, Unquote, Printed, Balanced;
    LineReads(PrintedFields(row, sep), rest);
    forall i | 0 <= i < |row| { UnquotePrinted(row[i], sep); }
  }

  /** One line of a file whose other lines import. */
  lemma ImportStep(text: string, line: string, rest: string, row: seq<string>, more: seq<seq<string>>,
                   nCol: nat, sep: string)
    requires sep != "" && text != "" && GetLine(text) == (line, rest)
    requires var pieces := Split(line, sep, false); |pieces| == nCol && UnquoteAll(pieces) == row
    requires ImportAll(rest, sep, nCol) == Rows(more)
    ensures ImportAll(text, sep, nCol) == Rows([row] + more)
  {
    hide GetLine, Split, UnquoteAll;
  }

  /** The whole file. */
  lemma {:induction false} TableRoundTrip(rows: seq<seq<string>>, nCol: nat, sep: string)
    requires nCol > 0 && IsTable(rows, nCol) && GoodSeparator(sep)
    ensures ImportAll(PrintedRows(rows, sep), sep, nCol) == Rows(rows)
  {
    if rows != [] {
      var row, more := rows[0], rows[1..];
      var line, rest := PrintedFields(row, sep), PrintedRows(more, sep);
      assert PrintedRows(rows, sep) == line + "\n" + rest && sep != "";
      assert IsTable(more, nCol) && |row| == nCol;
      hide GetLine, Split, PrintedFields, PrintedRows, ImportAll, UnquoteAll, IsTable, GoodSeparator;
      RowRoundTrip(row, sep, rest);
      FieldsSplit(row, sep);
      TableRoundTrip(more, nCol, sep);
      ImportStep(line + "\n" + rest, line, rest, row, more, nCol, sep);
      assert [row] + more == rows;
    }
  }
}

/** Which separators fail: the exact condition for the round trip. */
module CsvSeparators {
  import opened CsvFormat
  import opened CsvRoundTrip

  /** A harmless character other than the separator's first. */
  function Other(sep: string): (x: string)
    requires sep != ""
    ensures |x| == 1 && x[0] != sep[0] && !NeedCsvQuote(x[0])
  {
    if sep[0] == 'a' then "b" else "a"
  }

  ghost predicate Nowhere(s: string, sep: string) {
    forall p :: 0 <= p <= |s| ==> !(sep <= s[p..])
  }

  lemma {:induction false} OnePiece(s: string, sep: string, q: bool)
    requires sep != "" && Nowhere(s, sep)
    ensures Split(s, sep, q) == [s]
  {
    if s != "" {
      assert s[0..] == s;
      forall p | 0 <= p <= |s[1..]| ensures !(sep <= s[1..][p..]) {
        assert s[1..][p..] == s[p+1..];
      }
      OnePiece(s[1..], sep, q != (s[0] == '"'));
      assert [s[0]] + s[1..] == s;
    }
  }

  lemma {:induction false} ConstantString(s: string)
    requires s != "" && forall i :: 0 <= i < |s| - 1 ==> s[i] == s[i+1]
    ensures s[0] == s[|s|-1]
  {
    if |s| > 1 {
      ConstantString(s[1..]);
    }
  }

  lemma {:induction false} AlternatingString(s: string)
    requires |s| >= 2 && forall i :: 0 <= i < |s| - 2 ==> s[i] == s[i+2]
    ensures s[0] == s[|s|-1] || s[0] == s[|s|-2]
  {
    if |s| > 2 {
      AlternatingString(s[..|s|-1]);
    }
  }

  /** A separator that starts with a quote is never recognised between two harmless fields. */
  lemma QuoteFirstHides(sep: string, x: char, line: string)
    requires sep != "" && sep[0] == '"' && x != '"' && x != '\n'
    requires line <= [x] + sep + [x, '\n']
    ensures |Split(line, sep, false)| == 1
  {
    if |line| >= 2 {
      var r := line[2..];
      assert line[1] == '"' && line[1..][1..] == r;
      forall p | 0 <= p <= |r| ensures !(sep <= r[p..]) {
        if sep <= r[p..] {
          assert p <= 1;
          forall i | 0 <= i < |sep| - 1 - p ensures sep[i] == sep[i+1+p] { assert sep[i] == r[p..][i] == line[i+p+2]; }
          if p == 0 {
            assert sep[|sep|-1] == r[|sep|-1] == x;
            ConstantString(sep);
          } else {
            assert sep[|sep|-1] == r[1..][|sep|-1] == '\n';
            if |sep| >= 2 {
              assert sep[|sep|-2] == r[1..][|sep|-2] == x;
              AlternatingString(sep);
            }
          }
        }
      }
      OnePiece(r, sep, true);
    }
  }

  /** A separator cannot be recognised in a line that ends inside it. */
  lemma CutSeparatorHides(sep: string, x: char, line: string)
    requires sep != "" && x != sep[0] && |line| <= |sep| && line <= [x] + sep
    ensures |Split(line, sep, false)| == 1
  {
    forall p | 0 <= p <= |line| ensures !(sep <= line[p..]) {
      assert p < |line| ==> line[p..][0] == line[p];
    }
    OnePiece(line, sep, false);
  }

  /** A separator that disturbs line assembly ends the line inside it or swallows the line end. */
  lemma {:induction false} UnbalancedLine(s: string, rest: string, q: bool)
    requires !Balanced(s, q)
    ensures LineEnd(s + rest, q) < |s| || LineEnd(s + rest, q) == |s| + LineEnd(rest, true)
  {
    if s == "" {
      assert s + rest == rest;
    } else if s[0] != '\n' || q {
      assert (s + rest)[1..] == s[1..] + rest;
      UnbalancedLine(s[1..], rest, q != (s[0] == '"'));
    }
  }

  lemma PrintedPlain(z: string, sep: string)
    requires |z| > 0 && |sep| > 0 && z[0] != sep[0]
    requires forall i :: 0 <= i < |z| ==> !NeedCsvQuote(z[i])
    requires |z| == 1 || |sep| >= 2
    ensures Printed(z, sep) == z
  {
  }

  /** The printed text of a one-row table with two fields that need no quotes. */
  lemma PrintedPair(z: string, x: string, sep: string)
    requires |x| == 1 && |sep| > 0 && x[0] != sep[0] && !NeedCsvQuote(x[0])
    requires |z| > 0 && z[0] != sep[0] && (|z| == 1 || |sep| >= 2)
    requires forall i :: 0 <= i < |z| ==> !NeedCsvQuote(z[i])
    ensures PrintedRows([[z, x]], sep) == z + sep + x + "\n"
  {
    hide NeedCsvQuote, Printed, PrintedFields, PrintedRows;
    PrintedPlain(z, sep);
    PrintedPlain(x, sep);
    PrintedLast(x, sep);
    PrintedFirst(z, [x], sep);
    OneRowText([z] + [x], sep);
    assert [z] + [x] == [z, x];
    assert z + (sep + x) + "\n" == z + sep + x + "\n";
  }

  lemma OneRowText(row: seq<string>, sep: string)
    ensures PrintedRows([row], sep) == PrintedFields(row, sep) + "\n"
  {
  }

  lemma PrintedLast(x: string, sep: string)
    ensures PrintedFields([x], sep) == Printed(x, sep)
  {
  }

  lemma PrintedFirst(z: string, row: seq<string>, sep: string)
    requires row != []
    ensures PrintedFields([z] + row, sep) == Printed(z, sep) + (sep + PrintedFields(row, sep))
  {
  }

  /** A two-column import fails on a first line that does not split into two fields or whose second field differs. */
  lemma FirstLineFails(row: seq<string>, text: string, sep: string)
    requires sep != "" && |row| == 2 && text != "" && text == PrintedRows([row], sep)
    requires var pieces := Split(GetLine(text).0, sep, false);
      |pieces| != 2 || Unquote(pieces[1]) != row[1]
    ensures !RoundTrips(sep)
  {
    hide GetLine, Split, Unquote, PrintedRows;
    var rows := [row];
    var (line, rest) := GetLine(text);
    var pieces := Split(line, sep, false);
    if ImportAll(text, sep, 2) != WrongColumns {
      assert ImportAll(text, sep, 2).rows[0] == UnquoteAll(pieces) != row;
    }
    assert ImportAll(text, sep, 2) != Rows(rows);
    assert IsTable(rows, 2);
  }

  /** A separator that starts with a quote, or whose quotes or newlines disturb line assembly. */
  lemma DisturbingSeparatorFails(sep: string)
    requires sep != "" && (sep[0] == '"' || !Balanced(sep, false))
    ensures !RoundTrips(sep)
  {
    hide RoundTrips, PrintedRows, Split;
    var x := Other(sep);
    PrintedPair(x, x, sep);
    var text := [x[0]] + sep + [x[0], '\n'];
    assert x + sep + x + "\n" == text;
    var line := GetLine(text).0;
    assert line <= text;
    if sep[0] == '"' {
      QuoteFirstHides(sep, x[0], line);
    } else {
      UnbalancedTail(sep, x[0]);
      if LineEnd(text, false) == |text| {
        assert |sep| > 1 by { if |sep| == 1 { SingleNewline(sep, x[0]); } }
        WholeTextSplits(sep, x[0]);
      } else {
        CutSeparatorHides(sep, x[0], line);
      }
    }
    FirstLineFails([x, x], text, sep);
  }

  lemma SingleNewline(sep: string, x: char)
    requires |sep| == 1 && sep[0] != '"' && !Balanced(sep, false) && x != '"' && x != '\n'
    ensures LineEnd([x] + sep + [x, '\n'], false) == 1
  {
  }

  lemma UnbalancedTail(sep: string, x: char)
    requires sep != "" && !Balanced(sep, false) && x != '"' && x != '\n'
    ensures var text := [x] + sep + [x, '\n']; var n := LineEnd(text, false);
      n == |text| || n <= |sep|
  {
    var text := [x] + sep + [x, '\n'];
    assert text[1..] == sep + [x, '\n'];
    UnbalancedLine(sep, [x, '\n'], false);
    assert [x, '\n'][1..] == ['\n'] && ['\n'][1..] == [];
    assert LineEnd(['\n'], true) == 1 && LineEnd([x, '\n'], true) == 2;
  }

  /** With the line end swallowed the second field keeps the newline. */
  lemma WholeTextSplits(sep: string, x: char)
    requires sep != "" && sep[0] != '"' && x != sep[0] && x != '"' && !NeedCsvQuote(x)
    requires |sep| >= 2
    ensures Split([x] + sep + [x, '\n'], sep, false) == [[x], [x, '\n']]
  {
    var text := [x] + sep + [x, '\n'];
    assert text[1..] == sep + [x, '\n'];
    SeparatorSplits([x, '\n'], sep);
    forall p | 0 <= p <= 2 ensures !(sep <= [x, '\n'][p..]) {
      assert [x, '\n'][p..] == if p == 0 then [x, '\n'] else if p == 1 then ['\n'] else [];
    }
    OnePiece([x, '\n'], sep, false);
    assert [x] + "" == [x];
  }

  /** A longer separator without a quoting character is not noticed inside a field. */
  lemma PlainLongSeparatorFails(sep: string)
    requires |sep| >= 2 && forall i :: 0 <= i < |sep| ==> !NeedCsvQuote(sep[i])
    ensures !RoundTrips(sep)
  {
    hide RoundTrips, PrintedRows, NeedCsvQuote;
    var x := Other(sep);
    PrintedPair(x + sep, x, sep);
    var line := x + sep + sep + x;
    var text := line + "\n" + "";
    assert text == x + sep + sep + x + "\n";
    forall i | 0 <= i < |line| ensures line[i] != '"' && line[i] != '\n' { PlainIsHarmless(line[i]); }
    PlainBalanced(line);
    BalancedLine(line, "", false);
    assert text[..|line|] == line;
    assert GetLine(text).0 == line;
    ThreePieces(sep, x[0]);
    FirstLineFails([x + sep, x], text, sep);
  }

  lemma PlainIsHarmless(c: char)
    requires !NeedCsvQuote(c)
    ensures c != '"' && c != '\n'
  {
  }

  lemma ThreePieces(sep: string, x: char)
    requires |sep| >= 2 && sep[0] != '"' && x != '"' && x != sep[0]
    ensures |Split([x] + sep + sep + [x], sep, false)| == 3
  {
    var line := [x] + sep + sep + [x];
    assert line[1..] == sep + (sep + [x]);
    SeparatorSplits(sep + [x], sep);
    SeparatorSplits([x], sep);
    forall p | 0 <= p <= 1 ensures !(sep <= [x][p..]) {
      assert |[x][p..]| < 2;
    }
    OnePiece([x], sep, false);
  }

  /** Every table survives printing and importing exactly when the separator is a good one. */
  lemma RoundTripsExactly(sep: string)
    requires sep != ""
    ensures RoundTrips(sep) <==> GoodSeparator(sep)
  {
    if GoodSeparator(sep) {
      forall rows: seq<seq<string>>, nCol: nat | nCol > 0 && IsTable(rows, nCol)
        ensures ImportAll(PrintedRows(rows, sep), sep, nCol) == Rows(rows)
      {
        TableRoundTrip(rows, nCol, sep);
      }
    } else if sep[0] == '"' || !Balanced(sep, false) {
      DisturbingSeparatorFails(sep);
    } else {
      PlainLongSeparatorFails(sep);
    }
  }

  /** For the one-character separators of ordinary use: all but the quote and the newline work. */
  lemma OneCharacterSeparators(c: char)
    ensures RoundTrips([c]) <==> c != '"' && c != '\n'
  {
    RoundTripsExactly([c]);
    assert [c][1..] == "";
    assert Balanced([c], false) <==> c != '"' && c != '\n';
    hide RoundTrips;
  }
}
