/** What the reader makes of any text, printed by this program or not, said without its loops: lines end at newlines
    outside quotes, fields at separators outside quotes, and a run of quotes inside a field is halved. */
module CsvReader {
  import opened CsvFormat
  import opened CsvRoundTrip

  // ---------- Lines

  lemma {:induction false} ParityConcat(s: string, t: string, q: bool)
    ensures Parity(s + t, q) == Parity(t, Parity(s, q))
  {
    if s == "" {
      assert s + t == t;
    } else {
      assert (s + t)[1..] == s[1..] + t;
      ParityConcat(s[1..], t, q != (s[0] == '"'));
    }
  }

  /** No newline outside quotes. */
  ghost predicate Unbroken(s: string, q: bool) {
    forall k :: 0 <= k < |s| && s[k] == '\n' ==> Parity(s[..k], q)
  }

  lemma {:induction false} LineEndExactly(s: string, q: bool, n: nat)
    requires n <= |s|
    ensures LineEnd(s, q) == n <==> Unbroken(s[..n], q) && (n < |s| ==> s[n] == '\n' && !Parity(s[..n], q))
  {
    if s != "" {
      var q' := q != (s[0] == '"');
      if n > 0 {
        LineEndExactly(s[1..], q', n - 1);
        UnbrokenTail(s[..n], q);
        ParityTail(s, q, n);
        assert s[..n][1..] == s[1..][..n-1];
      } else {
        assert s[..0] == "";
      }
    }
  }

  lemma ParityTail(t: string, q: bool, k: nat)
    requires 0 < k <= |t|
    ensures Parity(t[..k], q) == Parity(t[1..][..k-1], q != (t[0] == '"')) && Parity(t[..0], q) == q
  {
    assert t[..k][1..] == t[1..][..k-1] && t[..0] == "";
  }

  lemma UnbrokenTail(t: string, q: bool)
    requires t != ""
    ensures Unbroken(t, q) <==> !(t[0] == '\n' && !q) && Unbroken(t[1..], q != (t[0] == '"'))
  {
    hide Parity;
    var q', u := q != (t[0] == '"'), t[1..];
    ParityTail(t, q, 1);
    if Unbroken(t, q) {
      forall k | 0 <= k < |u| && u[k] == '\n' ensures Parity(u[..k], q') {
        assert t[k+1] == '\n';
        ParityTail(t, q, k + 1);
      }
    }
    if !(t[0] == '\n' && !q) && Unbroken(u, q') {
      forall k | 0 <= k < |t| && t[k] == '\n' ensures Parity(t[..k], q) {
        if k > 0 {
          assert u[k-1] == '\n';
          ParityTail(t, q, k);
        }
      }
    }
  }

  /** The text is the line, its end and the rest: the end is a newline or a carriage return with a newline, whichever
      is longer, and it is the first newline outside quotes; or there is none, and the line is all there is. */
  ghost predicate IsLine(text: string, line: string, rest: string) {
    || (text == line + "\r\n" + rest && Unbroken(line, false) && !Parity(line, false))
    || (text == line + "\n" + rest && Unbroken(line, false) && !Parity(line, false)
        && (line == "" || line[|line|-1] != '\r'))
    || (text == line && rest == "" && Unbroken(line, false))
  }

  lemma ReturnIsPlain(line: string)
    ensures Parity(line + "\r", false) == Parity(line, false)
    ensures Unbroken(line + "\r", false) <==> Unbroken(line, false)
  {
    ParityConcat(line, "\r", false);
    assert "\r"[1..] == "";
    var t := line + "\r";
    forall k | 0 <= k <= |line| ensures t[..k] == line[..k] {}
    assert t[|line|] == '\r';
  }

  lemma LineFound(text: string, line: string, rest: string)
    requires text != "" && IsLine(text, line, rest)
    ensures GetLine(text) == (line, rest)
  {
    if text == line + "\r\n" + rest && Unbroken(line, false) && !Parity(line, false) {
      ReturnIsPlain(line);
      LineEndExactly(text, false, |line| + 1);
      assert text[..|line|+1] == line + "\r";
      assert text[|line|+2..] == rest;
      assert (line + "\r")[..|line|] == line;
    } else if text == line + "\n" + rest && Unbroken(line, false) && !Parity(line, false) {
      LineEndExactly(text, false, |line|);
      assert text[..|line|] == line && text[|line|+1..] == rest;
    } else {
      LineEndExactly(text, false, |text|);
      assert text[..|text|] == text;
    }
    hide LineEnd, Unbroken, Parity;
  }

  /** The line that is read from any text, and what is left of it. */
  lemma LineExactly(text: string, line: string, rest: string)
    requires text != ""
    ensures GetLine(text) == (line, rest) <==> IsLine(text, line, rest)
  {
    if IsLine(text, line, rest) { LineFound(text, line, rest); }
    LineIs(text);
    hide GetLine, IsLine;
  }

  lemma LineIs(text: string)
    requires text != ""
    ensures IsLine(text, GetLine(text).0, GetLine(text).1)
  {
    hide LineEnd, Unbroken, Parity;
    var n, line := LineEnd(text, false), GetLine(text).0;
    LineEndExactly(text, false, n);
    assert text == text[..n] + text[n..];
    if n < |text| {
      assert text == text[..n] + "\n" + text[n+1..];
      if line != text[..n] {
        assert text[..n] == line + "\r";
        ReturnIsPlain(line);
        assert text == line + "\r\n" + text[n+1..];
      }
    } else {
      assert text[..n] == text;
    }
  }

  /** The printed rows, each closed by a newline or, where `crlf` says so, by a carriage return and a newline. */
  function PrintedLines(rows: seq<seq<string>>, sep: string, crlf: seq<bool>): string
    requires |crlf| == |rows|
  {
    if rows == [] then ""
    else PrintedFields(rows[0], sep) + (if crlf[0] then "\r\n" else "\n") + PrintedLines(rows[1..], sep, crlf[1..])
  }

  lemma {:induction false} BalancedIsLine(s: string, q: bool)
    requires Balanced(s, q)
    ensures Unbroken(s, q) && !Parity(s, q)
  {
    if s != "" {
      BalancedIsLine(s[1..], q != (s[0] == '"'));
      UnbrokenTail(s, q);
    }
  }

  lemma PrintedLineReads(row: seq<string>, sep: string, eol: string, rest: string)
    requires row != [] && GoodSeparator(sep) && eol in ["\n", "\r\n"]
    ensures var line := PrintedFields(row, sep); GetLine(line + eol + rest) == (line, rest)
  {
    hide PrintedFields, GoodSeparator, GetLine, Balanced, Unbroken, Parity;
    var line := PrintedFields(row, sep);
    FieldsBalanced(row, sep);
    BalancedIsLine(line, false);
    NoTrailingReturn(row, sep);
    LineFound(line + eol + rest, line, rest);
  }

  lemma NothingImports(sep: string, nCol: nat)
    requires GoodSeparator(sep)
    ensures ImportAll(PrintedLines([], sep, []), sep, nCol) == Rows([])
  {
  }

  lemma TableTail(rows: seq<seq<string>>, nCol: nat, sep: string, crlf: seq<bool>)
    requires rows != [] && IsTable(rows, nCol) && GoodSeparator(sep) && |crlf| == |rows|
    ensures PrintedLines(rows, sep, crlf) ==
      PrintedFields(rows[0], sep) + (if crlf[0] then "\r\n" else "\n") + PrintedLines(rows[1..], sep, crlf[1..])
    ensures IsTable(rows[1..], nCol) && |rows[0]| == nCol && sep != ""
  {
    hide PrintedFields;
  }

  /** Either line end, row by row, is cut off: with a good separator every table comes back. */
  lemma {:induction false} AnyLineEndsImport(rows: seq<seq<string>>, nCol: nat, sep: string, crlf: seq<bool>)
    requires nCol > 0 && IsTable(rows, nCol) && GoodSeparator(sep) && |crlf| == |rows|
    ensures ImportAll(PrintedLines(rows, sep, crlf), sep, nCol) == Rows(rows)
    decreases |rows|
  {
    hide GetLine, Split, PrintedFields, PrintedLines, ImportAll, UnquoteAll, IsTable, GoodSeparator;
    if rows == [] {
      NothingImports(sep, nCol);
    } else {
      var row, more, eol := rows[0], rows[1..], if crlf[0] then "\r\n" else "\n";
      var line, rest := PrintedFields(row, sep), PrintedLines(more, sep, crlf[1..]);
      TableTail(rows, nCol, sep, crlf);
      PrintedLineReads(row, sep, eol, rest);
      RowRoundTrip(row, sep, rest);
      FieldsSplit(row, sep);
      AnyLineEndsImport(more, nCol, sep, crlf[1..]);
      ImportStep(line + eol + rest, line, rest, row, more, nCol, sep);
      assert [row] + more == rows;
    }
  }

  // ---------- Fields

  /** In s followed by rest, no separator starts outside quotes at position p; a quote there counts already. */
  ghost predicate UncutAt(s: string, rest: string, sep: string, q: bool, p: nat)
    requires p < |s|
  {
    Parity(s[..p+1], q) || !(sep <= s[p..] + rest)
  }

  ghost predicate Uncut(s: string, rest: string, sep: string, q: bool) {
    forall p: nat :: p < |s| ==> UncutAt(s, rest, sep, q, p)
  }

  /** A separator follows outside quotes. */
  ghost predicate CutAt(rest: string, sep: string, q: bool) {
    sep != "" && sep <= rest && q == (sep[0] == '"')
  }

  /** The pieces lie between the separators outside quotes, each piece starting outside quotes, and no separator is
      left in any of them. */
  ghost predicate Pieces(line: string, sep: string, pieces: seq<string>)
    decreases |pieces|
  {
    && pieces != [] && pieces[0] <= line
    && var rest := line[|pieces[0]|..];
       && Uncut(pieces[0], rest, sep, false)
       && if |pieces| == 1 then rest == ""
          else CutAt(rest, sep, Parity(pieces[0], false)) && Pieces(rest[|sep|..], sep, pieces[1..])
  }

  lemma UncutAtTail(s: string, rest: string, sep: string, q: bool, p: nat)
    requires p < |s|
    ensures UncutAt(s, rest, sep, q, p) <==>
      var q' := q != (s[0] == '"');
      if p == 0 then q' || !(sep <= s + rest) else UncutAt(s[1..], rest, sep, q', p - 1)
  {
    ParityTail(s, q, p + 1);
    assert s[0..] == s && (p > 0 ==> s[p..] == s[1..][p-1..]);
  }

  lemma UncutTail(s: string, rest: string, sep: string, q: bool)
    requires s != ""
    ensures var q' := q != (s[0] == '"');
      Uncut(s, rest, sep, q) <==> (q' || !(sep <= s + rest)) && Uncut(s[1..], rest, sep, q')
  {
    forall p: nat | p < |s| { UncutAtTail(s, rest, sep, q, p); }
    hide UncutAt;
    var q', t := q != (s[0] == '"'), s[1..];
    if Uncut(s, rest, sep, q) {
      assert UncutAt(s, rest, sep, q, 0);
      forall p: nat | p < |t| ensures UncutAt(t, rest, sep, q', p) { assert UncutAt(s, rest, sep, q, p + 1); }
    }
    if Uncut(t, rest, sep, q') && UncutAt(s, rest, sep, q, 0) {
      forall p: nat | p < |s| ensures UncutAt(s, rest, sep, q, p) {
        if p > 0 { assert UncutAt(t, rest, sep, q', p - 1); }
      }
    }
  }

  lemma {:induction false} UncutIsUnsplit(s: string, rest: string, sep: string, q: bool)
    ensures Uncut(s, rest, sep, q) <==> Unsplit(s, rest, sep, q)
  {
    if s != "" {
      UncutTail(s, rest, sep, q);
      UncutIsUnsplit(s[1..], rest, sep, q != (s[0] == '"'));
    }
  }

  /** The next piece, if it is s. */
  lemma PieceFound(s: string, rest: string, sep: string)
    requires sep != "" && Uncut(s, rest, sep, false)
    ensures rest == "" ==> Split(s + rest, sep, false) == [s]
    ensures CutAt(rest, sep, Parity(s, false)) ==>
      Split(s + rest, sep, false) == [s] + Split(rest[|sep|..], sep, false)
  {
    UncutIsUnsplit(s, rest, sep, false);
    UnsplitGlues(s, rest, sep, false);
    assert s + "" == s;
  }

  lemma {:induction false} PiecesAreSplit(line: string, sep: string, pieces: seq<string>)
    requires sep != "" && Pieces(line, sep, pieces)
    ensures Split(line, sep, false) == pieces
    decreases |pieces|
  {
    var s, rest := pieces[0], line[|pieces[0]|..];
    assert line == s + rest;
    PieceFound(s, rest, sep);
    if |pieces| == 1 {
      assert pieces == [s];
    } else {
      PiecesAreSplit(rest[|sep|..], sep, pieces[1..]);
      assert pieces == [s] + pieces[1..];
    }
  }

  lemma UncutMore(line: string, p: nat, sep: string)
    requires p < |line| && Uncut(line[..p], line[p..], sep, false)
    requires Parity(line[..p+1], false) || !(sep <= line[p..])
    ensures Uncut(line[..p+1], line[p+1..], sep, false)
  {
    var s, t, rest := line[..p], line[..p+1], line[p+1..];
    forall k: nat | k < |t| ensures UncutAt(t, rest, sep, false, k) {
      assert t[k..] + rest == line[k..] && t[..k+1] == line[..k+1];
      if k < p {
        assert s[k..] + line[p..] == line[k..] && s[..k+1] == line[..k+1];
        assert UncutAt(s, line[p..], sep, false, k);
      }
    }
  }

  /** The first separator outside quotes, or the end of the line. */
  lemma FirstCut(line: string, sep: string) returns (p: nat)
    requires sep != ""
    ensures p <= |line| && Uncut(line[..p], line[p..], sep, false)
    ensures p < |line| ==> CutAt(line[p..], sep, Parity(line[..p], false))
  {
    p := 0;
    while p < |line| && (Parity(line[..p+1], false) || !(sep <= line[p..]))
      invariant p <= |line| && Uncut(line[..p], line[p..], sep, false)
    {
      UncutMore(line, p, sep);
      p := p + 1;
    }
    if p < |line| {
      ParityConcat(line[..p], [line[p]], false);
      assert line[..p] + [line[p]] == line[..p+1] && [line[p]][1..] == "";
      assert sep[0] == line[p..][0];
    }
  }

  lemma {:induction false} SplitIsPieces(line: string, sep: string)
    requires sep != ""
    ensures Pieces(line, sep, Split(line, sep, false))
    decreases |line|
  {
    var p := FirstCut(line, sep);
    var s, rest := line[..p], line[p..];
    assert line == s + rest;
    PieceFound(s, rest, sep);
    if p < |line| {
      SplitIsPieces(rest[|sep|..], sep);
      assert ([s] + Split(rest[|sep|..], sep, false))[1..] == Split(rest[|sep|..], sep, false);
    }
  }

  /** Any line is split into exactly the pieces between its separators outside quotes. */
  lemma SplitExactly(line: string, sep: string, pieces: seq<string>)
    requires sep != ""
    ensures Split(line, sep, false) == pieces <==> Pieces(line, sep, pieces)
  {
    SplitIsPieces(line, sep);
    if Pieces(line, sep, pieces) { PiecesAreSplit(line, sep, pieces); }
  }

  // ---------- Quotes

  function Run(n: nat): (s: string)
    ensures |s| == n && forall k :: 0 <= k < n ==> s[k] == '"'
  {
    seq(n, _ => '"')
  }

  lemma StripPlain(c: char, z: string)
    requires c != '"'
    ensures Strip([c] + z) == [c] + Strip(z)
  {
  }

  lemma StripQuoted(c: char, z: string)
    ensures Strip(['"', c] + z) == [c] + Strip(z) && Strip("\"") == ""
  {
    assert (['"', c] + z)[2..] == z;
  }

  lemma LoneQuote(b: string)
    requires b == "" || b[0] != '"'
    ensures Strip("\"" + b) == Strip(b)
  {
    if b != "" {
      StripQuoted(b[0], b[1..]);
      StripPlain(b[0], b[1..]);
      assert "\"" + b == ['"', b[0]] + b[1..] && [b[0]] + b[1..] == b;
    } else {
      assert "\"" + b == "\"";
    }
  }

  lemma {:induction false} RunIsHalved(n: nat, b: string)
    requires b == "" || b[0] != '"'
    ensures Strip(Run(n) + b) == Run(n / 2) + Strip(b)
    decreases n
  {
    hide Strip;
    if n < 2 {
      LoneQuote(b);
      assert Run(n) + b == (if n == 1 then "\"" + b else b) && Run(0) + Strip(b) == Strip(b);
      return;
    }
    RunIsHalved(n - 2, b);
    StripQuoted('"', Run(n - 2) + b);
    var h := n / 2 - 1;
    assert Run(n) + b == ['"', '"'] + (Run(n - 2) + b);
    assert ['"'] + (Run(h) + Strip(b)) == Run(h + 1) + Strip(b);
  }

  /** Inside a quoted field every run of quotes is halved, an odd one rounded down, and nothing else is changed. */
  lemma {:induction false} RunsAreHalved(a: string, n: nat, b: string)
    requires '"' !in a && (b == "" || b[0] != '"')
    ensures Strip(a + Run(n) + b) == a + Run(n / 2) + Strip(b)
    decreases |a|
  {
    if a != "" {
      RunsAreHalved(a[1..], n, b);
      StripPlain(a[0], a[1..] + Run(n) + b);
      assert a + Run(n) + b == [a[0]] + (a[1..] + Run(n) + b);
      assert [a[0]] + (a[1..] + Run(n / 2) + Strip(b)) == a + Run(n / 2) + Strip(b);
    } else {
      RunIsHalved(n, b);
      assert a + Run(n) + b == Run(n) + b && a + Run(n / 2) + Strip(b) == Run(n / 2) + Strip(b);
    }
  }
}
