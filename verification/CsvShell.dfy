/** The CSV writer and the .import reader of Sqlite3.07.14-run/shell.c, proved against CsvFormat. */
module CsvShell {
  import opened CBasics
  import opened CsvFormat
  import opened CsvRoundTrip

  /** What output_csv prints for one column. */
  function Shown(z: Option<string>, sep: string, nullvalue: string): string {
    match z
    case None => nullvalue
    case Some(s) => Printed(s, sep)
  }

  function ShownFields(azArg: seq<Option<string>>, sep: string, nullvalue: string): string {
    if azArg == [] then ""
    else Shown(azArg[0], sep, nullvalue) + if |azArg| == 1 then "" else sep + ShownFields(azArg[1..], sep, nullvalue)
  }

  /** Without NULLs a printed row is the row of its fields. */
  lemma {:induction false} ShownWithoutNulls(azArg: seq<Option<string>>, row: seq<string>, sep: string,
                                             nullvalue: string)
    requires |azArg| == |row| && forall i :: 0 <= i < |row| ==> azArg[i] == Some(row[i])
    ensures ShownFields(azArg, sep, nullvalue) == PrintedFields(row, sep)
  {
    if row != [] {
      ShownWithoutNulls(azArg[1..], row[1..], sep, nullvalue);
    }
  }

  lemma {:induction false} DoubledSnoc(z: string, c: char)
    ensures Doubled(z + [c]) == Doubled(z) + if c == '"' then "\"\"" else [c]
  {
    if z == "" {
      assert z + [c] == [c];
      assert [c][1..] == "";
      assert Doubled([c][1..]) == "";
    } else {
      assert (z + [c])[1..] == z[1..] + [c];
      DoubledSnoc(z[1..], c);
    }
  }

  class Shell {
    const separator: string
    const nullvalue: string
    var out: string

    constructor (separator: string, nullvalue: string)
      ensures this.separator == separator && this.nullvalue == nullvalue && out == ""
    {
      this.separator := separator;
      this.nullvalue := nullvalue;
      out := "";
    }

    /** The scan that decides about quoting: 0 means the field must be quoted. */
    method ScanField(z: string) returns (i: nat)
      ensures i == 0 <==> MustQuote(z, separator)
    {
      var nSep := |separator|;
      i := 0;
      while i < |z|
        invariant i <= |z| && forall k :: 0 <= k < i ==> !Triggers(z, separator, k)
      {
        if NeedCsvQuote(z[i]) || (z[i] == At(separator, 0) && (nSep == 1 || separator <= z)) {
          assert Triggers(z, separator, i);
          return 0;
        }
        i := i + 1;
      }
    }

    /** output_csv */
    method OutputCsv(z: Option<string>, bSep: bool)
      modifies this
      ensures out == old(out) + Shown(z, separator, nullvalue) + if bSep then separator else ""
    {
      if z.None? {
        out := out + nullvalue;
      } else {
        var i := ScanField(z.value);
        if i == 0 {
          PutQuoted(z.value);
        } else {
          out := out + z.value;
        }
      }
      if bSep { out := out + separator; }
    }

    method PutQuoted(z: string)
      modifies this
      ensures out == old(out) + "\"" + Doubled(z) + "\""
    {
      out := out + "\"";
      for i := 0 to |z|
        invariant out == old(out) + "\"" + Doubled(z[..i])
      {
        DoubledSnoc(z[..i], z[i]);
        assert z[..i+1] == z[..i] + [z[i]];
        if z[i] == '"' { out := out + "\""; }
        out := out + [z[i]];
      }
      assert z[..|z|] == z;
      out := out + "\"";
    }

    /** The MODE_Csv branch of shell_callback for one result row. */
    method PrintRow(azArg: seq<Option<string>>)
      modifies this
      ensures out == old(out) + ShownFields(azArg, separator, nullvalue) + "\n"
    {
      for i := 0 to |azArg|
        invariant old(out) + ShownFields(azArg, separator, nullvalue) ==
          out + ShownFields(azArg[i..], separator, nullvalue)
      {
        OutputCsv(azArg[i], i < |azArg| - 1);
        assert azArg[i..][1..] == azArg[i+1..];
      }
      out := out + "\n";
    }
  }

  // ---------- Reading lines

  /** A stdio stream over a whole text. */
  class InFile {
    const data: string
    var pos: nat

    ghost predicate Valid()
      reads this
    {
      pos <= |data|
    }

    constructor (data: string)
      ensures Valid() && this.data == data && pos == 0
    {
      this.data := data;
      pos := 0;
    }

    /** fgets with room for n-1 characters: stops after a newline, None at the end of the text. */
    method Fgets(n: nat) returns (chunk: Option<string>)
      requires Valid() && n >= 2
      modifies this
      ensures Valid()
      ensures chunk.None? <==> old(pos) == |data|
      ensures chunk.None? ==> pos == old(pos)
      ensures chunk.Some? ==>
                && old(pos) < pos < old(pos) + n && chunk.value == data[old(pos)..pos]
                && (forall k :: 0 <= k < |chunk.value| - 1 ==> chunk.value[k] != '\n')
    {
      if pos == |data| { return None; }
      var e := pos;
      while e - pos < n - 1 && e < |data|
        invariant pos <= e <= |data| && e - pos <= n - 1
        invariant forall m :: pos <= m < e ==> data[m] != '\n'
      {
        e := e + 1;
        if data[e - 1] == '\n' { break; }
      }
      chunk := Some(data[pos..e]);
      pos := e;
    }
  }

  /** A chunk whose only newline can be its last character either ends the line or lies inside it. */
  lemma {:induction false} ChunkInLine(chunk: string, rest: string, q: bool)
    requires chunk != "" && forall k :: 0 <= k < |chunk| - 1 ==> chunk[k] != '\n'
    ensures LineEnd(chunk + rest, q) ==
            if chunk[|chunk|-1] == '\n' && !Parity(chunk, q) then |chunk| - 1
            else |chunk| + LineEnd(rest, Parity(chunk, q))
    decreases |chunk|
  {
    assert (chunk + rest)[1..] == chunk[1..] + rest;
    if |chunk| == 1 {
      assert chunk[1..] == "" && chunk[1..] + rest == rest;
    } else {
      ChunkInLine(chunk[1..], rest, q != (chunk[0] == '"'));
    }
  }

  method CountQuotes(chunk: string, q: bool) returns (inQuote: bool)
    ensures inQuote == Parity(chunk, q)
  {
    inQuote := q;
    for n := 0 to |chunk|
      invariant Parity(chunk, q) == Parity(chunk[n..], inQuote)
    {
      assert chunk[n..][1..] == chunk[n+1..];
      if chunk[n] == '"' { inQuote := !inQuote; }
    }
  }

  /** The line read so far is `got`, still open with quote state q, and `rest` is the unread text. */
  ghost predicate LineSoFar(text: string, got: string, rest: string, q: bool) {
    text == got + rest && LineEnd(text, false) == |got| + LineEnd(rest, q)
  }

  lemma LineGrows(text: string, got: string, q: bool, chunk: string, rest: string)
    requires LineSoFar(text, got, chunk + rest, q)
    requires chunk != "" && forall k :: 0 <= k < |chunk| - 1 ==> chunk[k] != '\n'
    ensures var now := got + chunk;
      if now[|now|-1] == '\n' && !Parity(chunk, q)
      then GetLine(text) == (ChopReturn(now[..|now|-1]), rest)
      else LineSoFar(text, now, rest, Parity(chunk, q))
  {
    hide LineEnd, Parity, ChopReturn;
    ChunkInLine(chunk, rest, q);
    var now := got + chunk;
    assert text == now + rest;
    assert text[..|now|-1] == now[..|now|-1] && text[|now|..] == rest;
  }

  lemma LineAtEnd(text: string, got: string, q: bool)
    requires LineSoFar(text, got, "", q) && text != ""
    ensures GetLine(text) == (got, "")
  {
    assert got + "" == got;
  }

  /** One turn of the loop in local_getline: reads a chunk of at most `room`-1 bytes; `done` when the line is
      complete. */
  method ReadMore(f: InFile, ghost text: string, zLine: string, room: nat, inQuote: bool)
    returns (done: bool, now: string, q: bool)
    requires f.Valid() && room >= 2 && LineSoFar(text, zLine, f.data[f.pos..], inQuote)
    modifies f
    ensures f.Valid() && f.pos >= old(f.pos)
    ensures !done ==> f.pos > old(f.pos) && |now| == |zLine| + f.pos - old(f.pos) < |zLine| + room
    ensures !done ==> LineSoFar(text, now, f.data[f.pos..], q)
    ensures done && f.pos == old(f.pos) ==> f.pos == |f.data| && now == zLine
    ensures done && text != "" ==> GetLine(text) == (now, f.data[f.pos..])
  {
    hide LineSoFar, GetLine, Parity, ChopReturn;
    ghost var rest := f.data[f.pos..];
    var chunk := f.Fgets(room);
    if chunk.None? {
      assert rest == "";
      if text != "" { LineAtEnd(text, zLine, inQuote); }
      return true, zLine, inQuote;
    }
    assert rest == chunk.value + f.data[f.pos..];
    LineGrows(text, zLine, inQuote, chunk.value, f.data[f.pos..]);
    q := CountQuotes(chunk.value, inQuote);
    now := zLine + chunk.value;
    done := now[|now|-1] == '\n' && !q;
    if done { now := CutLineEnd(now); }
  }

  /** local_getline with csvFlag set. */
  method LocalGetline(f: InFile) returns (line: Option<string>)
    requires f.Valid()
    modifies f
    ensures f.Valid()
    ensures line.None? <==> old(f.pos) == |f.data|
    ensures line.None? ==> f.pos == old(f.pos)
    ensures line.Some? ==> f.pos > old(f.pos) && GetLine(f.data[old(f.pos)..]) == (line.value, f.data[f.pos..])
  {
    ghost var text := f.data[f.pos..];
    var start := f.pos;
    var nLine, zLine, inQuote, done := 100, "", false, false;
    assert "" + text == text;
    assert LineSoFar(text, zLine, text, inQuote);
    hide LineSoFar, GetLine;
    while !done
      invariant f.Valid() && f.pos >= old(f.pos)
      invariant !done ==> |zLine| == f.pos - old(f.pos) < nLine && LineSoFar(text, zLine, f.data[f.pos..], inQuote)
      invariant done && f.pos == old(f.pos) ==> f.pos == |f.data|
      invariant done && text != "" ==> GetLine(text) == (zLine, f.data[f.pos..])
      decreases !done, |f.data| - f.pos
    {
      if |zLine| + 100 > nLine { nLine := nLine * 2 + 100; }
      done, zLine, inQuote := ReadMore(f, text, zLine, nLine - |zLine|, inQuote);
    }
    line := if f.pos == start then None else Some(zLine);
  }

  /** zLine[n] = 0 after stepping back over the newline and a carriage return before it. */
  function CutLineEnd(zLine: string): (s: string)
    requires zLine != ""
    ensures s == ChopReturn(zLine[..|zLine|-1])
  {
    var n := |zLine| - 1;
    if n > 0 && zLine[n-1] == '\r' then zLine[..n-1] else zLine[..n]
  }

  // ---------- Cutting a line into fields, in place

  const NUL: char := '\0'

  ghost predicate NulFree(s: string) {
    forall k :: 0 <= k < |s| ==> s[k] != NUL
  }

  /** The C string that starts at p is s. */
  ghost predicate StringAt(buf: string, p: nat, s: string) {
    p + |s| < |buf| && buf[p..p+|s|] == s && buf[p+|s|] == NUL && NulFree(s)
  }

  /** The C strings at the first |pieces| column offsets, one after the other in the buffer. */
  ghost predicate Cells(buf: string, azCol: seq<nat>, pieces: seq<string>) {
    && |pieces| <= |azCol|
    && (forall k :: 0 <= k < |pieces| ==> StringAt(buf, azCol[k], pieces[k]))
    && (forall k, m :: 0 <= k < m < |pieces| ==> azCol[k] + |pieces[k]| < azCol[m])
  }

  /** Where the splitter stands: `done` are the finished pieces, the current one started at `start`. */
  ghost predicate Cutting(line: string, sep: string, done: seq<string>, start: nat, z: nat, q: bool)
    requires sep != ""
  {
    && start <= z <= |line|
    && Split(line, sep, false) == done + Glue(line[start..z], Split(line[z..], sep, q))
  }

  lemma CuttingChar(line: string, sep: string, done: seq<string>, start: nat, z: nat, q: bool)
    requires sep != "" && Cutting(line, sep, done, start, z, q) && z < |line|
    requires var q' := q != (line[z] == '"'); q' || !(sep <= line[z..])
    ensures Cutting(line, sep, done, start, z + 1, q != (line[z] == '"'))
  {
    var q' := q != (line[z] == '"');
    assert line[z..][1..] == line[z+1..];
    GlueGlue(line[start..z], [line[z]], Split(line[z+1..], sep, q'));
    assert line[start..z] + [line[z]] == line[start..z+1];
  }

  lemma CuttingSeparator(line: string, sep: string, done: seq<string>, start: nat, z: nat, q: bool)
    requires sep != "" && Cutting(line, sep, done, start, z, q) && z < |line|
    requires q == (line[z] == '"') && sep <= line[z..]
    ensures Cutting(line, sep, done + [line[start..z]], z + |sep|, z + |sep|, false)
  {
    assert line[z..][|sep|..] == line[z+|sep|..];
    var rest := Split(line[z+|sep|..], sep, false);
    assert Glue(line[start..z], [""] + rest) == [line[start..z] + ""] + rest;
    assert line[start..z] + "" == line[start..z];
    GlueEmpty(rest);
    assert line[z+|sep|..z+|sep|] == "";
  }

  lemma CuttingEnd(line: string, sep: string, done: seq<string>, start: nat, q: bool)
    requires sep != "" && Cutting(line, sep, done, start, |line|, q)
    ensures Split(line, sep, false) == done + [line[start..]]
  {
    assert line[|line|..] == "";
    assert line[start..|line|] + "" == line[start..];
  }

  /** The state of the splitting loop.  Once more separators than columns were seen only the count matters. */
  ghost predicate Splitting(line: string, sep: string, buf: string, azCol: seq<nat>, done: seq<string>, i: nat,
                            z: nat, q: bool)
    requires sep != ""
  {
    && |buf| == |line| + 1 && z <= |line| && NulFree(line)
    && (forall k :: z <= k < |buf| ==> buf[k] == (line + [NUL])[k])
    && if i < |azCol| then
         && |done| == i && Cutting(line, sep, done, azCol[i], z, q)
         && (forall k :: azCol[i] <= k < z ==> buf[k] == line[k])
         && Cells(buf, azCol, done)
         && (forall k :: 0 <= k < i ==> azCol[k] + |done[k]| < azCol[i])
       else
         |Split(line, sep, false)| > |azCol|
  }

  lemma SplittingChar(line: string, sep: string, buf: string, azCol: seq<nat>, done: seq<string>, i: nat, z: nat,
                      q: bool)
    requires sep != "" && Splitting(line, sep, buf, azCol, done, i, z, q) && z < |line|
    requires i < |azCol| ==> (q != (line[z] == '"')) || !(sep <= line[z..])
    ensures Splitting(line, sep, buf, azCol, done, i, z + 1, q != (line[z] == '"'))
  {
    hide Split, Cells;
    if i < |azCol| {
      hide Cutting;
      CuttingChar(line, sep, done, azCol[i], z, q);
    }
  }

  lemma SplittingSeparator(line: string, sep: string, buf: string, azCol: seq<nat>, done: seq<string>, i: nat, z: nat,
                           q: bool)
    requires sep != "" && Splitting(line, sep, buf, azCol, done, i, z, q) && z < |line|
    requires q == (line[z] == '"') && sep <= line[z..] && i < |azCol|
    ensures var now := done + [line[azCol[i]..z]];
      if i + 1 < |azCol|
      then Splitting(line, sep, buf[z := NUL], azCol[i+1 := z + |sep|], now, i + 1, z + |sep|, false)
      else Splitting(line, sep, buf[z := NUL], azCol, now, i + 1, z + 1, false)
  {
    var piece := line[azCol[i]..z];
    var now, buf' := done + [piece], buf[z := NUL];
    CuttingSeparator(line, sep, done, azCol[i], z, q);
    assert buf'[azCol[i]..z] == piece;
    forall k | 0 <= k < i ensures StringAt(buf', azCol[k], now[k]) {
      assert StringAt(buf, azCol[k], done[k]);
      assert buf'[azCol[k]..azCol[k]+|done[k]|] == buf[azCol[k]..azCol[k]+|done[k]|];
    }
    assert StringAt(buf', azCol[i], now[i]);
    hide StringAt, Split;
  }

  /** At the end of the line the last column is closed by the line's own NUL. */
  lemma SplittingDone(line: string, sep: string, buf: string, azCol: seq<nat>, done: seq<string>, i: nat, q: bool)
    requires sep != "" && Splitting(line, sep, buf, azCol, done, i, |line|, q)
    ensures i + 1 == |azCol| <==> |Split(line, sep, false)| == |azCol|
    ensures i + 1 == |azCol| ==> Cells(buf, azCol, Split(line, sep, false))
  {
    if i < |azCol| {
      CuttingEnd(line, sep, done, azCol[i], q);
      assert buf[azCol[i]..|line|] == line[azCol[i]..];
      assert StringAt(buf, azCol[i], line[azCol[i]..]);
      hide StringAt, Split;
    }
  }

  /** strncmp(&zLine[z], sep, nSep)==0 */
  predicate SeparatorAt(zLine: array<char>, z: nat, sep: string)
    reads zLine
  {
    z + |sep| <= zLine.Length && zLine[z..z+|sep|] == sep
  }

  lemma SeparatorSeen(line: string, buf: string, z: nat, sep: string)
    requires |buf| == |line| + 1 && z < |line| && NulFree(sep) && sep != ""
    requires forall k :: z <= k < |buf| ==> buf[k] == (line + [NUL])[k]
    ensures (z + |sep| <= |buf| && buf[z..z+|sep|] == sep) <==> sep <= line[z..]
  {
    if z + |sep| == |buf| {
      assert buf[z..z+|sep|][|sep|-1] == NUL;
    }
    if z + |sep| <= |line| {
      assert buf[z..z+|sep|] == line[z..][..|sep|];
    }
  }

  /** The splitting loop of .import: separators outside quotes become NUL, azCol collects the field starts, and
      one more than the number of separators found is compared with nCol. */
  method SplitInPlace(zLine: array<char>, ghost line: string, sep: string, nCol: nat, azCol: array<nat>)
    returns (ok: bool)
    requires sep != "" && NulFree(sep) && nCol > 0 && azCol.Length == nCol && NulFree(line)
    requires zLine[..] == line + [NUL]
    modifies zLine, azCol
    ensures ok <==> |Split(line, sep, false)| == nCol
    ensures ok ==> Cells(zLine[..], azCol[..], Split(line, sep, false))
  {
    ghost var done: seq<string> := [];
    azCol[0] := 0;
    var i: nat, z: nat, inQuote := 0, 0, false;
    SplittingStart(line, sep, azCol[..]);
    hide Split, Cells;
    while zLine[z] != NUL
      invariant Splitting(line, sep, zLine[..], azCol[..], done, i, z, inQuote)
      decreases |line| - z
    {
      i, z, inQuote, done := SplitStep(zLine, line, sep, azCol, done, i, z, inQuote);
    }
    SplittingDone(line, sep, zLine[..], azCol[..], done, i, inQuote);
    ok := i + 1 == nCol;
  }

  lemma SplittingStart(line: string, sep: string, azCol: seq<nat>)
    requires sep != "" && NulFree(line) && azCol != [] && azCol[0] == 0
    ensures Splitting(line, sep, line + [NUL], azCol, [], 0, 0, false)
  {
    assert line[0..] == line && line[0..0] == "";
    GlueEmpty(Split(line, sep, false));
  }

  /** The loop body for the character at z. */
  method SplitStep(zLine: array<char>, ghost line: string, sep: string, azCol: array<nat>, ghost done0: seq<string>,
                   i0: nat, z0: nat, inQuote0: bool)
    returns (i: nat, z: nat, inQuote: bool, ghost done: seq<string>)
    requires sep != "" && NulFree(sep)
    requires Splitting(line, sep, zLine[..], azCol[..], done0, i0, z0, inQuote0) && z0 < |line|
    modifies zLine, azCol
    ensures Splitting(line, sep, zLine[..], azCol[..], done, i, z, inQuote) && z > z0
  {
    hide Split, Cells, Cutting;
    i, z, inQuote, done := i0, z0, inQuote0, done0;
    var c := zLine[z];
    if c == '"' { inQuote := !inQuote; }
    SeparatorSeen(line, zLine[..], z, sep);
    if !inQuote && c == sep[0] && SeparatorAt(zLine, z, sep) {
      i, z, done := CutHere(zLine, line, sep, azCol, done0, i0, z0, inQuote0);
    } else {
      SplittingChar(line, sep, zLine[..], azCol[..], done0, i0, z0, inQuote0);
    }
    z := z + 1;
  }

  /** A separator outside quotes: it becomes NUL, and while columns are left the next one starts after it. */
  method CutHere(zLine: array<char>, ghost line: string, sep: string, azCol: array<nat>, ghost done0: seq<string>,
                 i0: nat, z0: nat, ghost q: bool)
    returns (i: nat, z: nat, ghost done: seq<string>)
    requires z0 < |line| && sep != "" && sep <= line[z0..] && q == (line[z0] == '"')
    requires Splitting(line, sep, zLine[..], azCol[..], done0, i0, z0, q)
    modifies zLine, azCol
    ensures z >= z0 && Splitting(line, sep, zLine[..], azCol[..], done, i, z + 1, false)
  {
    hide Split, Cells;
    ghost var buf, cols := zLine[..], azCol[..];
    i, z, done := i0, z0, done0;
    if i0 < azCol.Length {
      SplittingSeparator(line, sep, buf, cols, done0, i0, z0, q);
      done := done0 + [line[azCol[i0]..z0]];
    }
    hide Cutting;
    zLine[z] := NUL;
    assert zLine[..] == buf[z := NUL];
    i := i + 1;
    if i < azCol.Length {
      var next: nat := z + |sep|;
      azCol[i] := next;
      assert azCol[..] == cols[i := next];
      z := z + |sep| - 1;
    }
  }

  lemma {:induction false} StripShrinks(z: string)
    ensures |Strip(z)| <= |z|
    ensures NulFree(z) ==> NulFree(Strip(z))
    decreases |z|
  {
    if z != "" {
      if z[0] == '"' {
        if |z| > 1 { StripShrinks(z[2..]); }
      } else {
        StripShrinks(z[1..]);
      }
    }
  }

  /** The unquoting loop: k characters are written, j is read next; together they still make the result. */
  ghost predicate Unquoting(buf: string, was: string, start: nat, piece: string, k: nat, j: nat) {
    && |buf| == |was| && StringAt(was, start, piece) && k < j <= |piece|
    && (forall m :: 0 <= m < |buf| && !(start <= m < start + k) ==> buf[m] == was[m])
    && buf[start..start+k] + Strip(piece[j..]) == Strip(piece[1..])
  }

  lemma UnquotingStep(buf: string, was: string, start: nat, piece: string, k: nat, j: nat)
    requires Unquoting(buf, was, start, piece, k, j) && j < |piece|
    ensures piece[j] != '"' ==> Unquoting(buf[start + k := piece[j]], was, start, piece, k + 1, j + 1)
    ensures piece[j] == '"' && j + 1 < |piece| ==>
              Unquoting(buf[start + k := piece[j + 1]], was, start, piece, k + 1, j + 2)
    ensures piece[j] == '"' && j + 1 == |piece| ==> buf[start..start+k] == Strip(piece[1..])
  {
    assert piece[j..][1..] == piece[j+1..];
    if j + 1 < |piece| {
      assert piece[j..][2..] == piece[j+2..];
    }
    var written := buf[start..start+k];
    forall c, rest: string ensures written + ([c] + rest) == written + [c] + rest {}
    forall c ensures buf[start + k := c][start..start+k+1] == written + [c] {}
    assert written + "" == written;
  }

  /** Reading ahead of the writes sees the original characters and the closing NUL. */
  lemma UnquotingReads(buf: string, was: string, start: nat, piece: string, k: nat, j: nat)
    requires Unquoting(buf, was, start, piece, k, j)
    ensures start + |piece| < |buf| && k < j <= |piece|
    ensures if j < |piece| then buf[start + j] == piece[j] != NUL else buf[start + j] == NUL
    ensures j < |piece| ==> if j + 1 < |piece| then buf[start + j + 1] == piece[j+1] != NUL
      else buf[start + j + 1] == NUL
  {
  }

  lemma UnquotingEnds(buf: string, was: string, start: nat, piece: string, k: nat, j: nat)
    requires Unquoting(buf, was, start, piece, k, j) && piece != "" && piece[0] == '"'
    requires buf[start..start+k] == Strip(piece[1..])
    ensures var end := buf[start + k := NUL];
      && StringAt(end, start, Unquote(piece)) && |Unquote(piece)| <= |piece|
      && forall m :: 0 <= m < |buf| && !(start <= m <= start + |piece|) ==> end[m] == was[m]
  {
    StripShrinks(piece[1..]);
    assert buf[start + k := NUL][start..start+k] == buf[start..start+k];
  }

  lemma UnquotingStart(was: string, start: nat, piece: string)
    requires StringAt(was, start, piece) && was[start] == '"'
    ensures piece != "" && piece[0] == '"' && Unquoting(was, was, start, piece, 0, 1)
  {
  }

  lemma NoQuoteNoChange(was: string, start: nat, piece: string)
    requires StringAt(was, start, piece) && was[start] != '"'
    ensures Unquote(piece) == piece
  {
  }

  /** The body of the unquoting loop; `more` is false when a lone quote ends the string. */
  method UnquoteChar(z: array<char>, start: nat, ghost was: string, ghost piece: string, k0: nat, j0: nat)
    returns (k: nat, j: nat, more: bool)
    requires start + j0 < z.Length && Unquoting(z[..], was, start, piece, k0, j0) && z[start + j0] != NUL
    modifies z
    ensures more ==> Unquoting(z[..], was, start, piece, k, j) && j > j0
    ensures !more ==> k == k0 && z[..] == old(z[..]) && start + k <= z.Length && z[start..start+k] == Strip(piece[1..])
  {
    ghost var buf := z[..];
    UnquotingReads(buf, was, start, piece, k0, j0);
    UnquotingStep(buf, was, start, piece, k0, j0);
    hide Unquoting, Strip;
    k, j := k0, j0;
    if z[start + j] == '"' {
      j := j + 1;
      if z[start + j] == NUL { return k, j, false; }
    }
    z[start + k] := z[start + j];
    assert z[..] == buf[start + k := buf[start + j]];
    k := k + 1;
    j := j + 1;
    more := true;
  }

  /** The unquoting loop of .import on the C string at `start`. */
  method UnquoteInPlace(z: array<char>, start: nat, ghost piece: string)
    requires StringAt(z[..], start, piece)
    modifies z
    ensures StringAt(z[..], start, Unquote(piece)) && |Unquote(piece)| <= |piece|
    ensures forall m :: 0 <= m < z.Length && !(start <= m <= start + |piece|) ==> z[m] == old(z[m])
  {
    ghost var was := z[..];
    if z[start] != '"' {
      NoQuoteNoChange(was, start, piece);
      return;
    }
    UnquotingStart(was, start, piece);
    UnquotingReads(was, was, start, piece, 0, 1);
    hide StringAt, Unquoting, Strip, Unquote;
    var k: nat, j: nat, more := 0, 1, true;
    ghost var k0: nat, j0: nat := k, j;
    while more && z[start + j] != NUL
      invariant Unquoting(z[..], was, start, piece, k0, j0) && start + |piece| < z.Length && k0 < j0 <= |piece|
      invariant more ==> j0 == j && k0 == k
      invariant !more ==> k == k0 && z[start..start+k] == Strip(piece[1..])
      decreases more, |piece| - j
    {
      k, j, more := UnquoteChar(z, start, was, piece, k, j);
      if more {
        UnquotingReads(z[..], was, start, piece, k, j);
        k0, j0 := k, j;
      }
    }
    ghost var buf := z[..];
    if more {
      UnquotingReads(buf, was, start, piece, k, j);
      UnquotingFinished(buf, was, start, piece, k, j);
    }
    UnquotingEnds(buf, was, start, piece, k, j0);
    z[start + k] := NUL;
    assert z[..] == buf[start + k := NUL];
  }

  lemma UnquotingFinished(buf: string, was: string, start: nat, piece: string, k: nat, j: nat)
    requires Unquoting(buf, was, start, piece, k, j) && j == |piece|
    ensures buf[start..start+k] == Strip(piece[1..])
  {
  }

  // ---------- The import loop

  /** sqlite3_bind_text with length -1: the characters up to the NUL. */
  method BoundText(z: array<char>, start: nat, ghost s: string) returns (r: string)
    requires StringAt(z[..], start, s)
    ensures r == s
  {
    var n := 0;
    while z[start + n] != NUL
      invariant n <= |s|
      decreases |s| - n
    {
      assert z[start..start+|s|][n] == z[start + n];
      n := n + 1;
    }
    r := z[start..start+n];
  }

  lemma StringKept(was: string, now: string, p: nat, s: string, lo: nat, hi: nat)
    requires StringAt(was, p, s) && |was| == |now| && hi < p
    requires forall m :: 0 <= m < |was| && !(lo <= m <= hi) ==> now[m] == was[m]
    ensures StringAt(now, p, s)
  {
  }

  /** Unquotes one field in place and binds it; the later fields are not touched. */
  method BindColumn(z: array<char>, azCol: array<nat>, i: nat, ghost pieces: seq<string>) returns (text: string)
    requires |pieces| == azCol.Length && i < azCol.Length
    requires forall k :: i <= k < azCol.Length ==> StringAt(z[..], azCol[k], pieces[k])
    requires forall k, m :: 0 <= k < m < azCol.Length ==> azCol[k] + |pieces[k]| < azCol[m]
    modifies z
    ensures text == Unquote(pieces[i])
    ensures forall k :: i < k < azCol.Length ==> StringAt(z[..], azCol[k], pieces[k])
  {
    hide StringAt, Unquote;
    ghost var was := z[..];
    UnquoteInPlace(z, azCol[i], pieces[i]);
    forall k | i < k < azCol.Length ensures StringAt(z[..], azCol[k], pieces[k]) {
      StringKept(was, z[..], azCol[k], pieces[k], azCol[i], azCol[i] + |pieces[i]|);
    }
    text := BoundText(z, azCol[i], Unquote(pieces[i]));
  }

  /** The column loop of .import. */
  method BindColumns(z: array<char>, azCol: array<nat>, ghost pieces: seq<string>) returns (row: seq<string>)
    requires |pieces| == azCol.Length && Cells(z[..], azCol[..], pieces)
    modifies z
    ensures row == UnquoteAll(pieces)
  {
    hide StringAt, Unquote;
    row := [];
    for i := 0 to azCol.Length
      invariant |row| == i && forall k :: 0 <= k < i ==> row[k] == Unquote(pieces[k])
      invariant forall k :: i <= k < azCol.Length ==> StringAt(z[..], azCol[k], pieces[k])
    {
      var text := BindColumn(z, azCol, i, pieces);
      row := row + [text];
    }
  }

  ghost function Combined(rows: seq<seq<string>>, rest: Import): Import {
    if rest.WrongColumns? then WrongColumns else Rows(rows + rest.rows)
  }

  /** One line of input becomes one row, or the column count is wrong. */
  method ImportLine(line: string, sep: string, nCol: nat) returns (ok: bool, row: seq<string>)
    requires sep != "" && NulFree(sep) && NulFree(line) && nCol > 0
    ensures ok <==> |Split(line, sep, false)| == nCol
    ensures ok ==> row == UnquoteAll(Split(line, sep, false))
  {
    hide Split;
    var buffer := line + [NUL];
    var zLine := new char[|buffer|](i requires 0 <= i < |buffer| => buffer[i]);
    assert zLine[..] == buffer;
    var azCol := new nat[nCol];
    ok := SplitInPlace(zLine, line, sep, nCol, azCol);
    row := [];
    if ok {
      row := BindColumns(zLine, azCol, Split(line, sep, false));
    }
  }

  lemma LinesNulFree(text: string)
    requires text != "" && NulFree(text)
    ensures NulFree(GetLine(text).0)
  {
  }

  lemma CombinedStep(rows: seq<seq<string>>, text: string, sep: string, nCol: nat)
    requires sep != "" && text != ""
    ensures var (line, rest) := GetLine(text); var pieces := Split(line, sep, false);
      Combined(rows, ImportAll(text, sep, nCol)) ==
      if |pieces| != nCol then WrongColumns else Combined(rows + [UnquoteAll(pieces)], ImportAll(rest, sep, nCol))
  {
  }

  /** The .import command on an open file: all rows, or nothing as soon as one line has a wrong column count. */
  method ImportFile(f: InFile, sep: string, nCol: nat) returns (r: Import)
    requires f.Valid() && f.pos == 0 && sep != "" && NulFree(sep) && NulFree(f.data) && nCol > 0
    modifies f
    ensures r == ImportAll(f.data, sep, nCol)
  {
    hide Split, GetLine, UnquoteAll;
    var rows: seq<seq<string>> := [];
    assert f.data[0..] == f.data;
    var zLine := Some("");
    while zLine.Some?
      invariant f.Valid()
      invariant ImportAll(f.data, sep, nCol) == Combined(rows, ImportAll(f.data[f.pos..], sep, nCol))
      invariant zLine.None? ==> f.pos == |f.data|
      decreases |f.data| - f.pos, zLine.Some?
    {
      ghost var text := f.data[f.pos..];
      zLine := LocalGetline(f);
      if zLine.Some? {
        LinesNulFree(text);
        CombinedStep(rows, text, sep, nCol);
        var ok, row := ImportLine(zLine.value, sep, nCol);
        if !ok {
          return WrongColumns;
        }
        rows := rows + [row];
      }
    }
    r := Rows(rows);
  }

  // ---------- The writer and the reader together

  ghost predicate NulFreeRow(row: seq<string>) {
    forall i :: 0 <= i < |row| ==> NulFree(row[i])
  }

  lemma {:induction false} DoubledNulFree(z: string)
    requires NulFree(z)
    ensures NulFree(Doubled(z))
  {
    if z != "" { DoubledNulFree(z[1..]); }
  }

  lemma {:induction false} FieldsNulFree(row: seq<string>, sep: string)
    requires NulFreeRow(row) && NulFree(sep)
    ensures NulFree(PrintedFields(row, sep))
  {
    if row != [] {
      assert NulFree(row[0]);
      DoubledNulFree(row[0]);
      FieldsNulFree(row[1..], sep);
      hide Doubled, MustQuote;
    }
  }

  lemma {:induction false} RowsNulFree(rows: seq<seq<string>>, sep: string)
    requires (forall i :: 0 <= i < |rows| ==> NulFreeRow(rows[i])) && NulFree(sep)
    ensures NulFree(PrintedRows(rows, sep))
  {
    if rows != [] {
      FieldsNulFree(rows[0], sep);
      RowsNulFree(rows[1..], sep);
      hide PrintedFields, NulFreeRow;
    }
  }

  /** shell_callback for the rows of a result without NULLs. */
  method PrintTable(shell: Shell, rows: seq<seq<string>>)
    modifies shell
    ensures shell.out == old(shell.out) + PrintedRows(rows, shell.separator)
  {
    hide PrintedFields, ShownFields;
    for i := 0 to |rows|
      invariant old(shell.out) + PrintedRows(rows, shell.separator) ==
        shell.out + PrintedRows(rows[i..], shell.separator)
    {
      var row := rows[i];
      var azArg := seq(|row|, k requires 0 <= k < |row| => Some(row[k]));
      ShownWithoutNulls(azArg, row, shell.separator, shell.nullvalue);
      shell.PrintRow(azArg);
      assert rows[i..][1..] == rows[i + 1..];
    }
  }

  /** What the shell prints in CSV mode it imports again, field by field, with every good separator. */
  method PrintThenImport(rows: seq<seq<string>>, nCol: nat, sep: string, nullvalue: string) returns (r: Import)
    requires nCol > 0 && IsTable(rows, nCol) && forall i :: 0 <= i < |rows| ==> NulFreeRow(rows[i])
    requires GoodSeparator(sep) && NulFree(sep)
    ensures r == Rows(rows)
  {
    RowsNulFree(rows, sep);
    TableRoundTrip(rows, nCol, sep);
    hide PrintedRows, ImportAll, IsTable;
    var shell := new Shell(sep, nullvalue);
    PrintTable(shell, rows);
    assert shell.out == PrintedRows(rows, sep);
    var f := new InFile(shell.out);
    r := ImportFile(f, sep, nCol);
  }
}
