/** CSV mode and `.import`: the loops, over buffers, that meet `CsvSpec`. */
module Csv {
  import opened CText
  import opened SqlQuoting
  import opened CsvSpec

  // ----- Printing: output_csv and the CSV case of shell_callback -----

  /** The fields of `struct callback_data` that CSV mode uses. */
  class CallbackData {
    const out: OutFile
    var separator: string
    var nullvalue: string
    var showHeader: bool
    var cnt: nat

    constructor (out: OutFile, separator: string, nullvalue: string, showHeader: bool)
      ensures this.out == out && this.separator == separator && this.nullvalue == nullvalue
      ensures this.showHeader == showHeader && cnt == 0
    {
      this.out := out;
      this.separator := separator;
      this.nullvalue := nullvalue;
      this.showHeader := showHeader;
      this.cnt := 0;
    }

    method OutputCsv(z: Cell, bSep: bool)
      modifies out
      ensures out.text == old(out.text) + (CsvCell(z, separator, nullvalue) + if bSep then separator else "")
      ensures z.None? ==> out.text == old(out.text) + (nullvalue + if bSep then separator else "")
    {
      if z.None? {
        out.Print(nullvalue);
      } else {
        OutputField(z.value);
      }
      if bSep { out.Print(separator); }
    }

    method OutputField(z: string)
      modifies out
      ensures out.text == old(out.text) + CsvField(z, separator)
    {
      var i := ScanField(z, separator);
      if i == 0 {
        OutputQuoted(z);
      } else {
        out.Print(z);
      }
    }

    /** The test loop leaves zero in the index exactly when the field needs quotes. */
    static method ScanField(z: string, sep: string) returns (i: nat)
      ensures i == 0 <==> MustQuote(z, sep)
      ensures i == 0 <==>
                || z == "" || (sep != "" && sep[0] in z && (|sep| == 1 || sep <= z))
                || exists k :: 0 <= k < |z| && (z[k] as int <= 32 || z[k] as int >= 127 || z[k] == '"' || z[k] == '\'')
    {
      QuoteMeaning(z, sep);
      i := 0;
      while i < |z|
        invariant i <= |z|
        invariant forall k :: 0 <= k < i ==> !NeedCsvQuote(z[k]) && !SepHit(z, k, sep)
      {
        if NeedCsvQuote(z[i]) || (sep != "" && z[i] == sep[0] && (|sep| == 1 || sep <= z)) {
          assert NeedCsvQuote(z[i]) || SepHit(z, i, sep);
          return 0;
        }
        i := i + 1;
      }
    }

    method OutputQuoted(z: string)
      modifies out
      ensures out.text == old(out.text) + Quoted(z, DQUOTE)
    {
      out.Print("\"");
      PrintDoubled(z);
      out.Print("\"");
    }

    method PrintDoubled(z: string)
      modifies out
      ensures out.text == old(out.text) + Doubled(z, DQUOTE)
    {
      ghost var done := "";
      for i := 0 to |z|
        invariant out.text == old(out.text) + done
        invariant done + Doubled(z[i..], DQUOTE) == Doubled(z, DQUOTE)
      {
        done := DoubledTurn(z, DQUOTE, i, done);
        if z[i] == DQUOTE { out.Print("\""); }
        out.Print([z[i]]);
      }
    }

    /** One row, and the header before the first; NULL column names print as empty fields. */
    method ShellCallbackCsv(azArg: Option<seq<Cell>>, azCol: seq<Cell>)
      requires azArg.Some? ==> |azArg.value| == |azCol|
      modifies this`cnt, out
      ensures cnt == old(cnt) + 1
      ensures out.text == old(out.text)
                          + (if old(cnt) == 0 && showHeader then CsvRow(NamesOf(azCol), separator, nullvalue) else "")
                          + (if azArg.None? then "" else CsvRow(azArg.value, separator, nullvalue))
    {
      hide CsvRow, NamesOf;
      var first := cnt == 0;
      cnt := cnt + 1;
      if first && showHeader { OutputLine(NamesOf(azCol)); }
      if azArg.None? { return; }
      OutputLine(azArg.value);
    }

    method OutputLine(row: seq<Cell>)
      modifies out
      ensures out.text == old(out.text) + CsvRow(row, separator, nullvalue)
    {
      OutputRow(row);
      out.Print("\n");
    }

    method OutputRow(row: seq<Cell>)
      modifies out
      ensures out.text == old(out.text) + CsvCells(row, separator, nullvalue)
    {
      hide CsvCell, CsvCells;
      ghost var done := "";
      AllCells(row, separator, nullvalue);
      for i := 0 to |row|
        invariant out.text == old(out.text) + done
        invariant done + CsvCells(row[i..], separator, nullvalue) == CsvCells(row, separator, nullvalue)
      {
        done := CellTurn(row, separator, nullvalue, i, done);
        OutputCsv(row[i], i < |row| - 1);
      }
      NoCells(row[|row|..], separator, nullvalue, done);
    }
  }

  function NamesOf(azCol: seq<Cell>): seq<Cell> {
    seq(|azCol|, i requires 0 <= i < |azCol| => if azCol[i].Some? then azCol[i] else Some(""))
  }

  lemma AllCells(row: seq<Cell>, sep: string, nullvalue: string)
    ensures "" + CsvCells(row[0..], sep, nullvalue) == CsvCells(row, sep, nullvalue)
  {
    assert row[0..] == row;
  }

  lemma NoCells(row: seq<Cell>, sep: string, nullvalue: string, done: string)
    requires row == []
    ensures done + CsvCells(row, sep, nullvalue) == done
  {
  }

  /** One turn of the row loop moves one cell, and the separator unless it is the last, to the output. */
  lemma CellTurn(row: seq<Cell>, sep: string, nullvalue: string, i: nat, done: string) returns (next: string)
    requires i < |row| && done + CsvCells(row[i..], sep, nullvalue) == CsvCells(row, sep, nullvalue)
    ensures next == done + (CsvCell(row[i], sep, nullvalue) + if i < |row| - 1 then sep else "")
    ensures next + CsvCells(row[i + 1..], sep, nullvalue) == CsvCells(row, sep, nullvalue)
  {
    hide CsvCell;
    var piece := CsvCell(row[i], sep, nullvalue) + if i < |row| - 1 then sep else "";
    next := done + piece;
    assert row[i..][1..] == row[i + 1..];
    assert CsvCells(row[i..], sep, nullvalue) == piece + CsvCells(row[i + 1..], sep, nullvalue);
    Regroup(done, piece, CsvCells(row[i + 1..], sep, nullvalue));
  }

  /** Printing a whole result set in CSV mode: the column names once, if they are wanted and nothing was printed before,
      and the rows. */
  method PrintTable(p: CallbackData, azCol: seq<Cell>, rows: seq<seq<Cell>>)
    requires forall r :: 0 <= r < |rows| ==> |rows[r]| == |azCol|
    modifies p`cnt, p.out
    ensures p.cnt == old(p.cnt) + |rows|
    ensures p.out.text
         == old(p.out.text)
            + (if rows != [] && old(p.cnt) == 0 && p.showHeader
               then CsvRow(NamesOf(azCol), p.separator, p.nullvalue) else "")
            + CsvText(rows, p.separator, p.nullvalue)
  {
    hide CsvRow, NamesOf;
    ghost var head := if rows != [] && p.cnt == 0 && p.showHeader
                      then CsvRow(NamesOf(azCol), p.separator, p.nullvalue) else "";
    ghost var front := old(p.out.text) + head;
    ghost var done := "";
    for r := 0 to |rows|
      invariant p.cnt == old(p.cnt) + r
      invariant p.out.text == (if r == 0 then old(p.out.text) else front) + done
      invariant r == 0 ==> done == ""
      invariant done + CsvText(rows[r..], p.separator, p.nullvalue) == CsvText(rows, p.separator, p.nullvalue)
    {
      assert rows[r..][1..] == rows[r + 1..];
      ghost var line := CsvRow(rows[r], p.separator, p.nullvalue);
      Regroup(done, line, CsvText(rows[r + 1..], p.separator, p.nullvalue));
      ghost var before := p.out.text;
      p.ShellCallbackCsv(Some(rows[r]), azCol);
      assert r > 0 ==> p.out.text == before + "" + line == before + line;
      Regroup(front, done, line);
      assert r == 0 ==> done + line == line;
      done := done + line;
    }
  }

  // ----- Reading a record: fgets and local_getline -----

  /** An input file: what has not been read yet. */
  class InFile {
    var data: string

    constructor (data: string)
      ensures this.data == data
    {
      this.data := data;
    }

    /** Callers rely only on this contract: some non-empty chunk that fits, with a newline at most at its end. */
    method Fgets(buf: array<char>, at: nat, size: nat) returns (ok: bool, ghost k: nat)
      requires at + size <= buf.Length && size >= 2
      modifies this, buf
      ensures ok <==> old(data) != ""
      ensures !ok ==> data == "" && k == 0
      ensures ok ==> 0 < k < size && k <= |old(data)| && data == old(data)[k..] && buf[at + k] == NUL
      ensures buf[at..at + k] == old(data)[..k]
      ensures forall i :: 0 <= i < k - 1 ==> old(data)[i] != LF
      ensures buf[..at] == old(buf[..at])
    {
      k := 0;
      if data == "" { return false, 0; }
      var n := 0;
      var more := true;
      while more && n < size - 1 && data != ""
        invariant n <= size - 1 && n <= |old(data)| && data == old(data)[n..]
        invariant more || n > 0
        invariant forall i :: 0 <= i < n ==> buf[at + i] == old(data)[i]
        invariant forall i :: 0 <= i < (if more then n else n - 1) ==> old(data)[i] != LF
        invariant buf[..at] == old(buf[..at])
        decreases |data|
      {
        var c := data[0];
        buf[at + n] := c;
        data := data[1..];
        n := n + 1;
        more := c != LF;
      }
      k := n;
      buf[at + n] := NUL;
      ok := true;
    }
  }

  method Realloc(old_: array<char>, keep: nat, size: nat) returns (z: array<char>)
    requires keep <= old_.Length && keep <= size
    ensures fresh(z) && z.Length == size && z[..keep] == old_[..keep]
  {
    z := new char[size];
    forall i | 0 <= i < keep { z[i] := old_[i]; }
  }

  /** Walks the chunk just read to its terminator, flipping the quote state at each quote. */
  method ScanChunk(zLine: array<char>, from: nat, inQuote: bool, ghost d: string, ghost k: nat)
    returns (n: nat, q: bool)
    requires from + k < zLine.Length && from + k <= |d| && NulFree(d)
    requires zLine[from..from + k] == d[from..from + k] && zLine[from + k] == NUL
    requires inQuote == InQuote(d, from)
    ensures n == from + k && q == InQuote(d, n)
  {
    n, q := from, inQuote;
    assert forall j :: from <= j < from + k ==> zLine[j] == zLine[from..from + k][j - from] == d[j];
    while zLine[n] != NUL
      invariant from <= n <= from + k && q == InQuote(d, n)
      decreases from + k - n
    {
      if zLine[n] == DQUOTE { q := !q; }
      n := n + 1;
    }
  }

  /** One fgets and the scan after it: `m` bytes are in the buffer now; at the end of the input none are added. */
  method GetChunk(file: InFile, zLine: array<char>, n: nat, inQuote: bool, ghost d: string, ghost csv: bool)
    returns (m: nat, q: bool)
    requires n <= |d| && n + 100 <= zLine.Length && NulFree(d)
    requires file.data == d[n..] && zLine[..n] == d[..n] && inQuote == InQuote(d, n)
    requires forall i :: 0 <= i < n ==> !EolAt(d, i, csv)
    modifies file, zLine
    ensures n <= m <= |d| && m < zLine.Length && (m == n <==> n == |d|)
    ensures file.data == d[m..] && zLine[..m] == d[..m] && q == InQuote(d, m)
    ensures forall i :: 0 <= i < m - 1 ==> !EolAt(d, i, csv)
    ensures m > n ==> (EolAt(d, m - 1, csv) <==> d[m - 1] == LF && (!q || !csv))
  {
    m, q := n, inQuote;
    var ok, k := file.Fgets(zLine, n, zLine.Length - n);
    if ok {
      ChunkLands(d, n, k, zLine[..n + k]);
      m, q := ScanChunk(zLine, n, inQuote, d, k);
      EolAtChunkEnd(d, n, m, csv);
    }
  }

  /** The chunk loop: stops after the first record end, or at the end of the input. */
  method ReadRecord(file: InFile, csvFlag: bool) returns (zLine: array<char>, n: nat, closed: bool)
    requires NulFree(file.data)
    modifies file
    ensures fresh(zLine) && n < zLine.Length
    ensures n == FirstEol(old(file.data), csvFlag, 0) && closed == (n < |old(file.data)|)
    ensures zLine[..n] == old(file.data)[..n]
    ensures file.data == AfterLine(old(file.data), csvFlag)
  {
    hide InQuote;
    ghost var d := file.data;
    var inQuote := false;
    zLine := new char[100];
    InQuoteStart(d);
    n := 0;
    closed := false;
    while true
      invariant n <= |d| && n <= zLine.Length && fresh(zLine) && !closed
      invariant file.data == d[n..] && zLine[..n] == d[..n]
      invariant inQuote == InQuote(d, n)
      invariant forall i :: 0 <= i < n ==> !EolAt(d, i, csvFlag)
      decreases |d| - n
    {
      if n + 100 > zLine.Length { zLine := Realloc(zLine, n, zLine.Length * 2 + 100); }
      var m, q := GetChunk(file, zLine, n, inQuote, d, csvFlag);
      if m == n { return; }
      n, inQuote := m, q;
      assert zLine[n - 1] == zLine[..n][n - 1] == d[n - 1];
      if zLine[n - 1] == LF && (!inQuote || !csvFlag) {
        n := n - 1;
        closed := true;
        return;
      }
    }
  }

  method LocalGetline(file: InFile, csvFlag: bool) returns (line: array?<char>)
    requires NulFree(file.data)
    modifies file
    ensures line == null <==> old(file.data) == ""
    ensures line != null ==> fresh(line) && CStringAt(line, 0, LineOf(old(file.data), csvFlag))
    ensures file.data == AfterLine(old(file.data), csvFlag)
  {
    ghost var d := file.data;
    var zLine, n, closed := ReadRecord(file, csvFlag);
    if n == 0 && !closed { return null; }
    if closed && n > 0 && zLine[n - 1] == '\r' { n := n - 1; }
    line := Realloc(zLine, n, n + 1);
    line[n] := NUL;
    assert line[0..n] == d[..n];
  }

  lemma ChunkLands(d: string, from: nat, k: nat, got: string)
    requires from + k <= |d| == |d| && |got| == from + k
    requires got[..from] == d[..from] && got[from..] == d[from..][..k]
    ensures got == d[..from + k] && got[from..] == d[from..from + k]
  {
    assert got == got[..from] + got[from..];
  }

  /** A chunk holds a record end at its last byte or nowhere. */
  lemma EolAtChunkEnd(d: string, from: nat, n: nat, csv: bool)
    requires from < n <= |d|
    requires forall i :: 0 <= i < n - from - 1 ==> d[from..][i] != LF
    requires forall i :: 0 <= i < from ==> !EolAt(d, i, csv)
    ensures forall i :: 0 <= i < n - 1 ==> !EolAt(d, i, csv)
    ensures EolAt(d, n - 1, csv) <==> d[n - 1] == LF && (!InQuote(d, n) || !csv)
  {
    forall i | from <= i < n - 1
      ensures d[i] != LF
    {
      assert d[i] == d[from..][i - from];
    }
  }

  // ----- .import: splitting and dequoting in place -----

  /** The buffer holds `cols` one after the other, each ended by its own NUL, at the offsets in `azCol`. */
  predicate ColumnsAt(buf: array<char>, azCol: array<nat>, cols: seq<string>)
    reads buf, azCol
  {
    && |cols| <= azCol.Length
    && (forall k :: 0 <= k < |cols| ==> CStringAt(buf, azCol[k], cols[k]))
    && (forall j, k :: 0 <= j < k < |cols| ==> azCol[j] + |cols[j]| < azCol[k])
  }

  lemma SplitWhole(s: string, sep: string)
    requires sep != "" && forall j :: 0 <= j < |s| ==> !SepAt(s, j, sep)
    ensures Split(s, sep) == [s]
  {
    assert FirstSep(s, sep, 0) == |s|;
  }

  lemma SplitAtSep(s: string, sep: string, e: nat)
    requires sep != "" && e < |s| && SepAt(s, e, sep) && forall j :: 0 <= j < e ==> !SepAt(s, j, sep)
    ensures e + |sep| <= |s| && Split(s, sep) == [s[..e]] + Split(s[e + |sep|..], sep)
  {
    assert FirstSep(s, sep, 0) == e;
  }

  /** strncmp(z, sep, nSep) == 0 at an offset of the buffer. */
  predicate Matches(buf: array<char>, p: nat, sep: string)
    reads buf
  {
    p + |sep| <= buf.Length && buf[p..p + |sep|] == sep
  }

  lemma MatchesText(buf: array<char>, p: nat, sep: string, rest: string)
    requires NulFree(sep) && CStringAt(buf, p, rest)
    ensures Matches(buf, p, sep) <==> sep <= rest
  {
    assert forall k :: 0 <= k < |rest| ==> buf[p + k] == rest[k];
    if Matches(buf, p, sep) {
      assert forall k :: 0 <= k < |sep| ==> buf[p + k] == sep[k];
      assert |sep| <= |rest|;
    }
  }

  /** A split in progress: `cols` are cut, the current column starts at `start`, and `z` is being looked at. */
  ghost predicate Splitting(zLine: array<char>, azCol: array<nat>, line: string, sep: string,
                            cols: seq<string>, start: nat, z: nat, inQuote: bool)
    requires sep != ""
    reads zLine, azCol
  {
    && |cols| < azCol.Length - 1 && start <= z <= |line|
    && CStringAt(zLine, start, line[start..])
    && Split(line, sep) == cols + Split(line[start..], sep)
    && azCol[|cols|] == start
    && ColumnsAt(zLine, azCol, cols)
    && (forall k :: 0 <= k < |cols| ==> azCol[k] + |cols[k]| < start)
    && inQuote == InQuote(line[start..], z - start)
    && forall j :: 0 <= j < z - start ==> !SepAt(line[start..], j, sep)
  }

  /** What the separator at `z` means for the split in progress. */
  lemma SplitTurn(line: string, sep: string, cols: seq<string>, start: nat, z: nat)
    requires sep != "" && start <= z < |line|
    requires Split(line, sep) == cols + Split(line[start..], sep)
    requires forall j :: 0 <= j < z - start ==> !SepAt(line[start..], j, sep)
    requires SepAt(line[start..], z - start, sep)
    ensures z + |sep| <= |line| && |Split(line, sep)| > |cols| + 1
    ensures Split(line, sep) == (cols + [line[start..z]]) + Split(line[z + |sep|..], sep)
  {
    hide Split, FirstSep, SepAt, InQuote;
    var s := line[start..];
    SplitAtSep(s, sep, z - start);
    assert s[..z - start] == line[start..z] && s[z - start + |sep|..] == line[z + |sep|..];
    Regroup(cols, [line[start..z]], Split(line[z + |sep|..], sep));
  }

  /** Looking at one character: the in-place test is the separator test, and without a separator the column goes on. */
  lemma SplitLook(zLine: array<char>, azCol: array<nat>, line: string, sep: string,
                  cols: seq<string>, start: nat, z: nat, was: bool)
    requires sep != "" && NulFree(sep) && Splitting(zLine, azCol, line, sep, cols, start, z, was)
    requires zLine[z] != NUL
    ensures z < |line|
    ensures var q := was != (zLine[z] == DQUOTE);
            if !q && zLine[z] == sep[0] && Matches(zLine, z, sep)
            then SepAt(line[start..], z - start, sep)
            else Splitting(zLine, azCol, line, sep, cols, start, z + 1, q)
  {
    hide Split, InQuote;
    var s := line[start..];
    assert forall j :: 0 <= j < |s| ==> zLine[start + j] == s[j];
    assert z < |line|;
    InQuoteStep(s, z - start);
    assert s[z - start..] == line[z..];
    assert forall j :: 0 <= j < |line| - z ==> zLine[z + j] == s[z - start + j] == line[z..][j];
    MatchesText(zLine, z, sep, line[z..]);
  }

  /** At the terminator the current column is the last one. */
  lemma SplitEnd(zLine: array<char>, azCol: array<nat>, line: string, sep: string,
                 cols: seq<string>, start: nat, z: nat, was: bool)
    requires sep != "" && Splitting(zLine, azCol, line, sep, cols, start, z, was)
    requires zLine[z] == NUL
    ensures Split(line, sep) == cols + [line[start..]]
    ensures ColumnsAt(zLine, azCol, cols + [line[start..]])
  {
    hide Split, InQuote, SepAt;
    var s := line[start..];
    assert forall j :: start <= j < |line| ==> zLine[j] == s[j - start] != NUL;
    assert z == |line|;
    SplitWhole(s, sep);
  }

  /** The text of the buffer holds the C string `s` at offset `p`. */
  predicate CStringIn(text: string, p: nat, s: string) {
    && p + |s| < |text| && NulFree(s) && text[p + |s|] == NUL
    && forall i :: 0 <= i < |s| ==> text[p + i] == s[i]
  }

  lemma ColumnsNow(zLine: array<char>, azCol: array<nat>, cols: seq<string>, was: string)
    requires ColumnsAt(zLine, azCol, cols) && was == zLine[..]
    ensures forall k :: 0 <= k < |cols| ==> CStringIn(was, azCol[k], cols[k])
  {
  }

  /** Columns that end before `z` survive writes from `z` on. */
  lemma ColumnsKept(zLine: array<char>, azCol: array<nat>, cols: seq<string>, was: string, offsets: seq<nat>, z: nat)
    requires |was| == zLine.Length && |offsets| == azCol.Length >= |cols| && z <= |was|
    requires forall m :: 0 <= m < z ==> zLine[m] == was[m]
    requires forall k :: 0 <= k < |cols| ==> azCol[k] == offsets[k]
    requires forall k :: 0 <= k < |cols| ==> CStringIn(was, offsets[k], cols[k]) && offsets[k] + |cols[k]| < z
    requires forall j, k :: 0 <= j < k < |cols| ==> offsets[j] + |cols[j]| < offsets[k]
    ensures ColumnsAt(zLine, azCol, cols)
  {
    forall k | 0 <= k < |cols|
      ensures CStringAt(zLine, azCol[k], cols[k])
    {
      CStringKept(zLine, was, offsets[k], cols[k], z);
    }
  }

  lemma ColumnAdded(zLine: array<char>, azCol: array<nat>, cols: seq<string>, col: string, start: nat)
    requires ColumnsAt(zLine, azCol, cols) && |cols| < azCol.Length && azCol[|cols|] == start
    requires CStringAt(zLine, start, col) && forall k :: 0 <= k < |cols| ==> azCol[k] + |cols[k]| < start
    ensures ColumnsAt(zLine, azCol, cols + [col])
  {
    hide CStringAt;
    var all := cols + [col];
    assert forall k :: 0 <= k < |cols| ==> all[k] == cols[k];
  }

  /** The line around the cut. */
  lemma TextCut(zLine: array<char>, line: string, start: nat, z: nat, next: nat, was: string)
    requires start <= z < next <= |line| < zLine.Length == |was| && CStringIn(was, start, line[start..])
    requires zLine[z] == NUL && forall m :: 0 <= m < zLine.Length && m != z ==> zLine[m] == was[m]
    ensures CStringAt(zLine, start, line[start..z]) && CStringAt(zLine, next, line[next..])
  {
    assert forall m :: start <= m < |line| ==> was[m] == line[start..][m - start] == line[m];
  }

  /** Ends column `i` at `z` and opens the next one. */
  method CutColumn(zLine: array<char>, azCol: array<nat>, sep: string, i: nat, z: nat,
                   ghost line: string, ghost cols: seq<string>, ghost start: nat, ghost was: bool)
    requires sep != "" && Splitting(zLine, azCol, line, sep, cols, start, z, was) && i == |cols|
    requires z < |line| && SepAt(line[start..], z - start, sep) && i + 1 < azCol.Length - 1
    modifies zLine, azCol
    ensures z + |sep| <= |line|
    ensures Splitting(zLine, azCol, line, sep, cols + [line[start..z]], z + |sep|, z + |sep|, false)
  {
    hide Split, SepAt, InQuote, CStringAt, ColumnsAt, CStringIn;
    SplitTurn(line, sep, cols, start, z);
    ghost var text, offsets := zLine[..], azCol[..];
    SplittingNow(zLine, azCol, line, sep, cols, start, z, was, text);
    zLine[z] := NUL;
    azCol[i + 1] := z + |sep|;
    ColumnsKept(zLine, azCol, cols, text, offsets, start);
    TextCut(zLine, line, start, z, z + |sep|, text);
    ColumnAdded(zLine, azCol, cols, line[start..z], start);
    InQuoteStart(line[z + |sep|..]);
  }

  lemma SplittingNow(zLine: array<char>, azCol: array<nat>, line: string, sep: string,
                     cols: seq<string>, start: nat, z: nat, was: bool, text: string)
    requires sep != "" && Splitting(zLine, azCol, line, sep, cols, start, z, was) && text == zLine[..]
    ensures |line| < zLine.Length && CStringIn(text, start, line[start..])
    ensures forall k :: 0 <= k < |cols| ==> CStringIn(text, azCol[k], cols[k])
    ensures forall j, k :: 0 <= j < k < |cols| ==> azCol[j] + |cols[j]| < azCol[k]
  {
    hide Split, SepAt, InQuote;
    ColumnsNow(zLine, azCol, cols, text);
  }

  lemma InQuoteStart(s: string)
    ensures !InQuote(s, 0)
  {
  }

  /** Returns the column count; with the right count, the record has become its columns. */
  method SplitColumns(zLine: array<char>, sep: string, nCol: nat, azCol: array<nat>, ghost line: string)
    returns (found: nat)
    requires CStringAt(zLine, 0, line) && sep != "" && NulFree(sep)
    requires nCol >= 1 && azCol.Length == nCol + 1
    modifies zLine, azCol
    ensures found == nCol <==> |Split(line, sep)| == nCol
    ensures found == nCol ==> ColumnsAt(zLine, azCol, Split(line, sep))
  {
    hide Split, SepAt, InQuote, ColumnsAt, Matches;
    azCol[0] := 0;
    var i, z := 0, 0;
    var inQuote := false;
    ghost var cols: seq<string> := [];
    ghost var start: nat := 0;
    SplitStart(zLine, azCol, line, sep);
    while zLine[z] != NUL
      invariant z <= |line| < zLine.Length && zLine[|line|] == NUL
      invariant i < nCol ==> |cols| == i && Splitting(zLine, azCol, line, sep, cols, start, z, inQuote)
      invariant i >= nCol ==> |Split(line, sep)| > nCol
      decreases |line| - z
    {
      var c := zLine[z];
      ghost var was := inQuote;
      if i < nCol { SplitLook(zLine, azCol, line, sep, cols, start, z, was); }
      if c == DQUOTE { inQuote := !inQuote; }
      if !inQuote && c == sep[0] && Matches(zLine, z, sep) {
        if i + 1 < nCol {
          CutColumn(zLine, azCol, sep, i, z, line, cols, start, was);
          cols := cols + [line[start..z]];
          start := z + |sep|;
          z := z + |sep| - 1;
        } else {
          if i < nCol { SplitTurn(line, sep, cols, start, z); }
          zLine[z] := NUL;
        }
        i := i + 1;
      }
      z := z + 1;
    }
    if i < nCol { SplitEnd(zLine, azCol, line, sep, cols, start, z, inQuote); }
    found := i + 1;
  }

  lemma SplitStart(zLine: array<char>, azCol: array<nat>, line: string, sep: string)
    requires CStringAt(zLine, 0, line) && sep != "" && azCol.Length >= 2 && azCol[0] == 0
    ensures Splitting(zLine, azCol, line, sep, [], 0, 0, false)
  {
    assert line[0..] == line;
  }

  lemma {:induction false} UndoubleNulFree(t: string)
    requires NulFree(t)
    ensures NulFree(Undouble(t))
  {
    if t != "" {
      if t[0] != DQUOTE {
        UndoubleNulFree(t[1..]);
      } else if |t| > 1 {
        UndoubleNulFree(t[2..]);
      }
    }
  }

  /** Dequotes the column at `p`; the write index `k` stays behind the read index `j`. */
  method DequoteInPlace(z: array<char>, p: nat, ghost s: string)
    requires CStringAt(z, p, s) && s != "" && s[0] == DQUOTE
    modifies z
    ensures CStringAt(z, p, Dequote(s))
    ensures forall m :: 0 <= m < z.Length && (m < p || m > p + |s|) ==> z[m] == old(z[m])
  {
    hide Undouble;
    var j, k := 1, 0;
    ghost var done := "";
    while z[p + j] != NUL
      invariant 1 <= j <= |s| && 0 <= k < j && |done| == k
      invariant forall m :: 0 <= m < k ==> z[p + m] == done[m]
      invariant done + Undouble(s[j..]) == Undouble(s[1..])
      invariant forall m :: p + j <= m < p + |s| ==> z[m] == s[m - p]
      invariant z[p + |s|] == NUL
      invariant forall m :: 0 <= m < z.Length && (m < p || m > p + |s|) ==> z[m] == old(z[m])
      decreases |s| - j
    {
      UndoubleTurn(s, j, done);
      if z[p + j] == DQUOTE {
        j := j + 1;
        if z[p + j] == NUL { break; }
      }
      z[p + k] := z[p + j];
      done := done + [s[j]];
      k := k + 1;
      j := j + 1;
    }
    z[p + k] := NUL;
    UndoubleEnd(done, s[|s|..]);
    assert done == Undouble(s[1..]) == Dequote(s);
    UndoubleNulFree(s[1..]);
  }

  lemma UndoubleEnd(done: string, t: string)
    requires t == ""
    ensures done + Undouble(t) == done
  {
  }

  /** One turn of the dequoting loop. */
  lemma UndoubleTurn(s: string, j: nat, done: string)
    requires 1 <= j < |s| && done + Undouble(s[j..]) == Undouble(s[1..])
    ensures s[j] != DQUOTE ==> (done + [s[j]]) + Undouble(s[j + 1..]) == Undouble(s[1..])
    ensures s[j] == DQUOTE && j + 1 < |s| ==> (done + [s[j + 1]]) + Undouble(s[j + 2..]) == Undouble(s[1..])
    ensures s[j] == DQUOTE && j + 1 == |s| ==> done == Undouble(s[1..])
  {
    var t := s[j..];
    if s[j] != DQUOTE {
      assert t[1..] == s[j + 1..];
      Regroup(done, [s[j]], Undouble(s[j + 1..]));
    } else if j + 1 < |s| {
      assert t[2..] == s[j + 2..];
      Regroup(done, [s[j + 1]], Undouble(s[j + 2..]));
    }
  }

  /** Columns before `i` are dequoted, the others still as split. */
  ghost predicate Dequoting(zLine: array<char>, azCol: array<nat>, cols: seq<string>, i: nat)
    reads zLine, azCol
  {
    && |cols| <= azCol.Length
    && (forall k :: 0 <= k < |cols| ==> CStringAt(zLine, azCol[k], if k < i then Dequote(cols[k]) else cols[k]))
    && (forall j, k :: 0 <= j < k < |cols| ==> azCol[j] + |cols[j]| < azCol[k])
  }

  method DequoteColumn(zLine: array<char>, azCol: array<nat>, ghost cols: seq<string>, i: nat)
    requires Dequoting(zLine, azCol, cols, i) && i < |cols|
    modifies zLine
    ensures Dequoting(zLine, azCol, cols, i + 1)
  {
    hide Undouble;
    assert CStringAt(zLine, azCol[i], cols[i]);
    assert cols[i] != "" ==> cols[i][0] == zLine[azCol[i]];
    if zLine[azCol[i]] == DQUOTE { DequoteInPlace(zLine, azCol[i], cols[i]); }
  }

  /** Splits, counts, dequotes and binds one record; None reports the wrong number of columns. */
  method ImportRecord(zLine: array<char>, sep: string, nCol: nat, azCol: array<nat>, ghost line: string)
    returns (row: Option<seq<Cell>>)
    requires CStringAt(zLine, 0, line) && sep != "" && NulFree(sep)
    requires nCol >= 1 && azCol.Length == nCol + 1
    modifies zLine, azCol
    ensures row == if |Split(line, sep)| == nCol then Some(DequoteAll(Split(line, sep))) else None
  {
    hide Split, Dequote, DequoteAll;
    var found := SplitColumns(zLine, sep, nCol, azCol, line);
    if found != nCol { return None; }
    ghost var cols := Split(line, sep);
    for i := 0 to nCol
      invariant Dequoting(zLine, azCol, cols, i)
    {
      DequoteColumn(zLine, azCol, cols, i);
    }
    var bound: seq<Cell> := [];
    for i := 0 to nCol
      invariant Dequoting(zLine, azCol, cols, nCol)
      invariant |bound| == i && forall k :: 0 <= k < i ==> bound[k] == Some(Dequote(cols[k]))
    {
      assert CStringAt(zLine, azCol[i], Dequote(cols[i]));
      var text := ReadCString(zLine, azCol[i], Dequote(cols[i]));
      bound := bound + [Some(text)];
    }
    assert bound == DequoteAll(cols);
    row := Some(bound);
  }

  /** What is left of an import when the engine refuses row `refused`, if there is one. */
  function Committed(rows: Option<seq<seq<Cell>>>, refused: Option<nat>): Option<seq<seq<Cell>>> {
    if rows.Some? && refused.Some? && refused.value < |rows.value| then None else rows
  }

  /** The rows committed, or None when the transaction was rolled back. */
  method Import(file: InFile, sep: string, nCol: nat, refused: Option<nat>) returns (rows: Option<seq<seq<Cell>>>)
    requires NulFree(file.data) && sep != "" && NulFree(sep) && nCol >= 1
    modifies file
    ensures rows == Committed(ImportText(old(file.data), sep, nCol), refused)
  {
    hide LineOf, AfterLine, Split, ImportText, DequoteAll;
    var azCol := new nat[nCol + 1];
    var table: seq<seq<Cell>> := [];
    ghost var text := file.data;
    PrependUnit(ImportText(text, sep, nCol), []);
    while true
      invariant NulFree(file.data)
      invariant ImportText(text, sep, nCol) == Prepend(table, ImportText(file.data, sep, nCol))
      invariant refused.Some? ==> |table| <= refused.value
      decreases |file.data|
    {
      ghost var d := file.data;
      var zLine := LocalGetline(file, true);
      if zLine == null {
        ImportEnds(sep, nCol, table);
        break;
      }
      AfterLineSuffix(d);
      var row := ImportRecord(zLine, sep, nCol, azCol, LineOf(d, true));
      ImportTurn(d, sep, nCol, table);
      if row.None? { return None; }
      if refused == Some(|table|) { return None; }
      table := table + [row.value];
    }
    rows := Some(table);
  }

  lemma ImportEnds(sep: string, nCol: nat, table: seq<seq<Cell>>)
    requires sep != ""
    ensures Prepend(table, ImportText("", sep, nCol)) == Some(table)
  {
    PrependUnit(Some([]), table);
  }

  function Prepend(table: seq<seq<Cell>>, rest: Option<seq<seq<Cell>>>): Option<seq<seq<Cell>>> {
    match rest
    case None => None
    case Some(r) => Some(table + r)
  }

  lemma PrependUnit(rest: Option<seq<seq<Cell>>>, table: seq<seq<Cell>>)
    ensures Prepend([], rest) == rest && Prepend(table, Some([])) == Some(table)
  {
    if rest.Some? { assert [] + rest.value == rest.value; }
    assert table + [] == table;
  }

  lemma AfterLineSuffix(d: string)
    requires NulFree(d) && d != ""
    ensures NulFree(AfterLine(d, true)) && |AfterLine(d, true)| < |d|
  {
  }

  lemma ImportTurn(d: string, sep: string, nCol: nat, table: seq<seq<Cell>>)
    requires d != "" && sep != ""
    ensures var cols := Split(LineOf(d, true), sep);
            Prepend(table, ImportText(d, sep, nCol))
            == if |cols| != nCol then None
               else Prepend(table + [DequoteAll(cols)], ImportText(AfterLine(d, true), sep, nCol))
  {
    hide LineOf, AfterLine, Split, DequoteAll;
    var cols := Split(LineOf(d, true), sep);
    if |cols| == nCol {
      match ImportText(AfterLine(d, true), sep, nCol)
      case None =>
      case Some(rest) => Regroup(table, [DequoteAll(cols)], rest);
    }
  }

  /** Both ends together: a table printed in CSV mode to an empty file is what `.import` reads back. */
  method PrintThenImport(rows: seq<seq<Cell>>, sep: string, n: nat) returns (back: Option<seq<seq<Cell>>>)
    requires SepBytes(sep) && SoundSep(sep) && n >= 1 && TextRows(rows, n)
    ensures back == Some(rows)
  {
    var out := new OutFile();
    var p := new CallbackData(out, sep, "", false);
    RowsFit(rows, n);
    PrintTable(p, seq(n, _ => Some("")), rows);
    var text := out.text;
    assert text == CsvText(rows, sep, "");
    TextNulFree(rows, sep, "", n);
    CsvRoundTrip(rows, sep, "", n);
    var file := new InFile(text);
    back := Import(file, sep, n, None);
  }

  /** The same with the header on: the column names come back as the first row, with an empty one for NULL. */
  method PrintThenImportWithHeader(azCol: seq<Cell>, rows: seq<seq<Cell>>, sep: string)
    returns (back: Option<seq<seq<Cell>>>)
    requires SepBytes(sep) && SoundSep(sep) && |azCol| >= 1 && TextRows(rows, |azCol|) && rows != []
    requires forall i :: 0 <= i < |azCol| && azCol[i].Some? ==> NulFree(azCol[i].value)
    ensures back.Some? && |back.value| == |rows| + 1 && back.value[1..] == rows && |back.value[0]| == |azCol|
    ensures forall i :: 0 <= i < |azCol| ==> back.value[0][i] == if azCol[i].None? then Some("") else azCol[i]
  {
    hide CsvText, CsvRow, ImportText, TextRows;
    var out := new OutFile();
    var p := new CallbackData(out, sep, "", true);
    RowsFit(rows, |azCol|);
    PrintTable(p, azCol, rows);
    var text := out.text;
    var all := [NamesOf(azCol)] + rows;
    HeaderIsRow(azCol, rows, sep);
    assert text == CsvText(all, sep, "");
    TextNulFree(all, sep, "", |azCol|);
    CsvRoundTrip(all, sep, "", |azCol|);
    var file := new InFile(text);
    back := Import(file, sep, |azCol|, None);
  }

  lemma RowsFit(rows: seq<seq<Cell>>, n: nat)
    requires TextRows(rows, n)
    ensures forall r :: 0 <= r < |rows| ==> |rows[r]| == n
  {
    assert forall r :: 0 <= r < |rows| ==> TextRow(rows[r], n);
  }

  /** The header is a text row, printed in front of the others. */
  lemma HeaderIsRow(azCol: seq<Cell>, rows: seq<seq<Cell>>, sep: string)
    requires TextRows(rows, |azCol|)
    requires forall i :: 0 <= i < |azCol| && azCol[i].Some? ==> NulFree(azCol[i].value)
    ensures var all := [NamesOf(azCol)] + rows;
            && TextRows(all, |azCol|)
            && CsvText(all, sep, "") == "" + CsvRow(NamesOf(azCol), sep, "") + CsvText(rows, sep, "")
  {
    hide CsvRow;
    var all := [NamesOf(azCol)] + rows;
    assert all[1..] == rows;
    assert forall r :: 1 <= r < |all| ==> all[r] == rows[r - 1] && TextRow(rows[r - 1], |azCol|);
  }

  lemma {:induction false} CellsNulFree(row: seq<Cell>, sep: string, nullvalue: string)
    requires SepBytes(sep) && TextRow(row, |row|)
    ensures NulFree(CsvCells(row, sep, nullvalue))
  {
    if row != [] {
      DoubledNulFree(row[0].value, DQUOTE);
      CellsNulFree(row[1..], sep, nullvalue);
    }
  }

  lemma {:induction false} TextNulFree(rows: seq<seq<Cell>>, sep: string, nullvalue: string, n: nat)
    requires SepBytes(sep) && TextRows(rows, n)
    ensures NulFree(CsvText(rows, sep, nullvalue))
  {
    if rows != [] {
      CellsNulFree(rows[0], sep, nullvalue);
      TextNulFree(rows[1..], sep, nullvalue, n);
    }
  }
}
