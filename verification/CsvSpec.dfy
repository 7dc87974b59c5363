/** What CSV mode prints and what `.import` reads, as functions, and the law that joins them. */
module CsvSpec {
  import opened CText
  import opened SqlQuoting

  // ----- Printing -----

  /** The table `needCsvQuote`: control characters, blank, both quotes, and everything past '~'. */
  predicate NeedCsvQuote(c: char) {
    c <= ' ' || c == DQUOTE || c == SQUOTE || c as int >= 127
  }

  /** The separator test at index `i`; for a separator of several bytes it looks at the start of the field. */
  predicate SepHit(z: string, i: nat, sep: string)
    requires i < |z|
  {
    sep != "" && z[i] == sep[0] && (|sep| == 1 || sep <= z)
  }

  predicate MustQuote(z: string, sep: string) {
    z == "" || exists i :: 0 <= i < |z| && (NeedCsvQuote(z[i]) || SepHit(z, i, sep))
  }

  /** Quotes are for the empty field, for control characters, blanks, quotes and bytes from 127, and for a field with
      the first byte of the separator, if the separator is that byte or starts the field. */
  lemma QuoteMeaning(z: string, sep: string)
    ensures MustQuote(z, sep) <==>
              || z == "" || (sep != "" && sep[0] in z && (|sep| == 1 || sep <= z))
              || exists k :: 0 <= k < |z| && (z[k] as int <= 32 || z[k] as int >= 127 || z[k] == '"' || z[k] == '\'')
  {
    if sep != "" && sep[0] in z {
      var i :| 0 <= i < |z| && z[i] == sep[0];
      assert SepHit(z, i, sep) <==> |sep| == 1 || sep <= z;
    }
    if k :| 0 <= k < |z| && (z[k] as int <= 32 || z[k] as int >= 127 || z[k] == '"' || z[k] == '\'') {
      assert NeedCsvQuote(z[k]);
    }
  }

  function CsvField(z: string, sep: string): string {
    if MustQuote(z, sep) then Quoted(z, DQUOTE) else z
  }

  function CsvCell(cell: Cell, sep: string, nullvalue: string): string {
    match cell
    case None => nullvalue
    case Some(z) => CsvField(z, sep)
  }

  function CsvCells(row: seq<Cell>, sep: string, nullvalue: string): string {
    if row == [] then ""
    else if |row| == 1 then CsvCell(row[0], sep, nullvalue)
    else CsvCell(row[0], sep, nullvalue) + sep + CsvCells(row[1..], sep, nullvalue)
  }

  function CsvRow(row: seq<Cell>, sep: string, nullvalue: string): string {
    CsvCells(row, sep, nullvalue) + "\n"
  }

  function CsvText(rows: seq<seq<Cell>>, sep: string, nullvalue: string): string {
    if rows == [] then "" else CsvRow(rows[0], sep, nullvalue) + CsvText(rows[1..], sep, nullvalue)
  }

  // ----- Reading -----

  /** Inside quotes after the first `i` characters: an odd number of `"` among them. */
  predicate InQuote(s: string, i: nat)
    requires i <= |s|
  {
    i != 0 && InQuote(s, i - 1) != (s[i - 1] == DQUOTE)
  }

  /** A newline that ends a record: with the CSV flag, only outside quotes. */
  predicate EolAt(s: string, i: nat, csv: bool)
    requires i < |s|
  {
    s[i] == LF && (!csv || !InQuote(s, i))
  }

  function FirstEol(s: string, csv: bool, from: nat): (e: nat)
    requires from <= |s|
    ensures from <= e <= |s|
    ensures e < |s| ==> EolAt(s, e, csv)
    ensures forall i :: from <= i < e ==> !EolAt(s, i, csv)
    decreases |s| - from
  {
    if from == |s| || EolAt(s, from, csv) then from else FirstEol(s, csv, from + 1)
  }

  /** The record in front of `s`, without its line end. */
  function LineOf(s: string, csv: bool): string {
    var e := FirstEol(s, csv, 0);
    if e < |s| && e > 0 && s[e - 1] == '\r' then s[..e - 1] else s[..e]
  }

  function AfterLine(s: string, csv: bool): (r: string)
    ensures s != "" ==> |r| < |s|
  {
    var e := FirstEol(s, csv, 0);
    if e < |s| then s[e + 1..] else ""
  }

  /** A separator outside quotes; the quote state is the one after the character itself. */
  predicate SepAt(s: string, i: nat, sep: string)
    requires i < |s|
  {
    !InQuote(s, i + 1) && sep <= s[i..]
  }

  function FirstSep(s: string, sep: string, from: nat): (e: nat)
    requires from <= |s|
    ensures from <= e <= |s|
    ensures e < |s| ==> SepAt(s, e, sep)
    ensures forall i :: from <= i < e ==> !SepAt(s, i, sep)
    decreases |s| - from
  {
    if from == |s| || SepAt(s, from, sep) then from else FirstSep(s, sep, from + 1)
  }

  function Split(s: string, sep: string): (cols: seq<string>)
    requires sep != ""
    ensures |cols| >= 1
    decreases |s|
  {
    var e := FirstSep(s, sep, 0);
    if e == |s| then [s] else [s[..e]] + Split(s[e + |sep|..], sep)
  }

  /** What the dequoting loop keeps of the text after an opening quote. */
  function Undouble(t: string): (r: string)
    ensures |r| <= |t|
  {
    if t == "" then ""
    else if t[0] != DQUOTE then [t[0]] + Undouble(t[1..])
    else if |t| == 1 then ""
    else [t[1]] + Undouble(t[2..])
  }

  function Dequote(col: string): (r: string)
    ensures |r| <= |col|
  {
    if col != "" && col[0] == DQUOTE then Undouble(col[1..]) else col
  }

  function DequoteAll(cols: seq<string>): (row: seq<Cell>)
    ensures |row| == |cols|
    ensures forall i :: 0 <= i < |row| ==> row[i] == Some(Dequote(cols[i]))
  {
    seq(|cols|, i requires 0 <= i < |cols| => Some(Dequote(cols[i])))
  }

  /** The rows `.import` commits, or None when a record with the wrong number of columns rolls all back. */
  function ImportText(text: string, sep: string, nCol: nat): Option<seq<seq<Cell>>>
    requires sep != ""
    decreases |text|
  {
    if text == "" then Some([])
    else
      var cols := Split(LineOf(text, true), sep);
      if |cols| != nCol then None
      else
        match ImportText(AfterLine(text, true), sep, nCol)
        case None => None
        case Some(rows) => Some([DequoteAll(cols)] + rows)
  }

  // ----- Quote parity of what is printed -----

  lemma InQuoteStep(s: string, i: nat)
    requires i < |s|
    ensures InQuote(s, i + 1) == (InQuote(s, i) != (s[i] == DQUOTE))
  {
  }

  lemma QuoteParity()
    ensures InQuote("\"", 1) && InQuote("\"\"", 1) && !InQuote("\"\"", 2)
  {
    InQuoteStep("\"", 0);
    InQuoteStep("\"\"", 0);
    InQuoteStep("\"\"", 1);
  }

  lemma {:induction false} InQuotePrefix(a: string, b: string, i: nat)
    requires i <= |a|
    ensures InQuote(a + b, i) == InQuote(a, i)
  {
    if i > 0 { InQuotePrefix(a, b, i - 1); }
  }

  lemma {:induction false} InQuoteConcat(a: string, b: string, i: nat)
    requires i <= |b|
    ensures InQuote(a + b, |a| + i) == (InQuote(a, |a|) != InQuote(b, i))
  {
    if i == 0 { InQuotePrefix(a, b, |a|); } else { InQuoteConcat(a, b, i - 1); }
  }

  lemma {:induction false} InQuoteOfFree(s: string, i: nat)
    requires i <= |s| && Free(s, DQUOTE)
    ensures !InQuote(s, i)
  {
    if i > 0 { InQuoteOfFree(s, i - 1); }
  }

  /** Quotes balance, and no newline stands outside them. */
  predicate Clean(t: string) {
    !InQuote(t, |t|) && forall i :: 0 <= i < |t| && t[i] == LF ==> InQuote(t, i)
  }

  lemma CleanConcat(a: string, b: string)
    requires Clean(a) && Clean(b)
    ensures Clean(a + b)
  {
    hide InQuote;
    InQuoteConcat(a, b, |b|);
    forall i | 0 <= i < |a + b| && (a + b)[i] == LF ensures InQuote(a + b, i) {
      if i < |a| { InQuotePrefix(a, b, i); } else { InQuoteConcat(a, b, i - |a|); }
    }
  }

  /** Everything but quotes stands inside quotes. */
  predicate Shielded(t: string) {
    forall i :: 0 <= i < |t| && t[i] != DQUOTE ==> InQuote(t, i)
  }

  /** In a doubled text the quotes come in pairs, so every other character sees an even number of them. */
  lemma {:induction false} DoubledParity(z: string, i: nat)
    requires i <= |Doubled(z, DQUOTE)|
    ensures i < |Doubled(z, DQUOTE)| && Doubled(z, DQUOTE)[i] != DQUOTE ==> !InQuote(Doubled(z, DQUOTE), i)
    ensures i == |Doubled(z, DQUOTE)| ==> !InQuote(Doubled(z, DQUOTE), i)
  {
    if z == "" {
      assert !InQuote("", 0);
    } else {
      var head := if z[0] == DQUOTE then "\"\"" else [z[0]];
      var tail := Doubled(z[1..], DQUOTE);
      assert Doubled(z, DQUOTE) == head + tail;
      if i < |head| {
        InQuotePrefix(head, tail, i);
        assert i == 0 ==> !InQuote(head, i);
      } else {
        HeadParity(z[0]);
        InQuoteConcat(head, tail, i - |head|);
        DoubledParity(z[1..], i - |head|);
      }
    }
  }

  lemma HeadParity(c: char)
    ensures var head := if c == DQUOTE then "\"\"" else [c]; !InQuote(head, |head|)
  {
    QuoteParity();
    InQuoteStep([c], 0);
  }

  lemma QuotedParity(z: string)
    ensures Clean(Quoted(z, DQUOTE)) && Shielded(Quoted(z, DQUOTE))
  {
    hide InQuote, Doubled;
    var d := Doubled(z, DQUOTE);
    var t := Quoted(z, DQUOTE);
    assert t == "\"" + (d + "\"");
    QuoteParity();
    forall i | 0 <= i <= |d|
      ensures InQuote(t, i + 1) == !InQuote(d, i)
    {
      InQuoteConcat("\"", d + "\"", i);
      InQuotePrefix(d, "\"", i);
    }
    DoubledParity(z, |d|);
    InQuoteStep(t, |d| + 1);
    forall i | 0 <= i < |t| && t[i] != DQUOTE
      ensures InQuote(t, i)
    {
      DoubledParity(z, i - 1);
      assert t[i] == d[i - 1];
    }
  }

  // ----- Separators on which the quote test is sound -----

  /** Bytes a separator may hold at all. */
  predicate SepBytes(sep: string) {
    sep != "" && Free(sep, DQUOTE) && Free(sep, LF) && Free(sep, NUL)
  }

  /** One byte long, or holding a byte that itself forces quotes. */
  predicate SoundSep(sep: string) {
    |sep| == 1 || exists m :: 0 <= m < |sep| && NeedCsvQuote(sep[m])
  }

  lemma FieldClean(z: string, sep: string)
    ensures Clean(CsvField(z, sep))
  {
    hide InQuote, Doubled;
    if MustQuote(z, sep) {
      QuotedParity(z);
    } else {
      assert forall i :: 0 <= i < |z| ==> !NeedCsvQuote(z[i]);
      InQuoteOfFree(z, |z|);
    }
  }

  /** A printed field is followed by no early separator, whatever the row goes on with. */
  lemma FieldEndsAtSep(z: string, sep: string, rest: string)
    requires SepBytes(sep) && SoundSep(sep)
    requires rest == "" || sep <= rest
    ensures FirstSep(CsvField(z, sep) + rest, sep, 0) == |CsvField(z, sep)|
  {
    hide InQuote, Doubled;
    var t := CsvField(z, sep);
    var s := t + rest;
    forall i | 0 <= i < |t|
      ensures !SepAt(s, i, sep)
    {
      InQuotePrefix(t, rest, i + 1);
      InQuoteStep(t, i);
      if MustQuote(z, sep) {
        QuotedParity(z);
        assert t[i] == DQUOTE ==> s[i..][0] != sep[0];
      } else {
        var k := NoOverlap(z, sep, rest, i);
        assert i + k < |s| ==> s[i..][k] != sep[k];
      }
    }
    if rest != "" {
      FieldClean(z, sep);
      InQuotePrefix(t, rest, |t|);
      InQuoteStep(s, |t|);
      assert s[|t|..] == rest;
      assert s[|t|] == sep[0];
      assert SepAt(s, |t|, sep);
    }
  }

  /** An unquoted field never runs into a sound separator: some byte `k` of the separator differs. */
  lemma NoOverlap(z: string, sep: string, rest: string, i: nat) returns (k: nat)
    requires SepBytes(sep) && SoundSep(sep) && !MustQuote(z, sep)
    requires (rest == "" || sep <= rest) && i < |z|
    ensures k < |sep| && (i + k < |z + rest| ==> (z + rest)[i + k] != sep[k])
  {
    if |sep| == 1 {
      k := 0;
      assert !SepHit(z, i, sep);
    } else {
      k := FirstSpecial(sep);
      if i + k < |z| {
        assert !NeedCsvQuote(z[i + k]);
      } else if i + k < |z + rest| {
        assert (z + rest)[i + k] == rest[i + k - |z|] == sep[i + k - |z|];
      }
    }
  }

  lemma FirstSpecial(sep: string) returns (m: nat)
    requires exists m :: 0 <= m < |sep| && NeedCsvQuote(sep[m])
    ensures m < |sep| && NeedCsvQuote(sep[m])
    ensures forall k :: 0 <= k < m ==> !NeedCsvQuote(sep[k])
  {
    m := 0;
    while !NeedCsvQuote(sep[m])
      invariant 0 <= m < |sep| && forall k :: 0 <= k < m ==> !NeedCsvQuote(sep[k])
      decreases |sep| - m
    {
      m := m + 1;
    }
  }

  // ----- The round trip -----

  lemma {:induction false} UndoubleInverts(z: string)
    ensures Undouble(Doubled(z, DQUOTE) + "\"") == z
  {
    if z != "" {
      UndoubleInverts(z[1..]);
      var t := Doubled(z, DQUOTE) + "\"";
      var tail := Doubled(z[1..], DQUOTE) + "\"";
      if z[0] == DQUOTE {
        assert t == "\"\"" + tail && t[2..] == tail;
      } else {
        assert t == [z[0]] + tail && t[1..] == tail;
      }
      assert z == [z[0]] + z[1..];
    }
  }

  lemma DequoteInverts(z: string, sep: string)
    ensures Dequote(CsvField(z, sep)) == z
  {
    if MustQuote(z, sep) {
      assert Quoted(z, DQUOTE)[1..] == Doubled(z, DQUOTE) + "\"";
      UndoubleInverts(z);
    } else {
      assert !NeedCsvQuote(z[0]);
    }
  }

  /** Rows `.import` can be asked to restore: `n` text cells each. */
  predicate TextRow(row: seq<Cell>, n: nat) {
    |row| == n && forall i :: 0 <= i < n ==> row[i].Some? && NulFree(row[i].value)
  }

  predicate TextRows(rows: seq<seq<Cell>>, n: nat) {
    forall r :: 0 <= r < |rows| ==> TextRow(rows[r], n)
  }

  lemma SplitStep(t: string, sep: string, rest: string)
    requires sep != "" && FirstSep(t + (sep + rest), sep, 0) == |t|
    ensures Split(t + (sep + rest), sep) == [t] + Split(rest, sep)
  {
    hide FirstSep, SepAt;
    var s := t + (sep + rest);
    assert s[..|t|] == t && s[|t| + |sep|..] == rest;
  }

  function Fields(row: seq<Cell>, sep: string): (fs: seq<string>)
    requires TextRow(row, |row|)
    ensures |fs| == |row|
    ensures forall i :: 0 <= i < |row| ==> fs[i] == CsvField(row[i].value, sep)
  {
    seq(|row|, i requires 0 <= i < |row| => CsvField(row[i].value, sep))
  }

  lemma {:induction false} CellsSplit(row: seq<Cell>, sep: string, nullvalue: string)
    requires SepBytes(sep) && SoundSep(sep) && |row| >= 1 && TextRow(row, |row|)
    ensures Split(CsvCells(row, sep, nullvalue), sep) == Fields(row, sep)
  {
    hide FirstSep, SepAt, MustQuote;
    var t := CsvField(row[0].value, sep);
    if |row| == 1 {
      FieldEndsAtSep(row[0].value, sep, "");
      assert t + "" == t;
    } else {
      var rest := CsvCells(row[1..], sep, nullvalue);
      FieldEndsAtSep(row[0].value, sep, sep + rest);
      SplitStep(t, sep, rest);
      CellsSplit(row[1..], sep, nullvalue);
      assert CsvCells(row, sep, nullvalue) == t + (sep + rest);
      assert Fields(row, sep) == [t] + Fields(row[1..], sep);
    }
  }

  lemma CellsInvert(row: seq<Cell>, sep: string, nullvalue: string)
    requires SepBytes(sep) && SoundSep(sep) && |row| >= 1 && TextRow(row, |row|)
    ensures DequoteAll(Split(CsvCells(row, sep, nullvalue), sep)) == row
  {
    CellsSplit(row, sep, nullvalue);
    forall i | 0 <= i < |row|
      ensures Dequote(Fields(row, sep)[i]) == row[i].value
    {
      DequoteInverts(row[i].value, sep);
    }
  }

  lemma {:induction false} CellsClean(row: seq<Cell>, sep: string, nullvalue: string)
    requires SepBytes(sep) && |row| >= 1 && TextRow(row, |row|)
    ensures var s := CsvCells(row, sep, nullvalue);
            Clean(s) && s != "" && s[|s| - 1] != '\r'
  {
    hide InQuote, Doubled;
    var z := row[0].value;
    FieldClean(z, sep);
    var t := CsvField(z, sep);
    if |row| == 1 {
      assert MustQuote(z, sep) || !NeedCsvQuote(z[|z| - 1]);
    } else {
      InQuoteOfFree(sep, |sep|);
      CellsClean(row[1..], sep, nullvalue);
      var rest := CsvCells(row[1..], sep, nullvalue);
      CleanConcat(t, sep);
      CleanConcat(t + sep, rest);
    }
  }

  /** The record reader cuts the text exactly after the first printed row. */
  lemma RowIsFirstLine(row: seq<Cell>, sep: string, nullvalue: string, rest: string)
    requires SepBytes(sep) && |row| >= 1 && TextRow(row, |row|)
    ensures LineOf(CsvRow(row, sep, nullvalue) + rest, true) == CsvCells(row, sep, nullvalue)
    ensures AfterLine(CsvRow(row, sep, nullvalue) + rest, true) == rest
  {
    CellsClean(row, sep, nullvalue);
    var t := CsvCells(row, sep, nullvalue);
    assert CsvRow(row, sep, nullvalue) + rest == t + ("\n" + rest);
    CleanLineEnds(t, rest);
  }

  lemma CleanLineEnds(t: string, rest: string)
    requires Clean(t) && t != "" && t[|t| - 1] != '\r'
    ensures LineOf(t + ("\n" + rest), true) == t && AfterLine(t + ("\n" + rest), true) == rest
  {
    hide InQuote, FirstEol;
    var s := t + ("\n" + rest);
    forall i | 0 <= i <= |t|
      ensures InQuote(s, i) == InQuote(t, i)
    {
      InQuotePrefix(t, "\n" + rest, i);
    }
    assert forall i :: 0 <= i < |t| ==> !EolAt(s, i, true);
    assert EolAt(s, |t|, true);
    assert FirstEol(s, true, 0) == |t|;
    assert s[..|t|] == t && s[|t| + 1..] == rest;
  }

  lemma {:induction false} CsvRoundTrip(rows: seq<seq<Cell>>, sep: string, nullvalue: string, n: nat)
    requires SepBytes(sep) && SoundSep(sep)
    requires n >= 1 && TextRows(rows, n)
    ensures ImportText(CsvText(rows, sep, nullvalue), sep, n) == Some(rows)
  {
    hide LineOf, AfterLine, Split, CsvCells, DequoteAll;
    if rows != [] {
      var row, rest := rows[0], CsvText(rows[1..], sep, nullvalue);
      assert TextRow(row, n);
      RowIsFirstLine(row, sep, nullvalue, rest);
      CellsInvert(row, sep, nullvalue);
      CsvRoundTrip(rows[1..], sep, nullvalue, n);
      assert rows == [row] + rows[1..];
    }
  }

  // ----- Other line ends, and tables that do not fit -----

  /** The same table with CR LF line ends. */
  function CrLfText(rows: seq<seq<Cell>>, sep: string, nullvalue: string): string {
    if rows == [] then "" else CsvCells(rows[0], sep, nullvalue) + "\r\n" + CrLfText(rows[1..], sep, nullvalue)
  }

  lemma CrLfLineEnds(t: string, rest: string)
    requires Clean(t)
    ensures LineOf(t + ("\r\n" + rest), true) == t && AfterLine(t + ("\r\n" + rest), true) == rest
  {
    hide InQuote, FirstEol;
    var u := t + "\r";
    var s := t + ("\r\n" + rest);
    assert s == u + ("\n" + rest);
    InQuotePrefix(t, "\r\n" + rest, |t|);
    forall i | 0 <= i <= |t|
      ensures InQuote(s, i) == InQuote(t, i)
    {
      InQuotePrefix(t, "\r\n" + rest, i);
    }
    InQuoteStep(s, |t|);
    assert s[|t|] == '\r' && s[|t| + 1] == LF;
    assert forall i :: 0 <= i < |t| ==> !EolAt(s, i, true);
    assert !EolAt(s, |t|, true) && EolAt(s, |t| + 1, true);
    assert FirstEol(s, true, 0) == |t| + 1;
    assert s[..|t|] == t && s[|t| + 2..] == rest;
  }

  /** A file with CR LF line ends imports as the same table. */
  lemma {:induction false} CrLfRoundTrip(rows: seq<seq<Cell>>, sep: string, nullvalue: string, n: nat)
    requires SepBytes(sep) && SoundSep(sep)
    requires n >= 1 && TextRows(rows, n)
    ensures ImportText(CrLfText(rows, sep, nullvalue), sep, n) == Some(rows)
  {
    hide LineOf, AfterLine, Split, CsvCells, DequoteAll;
    if rows != [] {
      var row, rest := rows[0], CrLfText(rows[1..], sep, nullvalue);
      assert TextRow(row, n);
      CellsClean(row, sep, nullvalue);
      var t := CsvCells(row, sep, nullvalue);
      assert CrLfText(rows, sep, nullvalue) == t + ("\r\n" + rest);
      CrLfLineEnds(t, rest);
      CellsInvert(row, sep, nullvalue);
      CrLfRoundTrip(rows[1..], sep, nullvalue, n);
      assert rows == [row] + rows[1..];
    }
  }

  lemma OpenLine(t: string)
    requires Clean(t)
    ensures LineOf(t, true) == t && AfterLine(t, true) == ""
  {
    hide InQuote, FirstEol;
    assert FirstEol(t, true, 0) == |t| by { assert forall i :: 0 <= i < |t| ==> !EolAt(t, i, true); }
  }

  /** The last record needs no line end. */
  lemma {:induction false} OpenEndRoundTrip(rows: seq<seq<Cell>>, sep: string, nullvalue: string, n: nat)
    requires SepBytes(sep) && SoundSep(sep)
    requires n >= 1 && TextRows(rows, n) && rows != []
    ensures var text := CsvText(rows, sep, nullvalue);
            text != "" && ImportText(text[..|text| - 1], sep, n) == Some(rows)
  {
    hide LineOf, AfterLine, Split, CsvCells, DequoteAll;
    var row, rest := rows[0], CsvText(rows[1..], sep, nullvalue);
    assert TextRow(row, n);
    CellsInvert(row, sep, nullvalue);
    var t, text := CsvCells(row, sep, nullvalue), CsvText(rows, sep, nullvalue);
    assert text == t + ("\n" + rest);
    if |rows| == 1 {
      CellsClean(row, sep, nullvalue);
      OpenLine(t);
      assert text[..|text| - 1] == t;
      assert ImportText("", sep, n) == Some([]);
      assert ImportText(t, sep, n) == Some([DequoteAll(Split(LineOf(t, true), sep))] + []);
      assert rows == [row] + [];
    } else {
      OpenEndRoundTrip(rows[1..], sep, nullvalue, n);
      var open := rest[..|rest| - 1];
      assert text[..|text| - 1] == CsvRow(row, sep, nullvalue) + open;
      RowIsFirstLine(row, sep, nullvalue, open);
      assert rows == [row] + rows[1..];
    }
  }

  /** Outside CSV mode a line ends at the first newline, quotes or not. */
  lemma PlainLine(t: string, rest: string)
    requires Free(t, LF)
    ensures LineOf(t + ("\n" + rest), false) == if t != "" && t[|t| - 1] == '\r' then t[..|t| - 1] else t
    ensures AfterLine(t + ("\n" + rest), false) == rest
    ensures LineOf(t, false) == t && AfterLine(t, false) == ""
  {
    hide FirstEol;
    var s := t + ("\n" + rest);
    assert EolAt(s, |t|, false) && forall i :: 0 <= i < |t| ==> !EolAt(s, i, false);
    assert FirstEol(s, false, 0) == |t|;
    assert s[..|t|] == t && s[|t| + 1..] == rest;
    assert forall i :: 0 <= i < |t| ==> !EolAt(t, i, false);
    assert FirstEol(t, false, 0) == |t|;
  }

  /** A table with another number of columns is rejected as a whole, wherever its rows stand. */
  lemma {:induction false} WrongCountRejected(rows: seq<seq<Cell>>, sep: string, nullvalue: string, n: nat, bad: nat)
    requires SepBytes(sep) && SoundSep(sep) && bad < |rows| && |rows[bad]| != n
    requires forall r :: 0 <= r < |rows| ==> |rows[r]| >= 1 && TextRow(rows[r], |rows[r]|)
    ensures ImportText(CsvText(rows, sep, nullvalue), sep, n) == None
  {
    hide LineOf, AfterLine, Split, CsvCells, DequoteAll;
    var row, rest := rows[0], CsvText(rows[1..], sep, nullvalue);
    RowIsFirstLine(row, sep, nullvalue, rest);
    CellsInvert(row, sep, nullvalue);
    if bad > 0 {
      WrongCountRejected(rows[1..], sep, nullvalue, n, bad - 1);
    }
  }

  /** What is imported has the right number of columns throughout. */
  lemma {:induction false} ImportedFits(text: string, sep: string, n: nat)
    requires sep != "" && ImportText(text, sep, n).Some?
    ensures forall r :: 0 <= r < |ImportText(text, sep, n).value| ==> |ImportText(text, sep, n).value[r]| == n
    decreases |text|
  {
    hide LineOf, AfterLine, Split;
    if text != "" { ImportedFits(AfterLine(text, true), sep, n); }
  }

  // ----- The separators on which it fails -----

  /** A row that an unsound separator breaks: its first field hides the separator past its first byte. */
  function BreakingField(sep: string): string
    requires sep != ""
  {
    [if sep[0] == 'a' then 'b' else 'a'] + sep
  }

  function BreakingRow(sep: string, n: nat): seq<Cell>
    requires sep != ""
  {
    seq(n, i => if i == 0 then Some(BreakingField(sep)) else Some("a"))
  }

  lemma UnsoundSepBreaks(sep: string, nullvalue: string, n: nat)
    requires SepBytes(sep) && !SoundSep(sep) && n >= 1
    ensures TextRow(BreakingRow(sep, n), n)
    ensures ImportText(CsvText([BreakingRow(sep, n)], sep, nullvalue), sep, n) != Some([BreakingRow(sep, n)])
  {
    hide MustQuote, NeedCsvQuote, Split;
    var row := BreakingRow(sep, n);
    var z := BreakingField(sep);
    assert row[0] == Some(z);
    BreakingFieldUnquoted(sep);
    var text := CsvText([row], sep, nullvalue);
    assert z <= CsvCells(row, sep, nullvalue) <= text;
    LineKeepsPrefix(text, z);
    SplitsAtOne(LineOf(text, true), z, sep);
    assert Dequote([z[0]]) == [z[0]];
  }

  lemma BreakingFieldUnquoted(sep: string)
    requires SepBytes(sep) && !SoundSep(sep)
    ensures var z := BreakingField(sep);
            && !MustQuote(z, sep) && z[0] != sep[0] && z[0] != DQUOTE && z[1..] == sep
            && NulFree(z) && Free(z, LF) && Free(z, '\r') && Free(z, DQUOTE)
  {
    var z := BreakingField(sep);
    assert forall k :: 1 <= k < |z| ==> z[k] == sep[k - 1] && !NeedCsvQuote(z[k]);
    assert !NeedCsvQuote(z[0]) && !(sep <= z);
  }

  /** Text without line ends in front of the input is in front of its first record. */
  lemma LineKeepsPrefix(text: string, z: string)
    requires z <= text && Free(z, LF) && Free(z, '\r')
    ensures z <= LineOf(text, true)
  {
    assert forall k :: 0 <= k < |z| ==> text[k] == z[k];
    assert forall i :: 0 <= i < |z| ==> !EolAt(text, i, true);
    assert z != "" ==> text[|z| - 1] == z[|z| - 1];
  }

  lemma SplitsAtOne(line: string, z: string, sep: string)
    requires z <= line && sep != "" && Free(z, DQUOTE) && |z| > 1 && z[1..] == sep && z[0] != sep[0]
    ensures Split(line, sep)[0] == [z[0]]
  {
    assert line == z + line[|z|..];
    InQuoteOfFree(z, 2);
    InQuotePrefix(z, line[|z|..], 2);
    assert line[1..][..|sep|] == sep;
    assert SepAt(line, 1, sep);
    assert line[0] == z[0] && !SepAt(line, 0, sep);
    assert FirstSep(line, sep, 0) == 1;
  }

  /** The exact condition on separators: every table survives printing and importing, or some one-row table does not. */
  lemma CsvRoundTripIff(sep: string, nullvalue: string, n: nat)
    requires SepBytes(sep) && n >= 1
    ensures SoundSep(sep) <==>
            forall rows: seq<seq<Cell>> | TextRows(rows, n) ::
              ImportText(CsvText(rows, sep, nullvalue), sep, n) == Some(rows)
  {
    if SoundSep(sep) {
      forall rows: seq<seq<Cell>> | TextRows(rows, n)
        ensures ImportText(CsvText(rows, sep, nullvalue), sep, n) == Some(rows)
      {
        CsvRoundTrip(rows, sep, nullvalue, n);
      }
    } else {
      UnsoundSepBreaks(sep, nullvalue, n);
      assert TextRows([BreakingRow(sep, n)], n);
    }
  }
}
