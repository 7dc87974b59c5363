/** The shell's three quoting routines and the doubled-quote form they share. */
module SqlQuoting {
  import opened CText

  /** A cell of a result row; None is NULL. */
  type Cell = Option<string>

  // ----- The doubled-quote form (SQL-92, sections 5.2 and 5.3) -----

  function Doubled(s: string, q: char): string {
    if s == "" then "" else (if s[0] == q then [q, q] else [s[0]]) + Doubled(s[1..], q)
  }

  function Quoted(s: string, q: char): string {
    [q] + Doubled(s, q) + [q]
  }

  /** Reads a quoted text whose opening quote has been consumed: the text and what follows the closing quote. */
  function TakeQuoted(t: string, q: char): Option<(string, string)> {
    if t == "" then None
    else if t[0] != q then
      match TakeQuoted(t[1..], q)
      case None => None
      case Some(r) => Some(([t[0]] + r.0, r.1))
    else if |t| > 1 && t[1] == q then
      match TakeQuoted(t[2..], q)
      case None => None
      case Some(r) => Some(([q] + r.0, r.1))
    else Some(("", t[1..]))
  }

  /** Quoting loses nothing: a reader recovers the text, and stops exactly at the closing quote. */
  lemma {:induction false} TakeQuotedInverts(s: string, q: char, rest: string)
    requires rest == "" || rest[0] != q
    ensures TakeQuoted(Doubled(s, q) + [q] + rest, q) == Some((s, rest))
  {
    var t := Doubled(s, q) + [q] + rest;
    if s == "" {
      assert t == [q] + rest;
      assert t[1..] == rest;
    } else {
      TakeQuotedInverts(s[1..], q, rest);
      var tail := Doubled(s[1..], q) + [q] + rest;
      if s[0] == q {
        assert t == [q, q] + tail;
        assert t[2..] == tail;
      } else {
        assert t == [s[0]] + tail;
        assert t[1..] == tail;
      }
      assert s == [s[0]] + s[1..];
    }
  }

  lemma {:induction false} DoubledOfFree(s: string, q: char)
    requires Free(s, q)
    ensures Doubled(s, q) == s
  {
    if s != "" {
      DoubledOfFree(s[1..], q);
      assert s == [s[0]] + s[1..];
    }
  }

  lemma {:induction false} DoubledNulFree(s: string, q: char)
    requires NulFree(s) && q != NUL
    ensures NulFree(Doubled(s, q))
  {
    if s != "" { DoubledNulFree(s[1..], q); }
  }

  /** Doubling step for loops that walk `s` by index. */
  lemma DoubledStep(s: string, q: char, i: nat)
    requires i < |s|
    ensures Doubled(s[i..], q) == (if s[i] == q then [q, q] else [s[i]]) + Doubled(s[i + 1..], q)
  {
    assert s[i..][1..] == s[i + 1..];
  }

  /** A run without the quote is copied as it is. */
  lemma {:induction false} DoubledRun(s: string, q: char, i: nat, j: nat)
    requires i <= j <= |s| && forall k :: i <= k < j ==> s[k] != q
    ensures Doubled(s[i..], q) == s[i..j] + Doubled(s[j..], q)
    decreases j - i
  {
    hide Doubled;
    if i < j {
      DoubledStep(s, q, i);
      DoubledRun(s, q, i + 1, j);
      assert s[i..j] == [s[i]] + s[i + 1..j];
      Regroup([s[i]], s[i + 1..j], Doubled(s[j..], q));
    }
  }

  // ----- output_quoted_string -----

  /** An output stream. */
  class OutFile {
    var text: string

    constructor ()
      ensures text == ""
    {
      text := "";
    }

    method Print(s: string)
      modifies this
      ensures text == old(text) + s
    {
      text := text + s;
    }
  }

  method OutputQuotedString(out: OutFile, z: string)
    modifies out
    ensures out.text == old(out.text) + Quoted(z, SQUOTE)
  {
    var nSingle := 0;
    for i := 0 to |z|
      invariant nSingle >= 0
      invariant nSingle == 0 ==> Free(z[..i], SQUOTE)
    {
      if z[i] == SQUOTE { nSingle := nSingle + 1; }
    }
    if nSingle == 0 {
      assert z[..|z|] == z;
      DoubledOfFree(z, SQUOTE);
      out.Print("'" + z + "'");
    } else {
      out.Print("'");
      OutputRuns(out, z);
      out.Print("'");
    }
  }

  /** The slow path: prints each run up to a quote, and the quote doubled. */
  method OutputRuns(out: OutFile, z: string)
    modifies out
    ensures out.text == old(out.text) + Doubled(z, SQUOTE)
  {
    hide Doubled;
    var p := 0;
    ghost var done := "";
    DoubledNothing(z, SQUOTE);
    while p < |z|
      invariant p <= |z|
      invariant out.text == old(out.text) + done
      invariant done + Doubled(z[p..], SQUOTE) == Doubled(z, SQUOTE)
    {
      var i := RunLength(z, p);
      ghost var piece := RunPiece(z, p, i, done);
      if i == 0 {
        out.Print("''");
        p := p + 1;
      } else if p + i < |z| {
        out.Print(z[p..p + i] + "''");
        p := p + i + 1;
      } else {
        out.Print(z[p..]);
        p := |z|;
      }
      Regroup(old(out.text), done, piece);
      done := done + piece;
    }
    DoubledNothing(z[|z|..], SQUOTE);
  }

  lemma DoubledNothing(s: string, q: char)
    ensures "" + Doubled(s[0..], q) == Doubled(s, q) && (s == "" ==> Doubled(s, q) == "")
  {
    assert s[0..] == s;
  }

  /** One turn of the slow path: the run, and the quote after it if there is one, moves from the rest to the output. */
  lemma RunPiece(z: string, p: nat, i: nat, done: string) returns (piece: string)
    requires p < |z| && p + i <= |z| && forall k :: p <= k < p + i ==> z[k] != SQUOTE
    requires p + i == |z| || z[p + i] == SQUOTE
    requires done + Doubled(z[p..], SQUOTE) == Doubled(z, SQUOTE)
    ensures piece == if p + i == |z| then z[p..] else if i == 0 then "''" else z[p..p + i] + "''"
    ensures done + piece + Doubled(z[if p + i == |z| then |z| else p + i + 1..], SQUOTE) == Doubled(z, SQUOTE)
  {
    DoubledRun(z, SQUOTE, p, p + i);
    if p + i < |z| {
      DoubledStep(z, SQUOTE, p + i);
      piece := z[p..p + i] + "''";
      Regroup(z[p..p + i], "''", Doubled(z[p + i + 1..], SQUOTE));
      Regroup(done, piece, Doubled(z[p + i + 1..], SQUOTE));
    } else {
      piece := z[p..];
      Regroup(done, piece, Doubled(z[|z|..], SQUOTE));
    }
  }

  method RunLength(z: string, p: nat) returns (i: nat)
    requires p <= |z|
    ensures p + i <= |z| && forall k :: p <= k < p + i ==> z[k] != SQUOTE
    ensures p + i == |z| || z[p + i] == SQUOTE
  {
    i := 0;
    while p + i < |z| && z[p + i] != SQUOTE
      invariant p + i <= |z|
      invariant forall k :: p <= k < p + i ==> z[k] != SQUOTE
    {
      i := i + 1;
    }
  }

  // ----- set_table_name -----

  predicate WordChar(c: char) {
    IsAlnum(c) || c == '_'
  }

  /** A name that needs no quotes. */
  predicate PlainName(s: string) {
    && s != ""
    && (IsAlpha(s[0]) || s[0] == '_')
    && forall i :: 0 <= i < |s| ==> WordChar(s[i])
  }

  function TableName(s: string): string {
    if PlainName(s) then s else Quoted(s, SQUOTE)
  }

  /** The fill loop of both two-pass routines: copies `s` to the buffer at `at`, doubling each quote. */
  method PutDoubled(z: array<char>, at: nat, s: string, q: char) returns (n: nat)
    requires at + |Doubled(s, q)| <= z.Length
    modifies z
    ensures n == at + |Doubled(s, q)|
    ensures z[at..n] == Doubled(s, q)
    ensures z[..at] == old(z[..at]) && z[n..] == old(z[n..])
  {
    hide Doubled;
    n := at;
    ghost var done := "";
    DoubledNothing(s, q);
    for i := 0 to |s|
      invariant n == at + |done| && |done| + |Doubled(s[i..], q)| == |Doubled(s, q)|
      invariant z[at..n] == done
      invariant done + Doubled(s[i..], q) == Doubled(s, q)
      invariant z[..at] == old(z[..at])
      invariant forall k :: n <= k < z.Length ==> z[k] == old(z[k])
    {
      done := DoubledTurn(s, q, i, done);
      z[n] := s[i];
      n := n + 1;
      if s[i] == q {
        z[n] := q;
        n := n + 1;
      }
    }
    DoubledNothing(s[|s|..], q);
  }

  /** One turn of the fill loop. */
  lemma DoubledTurn(s: string, q: char, i: nat, done: string) returns (next: string)
    requires i < |s| && done + Doubled(s[i..], q) == Doubled(s, q)
    ensures next == done + if s[i] == q then [q, q] else [s[i]]
    ensures next + Doubled(s[i + 1..], q) == Doubled(s, q)
    ensures |next| + |Doubled(s[i + 1..], q)| == |Doubled(s, q)|
  {
    DoubledStep(s, q, i);
    var piece := if s[i] == q then [q, q] else [s[i]];
    next := done + piece;
    Regroup(done, piece, Doubled(s[i + 1..], q));
  }

  /** First pass: whether the name needs quotes, and how many bytes it takes with them. */
  method CountTableName(zName: string) returns (needQuote: bool, n: nat)
    ensures needQuote <==> !PlainName(zName)
    ensures needQuote <==> zName == "" || !(IsAlpha(zName[0]) || zName[0] == '_')
                           || exists k :: 0 <= k < |zName|
                                          && !(IsAlpha(zName[k]) || IsDigit(zName[k]) || zName[k] == '_')
    ensures n == |TableName(zName)|
  {
    hide Doubled;
    DoubledNothing(zName, SQUOTE);
    needQuote := zName == "" || (!IsAlpha(zName[0]) && zName[0] != '_');
    ghost var badStart := needQuote;
    n := 0;
    for i := 0 to |zName|
      invariant !needQuote <==> !badStart && forall k :: 0 <= k < i ==> WordChar(zName[k])
      invariant n + |Doubled(zName[i..], SQUOTE)| == |Doubled(zName, SQUOTE)|
    {
      DoubledStep(zName, SQUOTE, i);
      if !IsAlnum(zName[i]) && zName[i] != '_' {
        needQuote := true;
        if zName[i] == SQUOTE { n := n + 1; }
      }
      n := n + 1;
    }
    DoubledNothing(zName[|zName|..], SQUOTE);
    if needQuote { n := n + 2; } else { DoubledOfFree(zName, SQUOTE); }
  }

  /** First pass counts, second pass fills: the buffer ends exactly at its terminator. */
  method CopyTableName(zName: string) returns (z: array<char>)
    requires NulFree(zName)
    ensures fresh(z)
    ensures CStringAt(z, 0, TableName(zName))
    ensures z.Length == |TableName(zName)| + 1
  {
    hide CStringAt, Doubled, PlainName, TableName, NulFree;
    var needQuote, size := CountTableName(zName);
    NameIs(zName);
    ghost var body := Doubled(zName, SQUOTE);
    z := new char[size + 1];
    var n := 0;
    if needQuote {
      z[n] := SQUOTE;
      n := n + 1;
    }
    ghost var open := z[..n];
    n := PutDoubled(z, n, zName, SQUOTE);
    assert z[..n] == open + body;
    if needQuote {
      z[n] := SQUOTE;
      n := n + 1;
      assert z[..n] == open + body + [SQUOTE];
    }
    z[n] := NUL;
    assert z[..n] == TableName(zName);
    SliceIsCString(z, TableName(zName));
  }

  lemma NameIs(zName: string)
    requires NulFree(zName)
    ensures TableName(zName)
         == if PlainName(zName) then [] + Doubled(zName, SQUOTE) else [SQUOTE] + Doubled(zName, SQUOTE) + [SQUOTE]
    ensures NulFree(TableName(zName))
  {
    hide PlainName, Doubled;
    PlainIsFree(zName);
    assert [] + Doubled(zName, SQUOTE) == Doubled(zName, SQUOTE);
  }

  lemma PlainIsFree(zName: string)
    requires NulFree(zName)
    ensures PlainName(zName) ==> Doubled(zName, SQUOTE) == zName
    ensures NulFree(Doubled(zName, SQUOTE))
  {
    DoubledNulFree(zName, SQUOTE);
    if PlainName(zName) { DoubledOfFree(zName, SQUOTE); }
  }

  /** The field of `struct callback_data` that names the table of INSERT statements. */
  class Destination {
    var zDestTable: array?<char>

    constructor ()
      ensures zDestTable == null
    {
      zDestTable := null;
    }

    method SetTableName(zName: Option<string>)
      requires zName.Some? ==> NulFree(zName.value)
      modifies this
      ensures zDestTable == null <==> zName.None?
      ensures zName.Some? ==> fresh(zDestTable) && CStringAt(zDestTable, 0, TableName(zName.value))
    {
      zDestTable := null;
      if zName.None? { return; }
      zDestTable := CopyTableName(zName.value);
    }
  }

  // ----- appendText -----

  method CopyIn(z: array<char>, at: nat, s: string)
    requires at + |s| <= z.Length
    modifies z
    ensures z[at..at + |s|] == s
    ensures z[..at] == old(z[..at]) && z[at + |s|..] == old(z[at + |s|..])
  {
    forall i | 0 <= i < |s| { z[at + i] := s[i]; }
  }

  /** What is appended. */
  function Piece(s: string, quote: char): string {
    if quote == NUL then s else Quoted(s, quote)
  }

  function Appended(prior: string, s: string, quote: char): string {
    prior + Piece(s, quote)
  }

  /** The counting pass. */
  method QuotedSize(s: string, q: char) returns (n: nat)
    ensures n == |Quoted(s, q)|
  {
    n := |s| + 2;
    for i := 0 to |s|
      invariant n + |Doubled(s[i..], q)| == 2 + |s[i..]| + |Doubled(s, q)|
    {
      DoubledStep(s, q, i);
      if s[i] == q { n := n + 1; }
    }
  }

  /** The filling pass, between its two quotes. */
  method PutQuoted(z: array<char>, at: nat, s: string, q: char) returns (n: nat)
    requires at + |Quoted(s, q)| <= z.Length
    modifies z
    ensures n == at + |Quoted(s, q)|
    ensures z[at..n] == Quoted(s, q)
    ensures z[..at] == old(z[..at])
  {
    z[at] := q;
    n := PutDoubled(z, at + 1, s, q);
    z[n] := q;
    n := n + 1;
    assert z[at..n] == [z[at]] + z[at + 1..n - 1] + [z[n - 1]];
  }

  /** Two pieces that lie one behind the other, and the terminator behind them. */
  lemma PiecesAreCString(z: array<char>, was: string, a: string, b: string)
    requires NulFree(a) && NulFree(b) && |was| == z.Length == |a| + |b| + 1
    requires was[..|a|] == a && was[|a|..|a| + |b|] == b
    requires z[|a| + |b|] == NUL && forall k :: 0 <= k < |a| + |b| ==> z[k] == was[k]
    ensures CStringAt(z, 0, a + b)
  {
    assert forall k :: 0 <= k < |a| ==> was[k] == was[..|a|][k];
    assert forall k :: |a| <= k < |a| + |b| ==> was[k] == was[|a|..|a| + |b|][k - |a|];
  }

  lemma PieceNulFree(s: string, quote: char)
    requires NulFree(s)
    ensures NulFree(Piece(s, quote))
  {
    if quote != NUL { DoubledNulFree(s, quote); }
  }

  /** The second half of appendText: writes the piece behind what is there. */
  method PutPiece(z: array<char>, nIn: nat, s: string, quote: char)
    requires nIn + |Piece(s, quote)| < z.Length
    modifies z
    ensures z[nIn..nIn + |Piece(s, quote)|] == Piece(s, quote)
    ensures z[..nIn] == old(z[..nIn])
  {
    hide Quoted;
    if quote != NUL {
      var zCsr := PutQuoted(z, nIn, s, quote);
      assert zCsr == nIn + |Piece(s, quote)|;
    } else {
      CopyIn(z, nIn, s);
    }
  }

  /** `zIn` is NULL or holds `prior`; NUL as the quote means no quoting. */
  method AppendText(zIn: array?<char>, ghost prior: string, zAppend: string, quote: char) returns (z: array<char>)
    requires NulFree(zAppend)
    requires if zIn == null then prior == "" else CStringAt(zIn, 0, prior)
    ensures fresh(z)
    ensures CStringAt(z, 0, Appended(prior, zAppend, quote))
    ensures z.Length == |Appended(prior, zAppend, quote)| + 1
  {
    hide Quoted, CStringAt;
    var text := "";
    if zIn != null {
      CStringIsNulFree(zIn, prior);
      text := ReadCString(zIn, 0, prior);
    }
    var nIn := |text|;
    var size := |zAppend|;
    if quote != NUL { size := QuotedSize(zAppend, quote); }
    z := new char[nIn + size + 1];
    CopyIn(z, 0, text);
    PutPiece(z, nIn, zAppend, quote);
    ghost var was := z[..];
    z[nIn + size] := NUL;
    PieceNulFree(zAppend, quote);
    PiecesAreCString(z, was, text, Piece(zAppend, quote));
  }

  // ----- The dump query: a name quoted as an identifier, then the whole quoted as a literal -----

  /** The front of the dump query, as four calls of appendText build it. */
  method DumpSelect(zTable: string) returns (zSelect: array<char>)
    requires NulFree(zTable)
    ensures CStringAt(zSelect, 0,
                      "SELECT 'INSERT INTO ' || " + Quoted(Quoted(zTable, DQUOTE), SQUOTE) + " || ' VALUES(' || ")
  {
    hide CStringAt, Quoted;
    ghost var select, quoted, values := "SELECT 'INSERT INTO ' || ", Quoted(zTable, DQUOTE), " || ' VALUES(' || ";
    Unprefixed(select);
    Unprefixed(quoted);
    zSelect := AppendText(null, "", "SELECT 'INSERT INTO ' || ", NUL);
    var zTmp := AppendText(null, "", zTable, DQUOTE);
    CStringIsNulFree(zTmp, quoted);
    var text := ReadCString(zTmp, 0, quoted);
    zSelect := AppendText(zSelect, select, text, SQUOTE);
    zSelect := AppendText(zSelect, select + Quoted(quoted, SQUOTE), " || ' VALUES(' || ", NUL);
  }

  lemma Unprefixed(s: string)
    ensures "" + s == s
  {
  }

  lemma CStringIsNulFree(buf: array<char>, s: string)
    requires CStringAt(buf, 0, s)
    ensures NulFree(s)
  {
  }

  /** Un-doubling twice recovers the table name, wherever in the query the literal stands. */
  lemma NestedQuotingInverts(table: string, rest: string)
    requires rest == "" || rest[0] != SQUOTE
    ensures TakeQuoted(Quoted(Quoted(table, DQUOTE), SQUOTE)[1..] + rest, SQUOTE)
            == Some((Quoted(table, DQUOTE), rest))
    ensures TakeQuoted(Quoted(table, DQUOTE)[1..], DQUOTE) == Some((table, ""))
  {
    hide Doubled, TakeQuoted;
    var inner := Quoted(table, DQUOTE);
    assert Quoted(inner, SQUOTE)[1..] == Doubled(inner, SQUOTE) + [SQUOTE];
    assert inner[1..] == Doubled(table, DQUOTE) + [DQUOTE] + "";
    assert Some((inner, rest)) == TakeQuoted(Doubled(inner, SQUOTE) + [SQUOTE] + rest, SQUOTE) by {
      TakeQuotedInverts(inner, SQUOTE, rest);
    }
    TakeQuotedInverts(table, DQUOTE, "");
  }

  /** Reading a stored table name: a quoted name is un-doubled, a plain one stands for itself. */
  function ReadName(t: string): Option<string> {
    if t != "" && t[0] == SQUOTE then
      match TakeQuoted(t[1..], SQUOTE)
      case None => None
      case Some(r) => if r.1 == "" then Some(r.0) else None
    else Some(t)
  }

  lemma TableNameInverts(name: string)
    ensures ReadName(TableName(name)) == Some(name)
  {
    if PlainName(name) {
      assert WordChar(name[0]);
    } else {
      assert TableName(name)[1..] == Doubled(name, SQUOTE) + [SQUOTE] + "";
      TakeQuotedInverts(name, SQUOTE, "");
    }
  }
}
