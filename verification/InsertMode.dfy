/** Insert mode: the number test, the INSERT statement printed for a row, and a reader that gets the row back. */
module InsertMode {
  import opened CText
  import opened SqlQuoting

  // ----- The numeral grammar: [+-]?d+(.d+)?([eE][+-]?d+)? -----

  predicate Sign(s: string) {
    s == "" || s == "+" || s == "-"
  }

  predicate Fraction(s: string) {
    s == "" || (s[0] == '.' && AllDigits(s[1..]))
  }

  predicate IsE(c: char) {
    c == 'e' || c == 'E'
  }

  ghost predicate Exponent(s: string) {
    s == "" || (IsE(s[0]) && exists k: nat :: 1 <= k <= |s| && Sign(s[1..k]) && AllDigits(s[k..]))
  }

  /** `s` cuts at `a`, `b` and `c` into sign, whole part, fraction and exponent. */
  ghost predicate CutsAt(s: string, a: nat, b: nat, c: nat) {
    a <= b <= c <= |s| && Sign(s[..a]) && AllDigits(s[a..b]) && Fraction(s[b..c]) && Exponent(s[c..])
  }

  ghost predicate IsNumeral(s: string) {
    exists a: nat, b: nat, c: nat :: CutsAt(s, a, b, c)
  }

  // ----- isNumber -----

  /** The index after the digits that start at `i`. */
  function DigitRun(s: string, i: nat): (j: nat)
    requires i <= |s|
    ensures i <= j <= |s| && (j < |s| ==> !IsDigit(s[j]))
    ensures forall k :: i <= k < j ==> IsDigit(s[k])
    decreases |s| - i
  {
    if i < |s| && IsDigit(s[i]) then DigitRun(s, i + 1) else i
  }

  function AfterSign(s: string, i: nat): (j: nat)
    requires i <= |s|
    ensures i <= j <= |s|
  {
    if i < |s| && (s[i] == '-' || s[i] == '+') then i + 1 else i
  }

  predicate DigitAt(s: string, i: nat) {
    i < |s| && IsDigit(s[i])
  }

  /** What is left after the whole part is an exponent or nothing. */
  predicate EndsNumber(s: string, i: nat)
    requires i <= |s|
  {
    if i < |s| && IsE(s[i]) then
      var j := AfterSign(s, i + 1);
      DigitAt(s, j) && DigitRun(s, j) == |s|
    else i == |s|
  }

  /** The scan of `isNumber`, index by index. */
  predicate Scans(s: string) {
    var a := AfterSign(s, 0);
    DigitAt(s, a) &&
    var b := DigitRun(s, a);
    if b < |s| && s[b] == '.' then DigitAt(s, b + 1) && EndsNumber(s, DigitRun(s, b + 1))
    else EndsNumber(s, b)
  }

  method SkipDigits(z: string, i: nat) returns (j: nat)
    requires i <= |z|
    ensures j == DigitRun(z, i)
  {
    j := i;
    while j < |z| && IsDigit(z[j])
      invariant i <= j <= |z| && DigitRun(z, i) == DigitRun(z, j)
    {
      j := j + 1;
    }
  }

  /** The exponent, if one starts at `i`, and the final test. */
  method ScanExponent(s: string, i: nat) returns (r: bool, any: bool)
    requires i <= |s|
    ensures r == EndsNumber(s, i)
    ensures r ==> (any <==> i < |s|)
  {
    hide DigitRun;
    var z := i;
    any := false;
    if z < |s| && IsE(s[z]) {
      z := z + 1;
      if z < |s| && (s[z] == '+' || s[z] == '-') { z := z + 1; }
      if !(z < |s| && IsDigit(s[z])) { return false, any; }
      z := SkipDigits(s, z);
      any := true;
    }
    r := z == |s|;
  }

  /** `realnum` tells numbers with a fraction or an exponent from plain integers. */
  method IsNumber(s: string) returns (r: bool, realnum: bool)
    ensures r <==> IsNumeral(s)
    ensures r ==> (realnum <==> DigitRun(s, AfterSign(s, 0)) < |s|)
  {
    hide IsNumeral, DigitRun, EndsNumber;
    ScansIff(s);
    realnum := false;
    var z := 0;
    if z < |s| && (s[z] == '-' || s[z] == '+') { z := z + 1; }
    if !(z < |s| && IsDigit(s[z])) { return false, false; }
    z := SkipDigits(s, z);
    if z < |s| && s[z] == '.' {
      z := z + 1;
      if !(z < |s| && IsDigit(s[z])) { return false, false; }
      z := SkipDigits(s, z);
      realnum := true;
    }
    var any;
    r, any := ScanExponent(s, z);
    realnum := realnum || any;
  }

  lemma {:induction false} RunEnds(s: string, i: nat, j: nat)
    requires i <= j <= |s| && (forall k :: i <= k < j ==> IsDigit(s[k])) && (j < |s| ==> !IsDigit(s[j]))
    ensures DigitRun(s, i) == j
    decreases j - i
  {
    if i < j { RunEnds(s, i + 1, j); }
  }

  /** The scan accepts exactly the numerals. */
  lemma ScansIff(s: string)
    ensures Scans(s) <==> IsNumeral(s)
  {
    hide Scans, CutsAt;
    if Scans(s) { ScanCuts(s); }
    if IsNumeral(s) {
      var a: nat, b: nat, c: nat :| CutsAt(s, a, b, c);
      CutScans(s, a, b, c);
    }
  }

  lemma ScanCuts(s: string)
    requires Scans(s)
    ensures IsNumeral(s)
  {
    hide DigitRun, Exponent, EndsNumber;
    var a := AfterSign(s, 0);
    var b := DigitRun(s, a);
    var c := if b < |s| && s[b] == '.' then DigitRun(s, b + 1) else b;
    assert Sign(s[..a]) && AllDigits(s[a..b]);
    assert c > b ==> s[b..c][1..] == s[b + 1..c];
    assert Fraction(s[b..c]);
    ScannedExponent(s, c);
    assert CutsAt(s, a, b, c);
  }

  lemma ScannedExponent(s: string, c: nat)
    requires c <= |s| && EndsNumber(s, c)
    ensures Exponent(s[c..])
  {
    if c < |s| {
      var j := AfterSign(s, c + 1);
      assert s[c..][1..j - c] == s[c + 1..j] && s[c..][j - c..] == s[j..];
      assert Sign(s[c + 1..j]) && AllDigits(s[j..]);
    }
  }

  lemma CutScans(s: string, a: nat, b: nat, c: nat)
    requires CutsAt(s, a, b, c)
    ensures Scans(s)
  {
    hide DigitRun, Exponent, EndsNumber;
    assert forall k :: a <= k < b ==> s[k] == s[a..b][k - a];
    assert forall k :: b <= k < c ==> s[k] == s[b..c][k - b];
    assert a > 0 ==> s[0] == s[..a][0];
    ExponentStart(s[c..]);
    assert AfterSign(s, 0) == a;
    RunEnds(s, a, b);
    if b < c {
      assert forall k :: b + 1 <= k < c ==> s[k] == s[b..c][1..][k - b - 1];
      RunEnds(s, b + 1, c);
    }
    CutExponent(s, c);
  }

  lemma ExponentStart(e: string)
    requires Exponent(e)
    ensures e == "" || IsE(e[0])
  {
  }

  lemma CutExponent(s: string, c: nat)
    requires c <= |s| && Exponent(s[c..])
    ensures EndsNumber(s, c)
  {
    hide DigitRun;
    var e := s[c..];
    if e != "" {
      var k: nat :| 1 <= k <= |e| && Sign(e[1..k]) && AllDigits(e[k..]);
      var j := c + k;
      assert e[k..] == s[j..] && e[1..k] == s[c + 1..j];
      SignThenDigits(s, c + 1, j);
      RunEnds(s, j, |s|);
    }
  }

  lemma SignThenDigits(s: string, i: nat, j: nat)
    requires i <= j <= |s| && Sign(s[i..j]) && AllDigits(s[j..])
    ensures AfterSign(s, i) == j && DigitAt(s, j) && forall m :: j <= m < |s| ==> IsDigit(s[m])
  {
    assert forall m :: j <= m < |s| ==> s[m] == s[j..][m - j];
    assert j > i ==> s[i] == s[i..j][0];
    assert s[j] == s[j..][0];
  }

  // ----- The statement printed for a row -----

  /** Column types other than BLOB. */
  datatype SqlType = Null | Text | Integer | Float

  /** Column `i` of a row, with its type when types are known. */
  ghost function InsertValue(z: Cell, ty: Option<SqlType>): string {
    if z.None? || ty == Some(Null) then "NULL"
    else if ty == Some(Text) then Quoted(z.value, SQUOTE)
    else if ty == Some(Integer) || ty == Some(Float) || IsNumeral(z.value) then z.value
    else Quoted(z.value, SQUOTE)
  }

  function TypeAt(aiType: Option<seq<SqlType>>, i: nat): Option<SqlType>
    requires aiType.Some? ==> i < |aiType.value|
  {
    if aiType.None? then None else Some(aiType.value[i])
  }

  predicate TypesFit(row: seq<Cell>, aiType: Option<seq<SqlType>>) {
    aiType.Some? ==> |aiType.value| == |row|
  }

  /** The values from column `i` on, each but the very first behind a comma. */
  ghost function InsertValues(row: seq<Cell>, aiType: Option<seq<SqlType>>, i: nat): string
    requires i <= |row| && TypesFit(row, aiType)
    decreases |row| - i
  {
    if i == |row| then ""
    else (if i > 0 then "," else "") + InsertValue(row[i], TypeAt(aiType, i)) + InsertValues(row, aiType, i + 1)
  }

  ghost function InsertLine(table: string, row: seq<Cell>, aiType: Option<seq<SqlType>>): string
    requires TypesFit(row, aiType)
  {
    "INSERT INTO " + table + " VALUES(" + InsertValues(row, aiType, 0) + ");\n"
  }

  method PrintValue(out: OutFile, z: Cell, ty: Option<SqlType>)
    modifies out
    ensures out.text == old(out.text) + InsertValue(z, ty)
  {
    hide IsNumeral;
    if z.None? || ty == Some(Null) {
      out.Print("NULL");
    } else if ty == Some(Text) {
      OutputQuotedString(out, z.value);
    } else if ty == Some(Integer) || ty == Some(Float) {
      out.Print(z.value);
    } else {
      var number, _ := IsNumber(z.value);
      if number { out.Print(z.value); } else { OutputQuotedString(out, z.value); }
    }
  }

  method PrintValues(out: OutFile, row: seq<Cell>, aiType: Option<seq<SqlType>>)
    requires TypesFit(row, aiType)
    modifies out
    ensures out.text == old(out.text) + InsertValues(row, aiType, 0)
  {
    hide InsertValue, InsertValues;
    ghost var done := "";
    for i := 0 to |row|
      invariant out.text == old(out.text) + done
      invariant done + InsertValues(row, aiType, i) == InsertValues(row, aiType, 0)
    {
      done := ValueTurn(row, aiType, i, done);
      if i > 0 { out.Print(","); }
      PrintValue(out, row[i], TypeAt(aiType, i));
    }
    LastValue(row, aiType, done);
  }

  lemma ValueTurn(row: seq<Cell>, aiType: Option<seq<SqlType>>, i: nat, done: string) returns (next: string)
    requires i < |row| && TypesFit(row, aiType)
    requires done + InsertValues(row, aiType, i) == InsertValues(row, aiType, 0)
    ensures next == done + (if i > 0 then "," else "") + InsertValue(row[i], TypeAt(aiType, i))
    ensures next + InsertValues(row, aiType, i + 1) == InsertValues(row, aiType, 0)
  {
    hide InsertValue;
    var zSep := if i > 0 then "," else "";
    next := done + zSep + InsertValue(row[i], TypeAt(aiType, i));
    Regroup(done, zSep, InsertValue(row[i], TypeAt(aiType, i)));
    Regroup(done, zSep + InsertValue(row[i], TypeAt(aiType, i)), InsertValues(row, aiType, i + 1));
  }

  lemma LastValue(row: seq<Cell>, aiType: Option<seq<SqlType>>, done: string)
    requires TypesFit(row, aiType)
    ensures InsertValues(row, aiType, |row|) == "" && done + InsertValues(row, aiType, |row|) == done
  {
  }

  /** The insert case of `shell_callback`. */
  method ShellCallbackInsert(out: OutFile, zDestTable: string, azArg: Option<seq<Cell>>, aiType: Option<seq<SqlType>>)
    requires azArg.Some? ==> TypesFit(azArg.value, aiType)
    modifies out
    ensures out.text == old(out.text) + if azArg.None? then "" else InsertLine(zDestTable, azArg.value, aiType)
  {
    hide InsertValues;
    if azArg.None? { return; }
    out.Print("INSERT INTO " + zDestTable + " VALUES(");
    PrintValues(out, azArg.value, aiType);
    out.Print(");\n");
  }

  // ----- A reader of such statements -----

  /** One value: NULL, a quoted text, or bare characters up to the next comma or parenthesis. */
  function ReadValue(t: string): Option<(Cell, string)> {
    if "NULL" <= t then Some((None, t[4..]))
    else if t != "" && t[0] == SQUOTE then
      match TakeQuoted(t[1..], SQUOTE)
      case None => None
      case Some(r) => Some((Some(r.0), r.1))
    else
      var n := BareEnd(t);
      Some((Some(t[..n]), t[n..]))
  }

  function BareEnd(t: string): (n: nat)
    ensures n <= |t|
  {
    if t == "" || t[0] == ',' || t[0] == ')' then 0 else 1 + BareEnd(t[1..])
  }

  /** The rest of a row whose first `done` values have been read, up to the closing parenthesis. */
  function ReadValues(t: string, done: seq<Cell>): Option<(seq<Cell>, string)>
    decreases |t|
  {
    if t == "" then None
    else if t[0] == ')' then Some((done, t[1..]))
    else if (t[0] == ',') != (done != []) then None
    else
      var u := if done == [] then t else t[1..];
      match ReadValue(u)
      case None => None
      case Some(r) => if |r.1| < |t| then ReadValues(r.1, done + [r.0]) else None
  }

  function ReadTable(t: string): Option<(string, string)> {
    if t != "" && t[0] == SQUOTE then TakeQuoted(t[1..], SQUOTE)
    else var n := WordEnd(t); Some((t[..n], t[n..]))
  }

  function WordEnd(t: string): (n: nat)
    ensures n <= |t|
  {
    if t == "" || !WordChar(t[0]) then 0 else 1 + WordEnd(t[1..])
  }

  /** A whole statement: the table, the row, and what follows. */
  function ReadInsert(t: string): Option<(string, seq<Cell>, string)> {
    if !("INSERT INTO " <= t) then None
    else
      match ReadTable(t[12..])
      case None => None
      case Some(name) =>
        if !(" VALUES(" <= name.1) then None
        else
          match ReadValues(name.1[8..], [])
          case None => None
          case Some(r) => if ";\n" <= r.1 then Some((name.0, r.0, r.1[2..])) else None
  }

  // ----- Which values are quoted -----

  /** A literal as SQL sees it. */
  datatype Literal = NullLiteral | QuotedText(text: string) | BareText(text: string)

  /** The literal in front, and what follows it. */
  function ReadLiteral(t: string): Option<(Literal, string)> {
    if "NULL" <= t then Some((NullLiteral, t[4..]))
    else if t != "" && t[0] == SQUOTE then
      match TakeQuoted(t[1..], SQUOTE)
      case None => None
      case Some(r) => Some((QuotedText(r.0), r.1))
    else Some((BareText(t[..BareEnd(t)]), t[BareEnd(t)..]))
  }

  /** What the database should get: a text is a text even when it looks like a number; without types, numerals are
      numbers. */
  ghost function LiteralFor(z: Cell, ty: Option<SqlType>): Literal {
    match z
    case None => NullLiteral
    case Some(text) =>
      match ty
      case Some(Null) => NullLiteral
      case Some(Text) => QuotedText(text)
      case Some(Integer) => BareText(text)
      case Some(Float) => BareText(text)
      case None => if IsNumeral(text) then BareText(text) else QuotedText(text)
  }

  lemma LiteralPrinted(z: Cell, ty: Option<SqlType>, rest: string)
    requires ValueStop(rest)
    requires z.Some? && (ty == Some(Integer) || ty == Some(Float)) ==> IsNumeral(z.value)
    ensures ReadLiteral(InsertValue(z, ty) + rest) == Some((LiteralFor(z, ty), rest))
  {
    hide IsNumeral, TakeQuoted, Doubled, BareEnd;
    var v := InsertValue(z, ty);
    var t := v + rest;
    if z.None? || ty == Some(Null) {
      assert t[4..] == rest;
    } else if ty == Some(Integer) || ty == Some(Float) || (ty != Some(Text) && IsNumeral(z.value)) {
      NumeralChars(z.value);
      assert NumberChar(v[0]) && t[0] == v[0];
      BareEndsAt(v, rest);
      assert t[..|v|] == v && t[|v|..] == rest;
    } else {
      assert t[0] == SQUOTE;
      assert t[1..] == Doubled(z.value, SQUOTE) + [SQUOTE] + rest;
      TakeQuotedInverts(z.value, SQUOTE, rest);
    }
  }

  // ----- The round trip -----

  /** What the printed row stands for: a cell of SQL type NULL is NULL. */
  function Meant(row: seq<Cell>, aiType: Option<seq<SqlType>>): (r: seq<Cell>)
    requires TypesFit(row, aiType)
    ensures |r| == |row|
    ensures forall i :: 0 <= i < |row| ==> r[i] == if TypeAt(aiType, i) == Some(Null) then None else row[i]
  {
    seq(|row|, i requires 0 <= i < |row| => if TypeAt(aiType, i) == Some(Null) then None else row[i])
  }

  /** Cells that the engine calls numbers are spelled as numbers. */
  ghost predicate NumbersSpelled(row: seq<Cell>, aiType: Option<seq<SqlType>>)
    requires TypesFit(row, aiType)
  {
    forall i | 0 <= i < |row| && row[i].Some? && TypeAt(aiType, i) in {Some(Integer), Some(Float)} ::
      IsNumeral(row[i].value)
  }

  predicate NumberChar(c: char) {
    IsDigit(c) || c == '+' || c == '-' || c == '.' || IsE(c)
  }

  predicate NumberChars(s: string) {
    forall i :: 0 <= i < |s| ==> NumberChar(s[i])
  }

  /** The spellings of numbers: a sign, digits, a fraction, an exponent with its own sign. */
  lemma NumeralForms(sign: string, digits: string, fraction: string, e: string, eSign: string, power: string)
    requires sign in {"", "+", "-"} && eSign in {"", "+", "-"} && e in {"e", "E"}
    requires AllDigits(digits) && AllDigits(fraction) && AllDigits(power)
    ensures IsNumeral(sign + digits) && IsNumeral(sign + digits + ("." + fraction))
    ensures IsNumeral(sign + digits + (e + eSign + power))
    ensures IsNumeral(sign + digits + ("." + fraction) + (e + eSign + power))
  {
    hide IsNumeral, CutsAt;
    var x := e + eSign + power;
    assert x[1..1 + |eSign|] == eSign && x[1 + |eSign|..] == power;
    assert Exponent(x);
    Spelled(sign, digits, "", "");
    Spelled(sign, digits, "." + fraction, "");
    Spelled(sign, digits, "", x);
    Spelled(sign, digits, "." + fraction, x);
    assert sign + digits + "" + "" == sign + digits;
    assert sign + digits + ("." + fraction) + "" == sign + digits + ("." + fraction);
    assert sign + digits + "" + x == sign + digits + x;
  }

  lemma Spelled(sign: string, digits: string, fraction: string, exponent: string)
    requires Sign(sign) && AllDigits(digits) && Fraction(fraction) && Exponent(exponent)
    ensures IsNumeral(sign + digits + fraction + exponent)
  {
    hide Sign, AllDigits, Fraction, Exponent;
    var s := sign + digits + fraction + exponent;
    var a, b, c := |sign|, |sign| + |digits|, |sign| + |digits| + |fraction|;
    assert s[..a] == sign && s[a..b] == digits && s[b..c] == fraction && s[c..] == exponent;
    assert CutsAt(s, a, b, c);
  }

  lemma PartChars(s: string)
    ensures Sign(s) ==> NumberChars(s)
    ensures AllDigits(s) ==> NumberChars(s)
  {
  }

  lemma FractionChars(s: string)
    requires Fraction(s)
    ensures NumberChars(s)
  {
    if s != "" {
      PartChars(s[1..]);
      assert s == [s[0]] + s[1..];
    }
  }

  lemma ExponentChars(s: string)
    requires Exponent(s)
    ensures NumberChars(s)
  {
    hide Sign, AllDigits;
    if s != "" {
      var k: nat :| 1 <= k <= |s| && Sign(s[1..k]) && AllDigits(s[k..]);
      PartChars(s[1..k]);
      PartChars(s[k..]);
      assert s == [s[0]] + s[1..k] + s[k..];
    }
  }

  lemma NumeralChars(s: string)
    requires IsNumeral(s)
    ensures s != "" && forall i :: 0 <= i < |s| ==> NumberChar(s[i])
  {
    hide Sign, Fraction, Exponent, NumberChar;
    var a: nat, b: nat, c: nat :| CutsAt(s, a, b, c);
    PartChars(s[..a]);
    PartChars(s[a..b]);
    FractionChars(s[b..c]);
    ExponentChars(s[c..]);
    assert s == s[..a] + s[a..b] + s[b..c] + s[c..];
  }

  predicate ValueStop(t: string) {
    t != "" && (t[0] == ',' || t[0] == ')')
  }

  lemma {:induction false} BareEndsAt(s: string, t: string)
    requires Free(s, ',') && Free(s, ')') && ValueStop(t)
    ensures BareEnd(s + t) == |s|
  {
    if s == "" {
      assert s + t == t;
    } else {
      BareEndsAt(s[1..], t);
      assert (s + t)[1..] == s[1..] + t;
    }
  }

  lemma ReadValueInverts(z: Cell, ty: Option<SqlType>, rest: string)
    requires ValueStop(rest)
    requires z.Some? && (ty == Some(Integer) || ty == Some(Float)) ==> IsNumeral(z.value)
    ensures ReadValue(InsertValue(z, ty) + rest) == Some((if ty == Some(Null) then None else z, rest))
    ensures var v := InsertValue(z, ty); v != "" && v[0] != ',' && v[0] != ')'
  {
    hide IsNumeral, TakeQuoted, Doubled;
    var v := InsertValue(z, ty);
    var t := v + rest;
    if z.None? || ty == Some(Null) {
      assert t[4..] == rest;
    } else if ty == Some(Integer) || ty == Some(Float) || (ty != Some(Text) && IsNumeral(z.value)) {
      NumeralChars(z.value);
      assert NumberChar(v[0]) && t[0] == v[0];
      BareEndsAt(v, rest);
      assert t[..|v|] == v && t[|v|..] == rest;
    } else {
      assert t[0] == SQUOTE;
      assert t[1..] == Doubled(z.value, SQUOTE) + [SQUOTE] + rest;
      TakeQuotedInverts(z.value, SQUOTE, rest);
    }
  }

  lemma {:induction false} ReadValuesInverts(row: seq<Cell>, aiType: Option<seq<SqlType>>, i: nat, rest: string)
    requires i <= |row| && TypesFit(row, aiType) && NumbersSpelled(row, aiType)
    ensures ReadValues(InsertValues(row, aiType, i) + (")" + rest), Meant(row, aiType)[..i])
            == Some((Meant(row, aiType), rest))
    ensures ValueStop(InsertValues(row, aiType, i) + (")" + rest)) || i == 0
    decreases |row| - i
  {
    hide InsertValue, InsertValues, ReadValue, ReadValues, IsNumeral;
    var all := Meant(row, aiType);
    if i == |row| {
      LastValue(row, aiType, "");
      assert "" + (")" + rest) == ")" + rest && (")" + rest)[1..] == rest;
      assert all[..i] == all;
      ReadLast(")" + rest, all);
    } else {
      ReadValuesInverts(row, aiType, i + 1, rest);
      var after := InsertValues(row, aiType, i + 1) + (")" + rest);
      var v := InsertValue(row[i], TypeAt(aiType, i));
      ReadValueInverts(row[i], TypeAt(aiType, i), after);
      ValuesStep(row, aiType, i, ")" + rest);
      ReadNext(v, after, all[..i], all[i]);
      assert all[..i] + [all[i]] == all[..i + 1];
    }
  }

  lemma ValuesStep(row: seq<Cell>, aiType: Option<seq<SqlType>>, i: nat, rest: string)
    requires i < |row| && TypesFit(row, aiType)
    ensures InsertValues(row, aiType, i) + rest
         == (if i > 0 then "," else "")
            + (InsertValue(row[i], TypeAt(aiType, i)) + (InsertValues(row, aiType, i + 1) + rest))
  {
    hide InsertValue;
  }

  lemma ReadLast(t: string, done: seq<Cell>)
    requires t != "" && t[0] == ')'
    ensures ReadValues(t, done) == Some((done, t[1..]))
  {
  }

  /** Reading one more value. */
  lemma ReadNext(v: string, after: string, done: seq<Cell>, cell: Cell)
    requires v != "" && v[0] != ',' && v[0] != ')' && ReadValue(v + after) == Some((cell, after))
    ensures ReadValues((if done != [] then "," else "") + (v + after), done) == ReadValues(after, done + [cell])
  {
    hide ReadValue;
    var t := (if done != [] then "," else "") + (v + after);
    assert (if done == [] then t else t[1..]) == v + after;
  }

  lemma {:induction false} WordEndsAt(s: string, t: string)
    requires (forall i :: 0 <= i < |s| ==> WordChar(s[i])) && t != "" && !WordChar(t[0])
    ensures WordEnd(s + t) == |s|
  {
    if s == "" {
      assert s + t == t;
    } else {
      WordEndsAt(s[1..], t);
      assert (s + t)[1..] == s[1..] + t;
    }
  }

  lemma ReadTableInverts(name: string, rest: string)
    requires rest != "" && rest[0] == ' '
    ensures ReadTable(TableName(name) + rest) == Some((name, rest))
  {
    hide TakeQuoted, Doubled;
    var t := TableName(name) + rest;
    if PlainName(name) {
      assert t[0] == name[0] && WordChar(name[0]);
      WordEndsAt(name, rest);
      assert t[..|name|] == name && t[|name|..] == rest;
    } else {
      assert t[1..] == Doubled(name, SQUOTE) + [SQUOTE] + rest;
      TakeQuotedInverts(name, SQUOTE, rest);
    }
  }

  /** The printed statement determines its table and its row, whatever text follows it. */
  lemma InsertRoundTrip(name: string, row: seq<Cell>, aiType: Option<seq<SqlType>>, rest: string)
    requires TypesFit(row, aiType) && NumbersSpelled(row, aiType)
    ensures ReadInsert(InsertLine(TableName(name), row, aiType) + rest) == Some((name, Meant(row, aiType), rest))
  {
    hide TableName, InsertValues, ReadTable, ReadValues;
    var t := InsertLine(TableName(name), row, aiType) + rest;
    var u := InsertValues(row, aiType, 0) + (")" + (";\n" + rest));
    assert t == "INSERT INTO " + (TableName(name) + (" VALUES(" + u));
    assert t[12..] == TableName(name) + (" VALUES(" + u);
    ReadTableInverts(name, " VALUES(" + u);
    assert (" VALUES(" + u)[8..] == u;
    assert Meant(row, aiType)[..0] == [];
    ReadValuesInverts(row, aiType, 0, ";\n" + rest);
    assert (";\n" + rest)[2..] == rest;
  }

  /** Rows printed without type information: the statement splits in one way only. */
  lemma InsertUnique(name1: string, row1: seq<Cell>, rest1: string, name2: string, row2: seq<Cell>, rest2: string)
    requires InsertLine(TableName(name1), row1, None) + rest1 == InsertLine(TableName(name2), row2, None) + rest2
    ensures name1 == name2 && row1 == row2 && rest1 == rest2
  {
    hide InsertLine, ReadInsert;
    InsertRoundTrip(name1, row1, None, rest1);
    InsertRoundTrip(name2, row2, None, rest2);
    assert Meant(row1, None) == row1 && Meant(row2, None) == row2;
  }
}
