/** C-style quoting: `output_c_string`, and `resolve_backslashes`, which undoes it in place. */
module CEscape {
  import opened CText
  import opened SqlQuoting

  // ----- Printing -----

  function OctalDigit(n: nat): char
    requires n < 8
  {
    '0' + n as char
  }

  /** The `%03o` form of a byte. */
  function Octal3(n: nat): (o: string)
    requires n < 256
    ensures |o| == 3
  {
    [OctalDigit(n / 64), OctalDigit(n / 8 % 8), OctalDigit(n % 8)]
  }

  function EscapeChar(c: char): string {
    if c == BACKSLASH then "\\\\"
    else if c == DQUOTE then "\\\""
    else if c == '\t' then "\\t"
    else if c == '\n' then "\\n"
    else if c == '\r' then "\\r"
    else if !IsPrint(c) then "\\" + Octal3(c as int % 256)
    else [c]
  }

  function EscapeBody(s: string): string {
    if s == "" then "" else EscapeChar(s[0]) + EscapeBody(s[1..])
  }

  function CQuoted(s: string): string {
    "\"" + EscapeBody(s) + "\""
  }

  lemma EscapeTurn(s: string, i: nat, done: string) returns (next: string)
    requires i < |s| && done + EscapeBody(s[i..]) == EscapeBody(s)
    ensures next == done + EscapeChar(s[i]) && next + EscapeBody(s[i + 1..]) == EscapeBody(s)
  {
    assert s[i..][1..] == s[i + 1..];
    next := done + EscapeChar(s[i]);
    Regroup(done, EscapeChar(s[i]), EscapeBody(s[i + 1..]));
  }

  method OutputCString(out: OutFile, z: string)
    modifies out
    ensures out.text == old(out.text) + CQuoted(z)
  {
    hide EscapeBody, EscapeChar;
    out.Print("\"");
    ghost var front := out.text;
    ghost var done := "";
    EscapeNothing(z);
    for i := 0 to |z|
      invariant out.text == front + done
      invariant done + EscapeBody(z[i..]) == EscapeBody(z)
    {
      ghost var before := done;
      done := EscapeTurn(z, i, done);
      PrintEscaped(out, z[i]);
      Regroup(front, before, EscapeChar(z[i]));
    }
    EscapeNothing(z[|z|..]);
    out.Print("\"");
    assert z[|z|..] == "" && done == EscapeBody(z) by { EscapeNothing(z[|z|..]); }
    AllEscaped(old(out.text), done);
  }

  lemma AllEscaped(before: string, body: string)
    ensures before + "\"" + body + "\"" == before + ("\"" + body + "\"")
  {
  }

  lemma EscapeNothing(t: string)
    ensures "" + EscapeBody(t) == EscapeBody(t) && (t == "" ==> EscapeBody(t) == "")
  {
  }

  method PrintEscaped(out: OutFile, c: char)
    modifies out
    ensures out.text == old(out.text) + EscapeChar(c)
  {
    if c == BACKSLASH {
      out.Print([c]);
      out.Print([c]);
    } else if c == DQUOTE {
      out.Print("\\");
      out.Print("\"");
    } else if c == '\t' {
      out.Print("\\");
      out.Print("t");
    } else if c == '\n' {
      out.Print("\\");
      out.Print("n");
    } else if c == '\r' {
      out.Print("\\");
      out.Print("r");
    } else if !IsPrint(c) {
      out.Print("\\" + Octal3(c as int % 256));
    } else {
      out.Print([c]);
    }
  }

  // ----- Reading -----

  predicate IsOctal(c: char) {
    '0' <= c <= '7'
  }

  function OctalValue(c: char): nat
    requires IsOctal(c)
  {
    c as int - '0' as int
  }

  /** Storing a number in a char keeps its low byte. */
  function ByteChar(n: nat): char {
    (n % 256) as char
  }

  /** No backslash at the end stands alone. */
  predicate Paired(t: string) {
    t == "" || if t[0] != BACKSLASH then Paired(t[1..]) else |t| > 1 && Paired(t[2..])
  }

  /** The character that the front of `t` stands for, and how many characters spell it. */
  function Unit(t: string): (u: (char, nat))
    requires t != "" && t != "\\"
    ensures 0 < u.1 <= |t|
  {
    if t[0] != BACKSLASH then (t[0], 1)
    else if t[1] == 'n' then ('\n', 2)
    else if t[1] == 't' then ('\t', 2)
    else if t[1] == 'r' then ('\r', 2)
    else if !IsOctal(t[1]) then (t[1], 2)
    else if |t| == 2 || !IsOctal(t[2]) then (ByteChar(OctalValue(t[1])), 2)
    else if |t| == 3 || !IsOctal(t[3]) then (ByteChar(OctalValue(t[1]) * 8 + OctalValue(t[2])), 3)
    else (ByteChar((OctalValue(t[1]) * 8 + OctalValue(t[2])) * 8 + OctalValue(t[3])), 4)
  }

  function Resolve(t: string): (r: string)
    ensures |r| <= |t|
    decreases |t|
  {
    if t == "" || t == "\\" then "" else [Unit(t).0] + Resolve(t[Unit(t).1..])
  }

  lemma PairedStep(t: string)
    requires t != "" && t[0] != BACKSLASH
    ensures Paired(t) == Paired(t[1..])
  {
  }

  lemma PairedAfterUnit(t: string)
    requires Paired(t) && t != ""
    ensures t != "\\" && Paired(t[Unit(t).1..])
  {
    if t[0] == BACKSLASH {
      assert |t| > 1 && Paired(t[2..]);
      var n := Unit(t).1;
      if n > 2 {
        PairedStep(t[2..]);
        assert t[2..][1..] == t[3..];
      }
      if n > 3 {
        PairedStep(t[3..]);
        assert t[3..][1..] == t[4..];
      }
    }
  }

  /** One turn of the in-place loop. */
  lemma ResolveTurn(t: string, i: nat, done: string) returns (next: string)
    requires i < |t| && Paired(t[i..]) && done + Resolve(t[i..]) == Resolve(t)
    ensures t[i..] != "\\" && next == done + [Unit(t[i..]).0]
    ensures var j := i + Unit(t[i..]).1;
            j <= |t| && Paired(t[j..]) && next + Resolve(t[j..]) == Resolve(t)
  {
    hide Unit;
    PairedAfterUnit(t[i..]);
    var j := i + Unit(t[i..]).1;
    assert t[i..][Unit(t[i..]).1..] == t[j..];
    next := done + [Unit(t[i..]).0];
    Regroup(done, [Unit(t[i..]).0], Resolve(t[j..]));
  }

  /** The buffer holds `s` and then NUL at `p`; `s` itself may hold NUL bytes. */
  predicate TextAt(buf: array<char>, p: nat, s: string)
    reads buf
  {
    && p + |s| < buf.Length
    && (forall i :: 0 <= i < |s| ==> buf[p + i] == s[i])
    && buf[p + |s|] == NUL
  }

  /** Decodes the unit at `i`: its value, and the index of its last character. */
  method ReadUnit(z: array<char>, p: nat, i: nat, ghost t: string) returns (c: char, last: nat)
    requires p + |t| < z.Length && i < |t| && t[i..] != "\\" && NulFree(t)
    requires forall m :: p + i <= m < p + |t| ==> z[m] == t[m - p]
    requires z[p + |t|] == NUL
    ensures c == Unit(t[i..]).0 && last + 1 == i + Unit(t[i..]).1
  {
    ghost var u := t[i..];
    assert forall m :: 0 <= m < |u| ==> u[m] == t[i + m];
    c, last := z[p + i], i;
    if c == BACKSLASH {
      last := last + 1;
      c := z[p + last];
      if c == 'n' {
        c := '\n';
      } else if c == 't' {
        c := '\t';
      } else if c == 'r' {
        c := '\r';
      } else if IsOctal(c) {
        var n := OctalValue(c);
        if IsOctal(z[p + last + 1]) {
          last := last + 1;
          n := n * 8 + OctalValue(z[p + last]);
          if IsOctal(z[p + last + 1]) {
            last := last + 1;
            n := n * 8 + OctalValue(z[p + last]);
          }
        }
        c := ByteChar(n);
      }
    }
  }

  /** The write index `j` never passes the read index `i`. */
  method ResolveBackslashes(z: array<char>, p: nat, ghost t: string)
    requires CStringAt(z, p, t) && Paired(t)
    modifies z
    ensures TextAt(z, p, Resolve(t)) && z[p + |t|] == NUL
    ensures forall m :: 0 <= m < z.Length && (m < p || m > p + |t|) ==> z[m] == old(z[m])
  {
    hide Resolve, Unit, Paired;
    var i, j := 0, 0;
    ghost var done := "";
    ResolveEnds(t);
    while z[p + i] != NUL
      invariant 0 <= j <= i <= |t| && |done| == j
      invariant forall m :: 0 <= m < j ==> z[p + m] == done[m]
      invariant Paired(t[i..]) && done + Resolve(t[i..]) == Resolve(t)
      invariant forall m :: p + i <= m < p + |t| ==> z[m] == t[m - p]
      invariant z[p + |t|] == NUL
      invariant forall m :: 0 <= m < z.Length && (m < p || m > p + |t|) ==> z[m] == old(z[m])
      decreases |t| - i
    {
      done := ResolveTurn(t, i, done);
      var c, last := ReadUnit(z, p, i, t);
      z[p + j] := c;
      i := last + 1;
      j := j + 1;
    }
    ResolveEnds(t[i..]);
    z[p + j] := NUL;
  }

  lemma ResolveEnds(t: string)
    ensures t[0..] == t && "" + Resolve(t) == Resolve(t) && (t == "" ==> Resolve(t) == "")
  {
  }

  // ----- The round trip -----

  lemma OctalDigitInverts(d: nat)
    requires d < 8
    ensures IsOctal(OctalDigit(d)) && OctalValue(OctalDigit(d)) == d
  {
  }

  lemma OctalSplit(n: nat)
    ensures (n / 64 * 8 + n / 8 % 8) * 8 + n % 8 == n
  {
    assert n / 8 / 8 == n / 64;
  }

  lemma OctalInverts(n: nat)
    requires n < 256
    ensures forall k :: 0 <= k < 3 ==> IsOctal(Octal3(n)[k])
    ensures var o := Octal3(n); (OctalValue(o[0]) * 8 + OctalValue(o[1])) * 8 + OctalValue(o[2]) == n
  {
    hide OctalDigit, OctalValue, IsOctal;
    OctalDigitInverts(n / 64);
    OctalDigitInverts(n / 8 % 8);
    OctalDigitInverts(n % 8);
    OctalSplit(n);
  }

  lemma OctalUnit(t: string, n: nat)
    requires |t| >= 4 && t[0] == BACKSLASH && n < 256
    requires IsOctal(t[1]) && IsOctal(t[2]) && IsOctal(t[3])
    requires (OctalValue(t[1]) * 8 + OctalValue(t[2])) * 8 + OctalValue(t[3]) == n
    ensures t != "\\" && Unit(t) == (n as char, 4)
  {
    assert !IsOctal('n') && !IsOctal('t') && !IsOctal('r');
    assert ByteChar(n) == n as char;
  }

  lemma OctalEscapeInverts(c: char, rest: string)
    requires IsByte(c)
    ensures var t := "\\" + Octal3(c as int) + rest;
            t != "\\" && Unit(t) == (c, 4)
  {
    hide Unit, Octal3;
    var n := c as int;
    OctalInverts(n);
    var o := Octal3(n);
    var t := "\\" + o + rest;
    assert t[0] == BACKSLASH && t[1] == o[0] && t[2] == o[1] && t[3] == o[2];
    OctalUnit(t, n);
  }

  /** An escape is read back as the character it was printed for, whatever digits follow it. */
  lemma UnitInverts(c: char, rest: string)
    requires IsByte(c)
    ensures var t := EscapeChar(c) + rest;
            t != "\\" && Unit(t) == (c, |EscapeChar(c)|)
  {
    hide Octal3;
    var e := EscapeChar(c);
    var t := e + rest;
    OctalEscapeInverts(c, rest);
    if |e| == 2 {
      assert t[0] == BACKSLASH && t[1] == e[1];
      assert !IsOctal(e[1]);
    } else if |e| == 1 {
      assert t[0] == c != BACKSLASH;
    }
  }

  lemma {:induction false} ResolveInverts(s: string)
    requires AllBytes(s)
    ensures Resolve(EscapeBody(s)) == s
  {
    hide Unit, EscapeChar;
    if s != "" {
      var head, tail := EscapeChar(s[0]), EscapeBody(s[1..]);
      UnitInverts(s[0], tail);
      assert (head + tail)[|head|..] == tail;
      ResolveInverts(s[1..]);
    }
  }

  lemma EscapeCharPaired(c: char, rest: string)
    ensures Paired(EscapeChar(c) + rest) == Paired(rest)
  {
    var e := EscapeChar(c);
    var t := e + rest;
    assert forall k :: 0 <= k < |e| ==> t[k] == e[k];
    if |e| == 1 {
      assert t[1..] == rest;
    } else if |e| == 2 {
      assert t[2..] == rest;
    } else {
      PairedStep(t[2..]);
      assert t[2..][1..] == t[3..];
      PairedStep(t[3..]);
      assert t[3..][1..] == rest;
    }
  }

  /** What is printed never ends in half an escape; a lone backslash after it would. */
  lemma {:induction false} EscapeBodyPaired(s: string)
    ensures Paired(EscapeBody(s)) && !Paired(EscapeBody(s) + "\\")
  {
    hide EscapeChar, Paired;
    if s == "" {
      PairedEnds();
    } else {
      var head, tail := EscapeChar(s[0]), EscapeBody(s[1..]);
      EscapeBodyPaired(s[1..]);
      EscapeCharPaired(s[0], tail);
      EscapeCharPaired(s[0], tail + "\\");
      Regroup(head, tail, "\\");
    }
  }

  lemma PairedEnds()
    ensures Paired("") && !Paired("" + "\\")
  {
  }

  /** Only printable characters are printed, and no quote unless the text holds one. */
  lemma {:induction false} EscapeBodyPrintable(s: string)
    requires AllBytes(s)
    ensures forall i :: 0 <= i < |EscapeBody(s)| ==> IsPrint(EscapeBody(s)[i])
    ensures Free(s, DQUOTE) ==> Free(EscapeBody(s), DQUOTE)
  {
    if s != "" {
      EscapeBodyPrintable(s[1..]);
      var head := EscapeChar(s[0]);
      assert forall i :: 0 <= i < |head| ==> IsPrint(head[i]) && (s[0] != DQUOTE ==> head[i] != DQUOTE);
    }
  }

  // ----- What escapes mean -----

  /** Three letters have names; an octal escape takes as many octal digits as there are, up to three, and keeps the low
      byte; every other character stands for itself. */
  lemma UnitMeaning(t: string)
    requires |t| >= 2 && t[0] == BACKSLASH
    ensures t[1] == 'n' ==> Unit(t) == ('\n', 2)
    ensures t[1] == 't' ==> Unit(t) == ('\t', 2)
    ensures t[1] == 'r' ==> Unit(t) == ('\r', 2)
    ensures t[1] != 'n' && t[1] != 't' && t[1] != 'r' && !('0' <= t[1] <= '7') ==> Unit(t) == (t[1], 2)
    ensures '0' <= t[1] <= '7' ==>
              var d := OctalRun(t[1..], 3);
              Unit(t).1 == 1 + |d| && Unit(t).0 as int == OctalNumber(d) % 256
  {
    if IsOctal(t[1]) { OctalMeaning(t); }
  }

  lemma OctalMeaning(t: string)
    requires |t| >= 2 && t[0] == BACKSLASH && IsOctal(t[1])
    ensures var d := OctalRun(t[1..], 3);
            Unit(t).1 == 1 + |d| && Unit(t).0 as int == OctalNumber(d) % 256
  {
    hide OctalRun, OctalNumber, OctalValue;
    var u := t[1..];
    assert u[0] == t[1] && !(t[1] == 'n') && !(t[1] == 't') && !(t[1] == 'r');
    if |t| == 2 || !IsOctal(t[2]) {
      RunOne(u);
      NumberOfOne(t[1]);
    } else if |t| == 3 || !IsOctal(t[3]) {
      RunTwo(u);
      NumberOfTwo(t[1], t[2]);
    } else {
      RunThree(u);
      NumberOfThree(t[1], t[2], t[3]);
    }
  }

  /** The octal digits in front, at most `n`. */
  function OctalRun(t: string, n: nat): (d: string)
    ensures d <= t && |d| <= n && forall i :: 0 <= i < |d| ==> IsOctal(d[i])
    ensures |d| < n && |d| < |t| ==> !IsOctal(t[|d|])
  {
    if n == 0 || t == "" || !IsOctal(t[0]) then "" else [t[0]] + OctalRun(t[1..], n - 1)
  }

  /** The number that octal digits spell, the last digit counting one. */
  function OctalNumber(d: string): nat
    requires forall i :: 0 <= i < |d| ==> IsOctal(d[i])
  {
    if d == "" then 0 else OctalNumber(d[..|d| - 1]) * 8 + OctalValue(d[|d| - 1])
  }

  lemma {:induction false} RunIs(t: string, k: nat, n: nat)
    requires k <= n && k <= |t| && (forall i :: 0 <= i < k ==> IsOctal(t[i])) && (k == n || k == |t| || !IsOctal(t[k]))
    ensures OctalRun(t, n) == t[..k]
    decreases k
  {
    hide IsOctal;
    if k > 0 {
      RunIs(t[1..], k - 1, n - 1);
      assert t[..k] == [t[0]] + t[1..][..k - 1];
    }
  }

  lemma NumberMore(d: string, c: char)
    requires (forall i :: 0 <= i < |d| ==> IsOctal(d[i])) && IsOctal(c)
    ensures OctalNumber(d + [c]) == OctalNumber(d) * 8 + OctalValue(c)
  {
    hide IsOctal, OctalValue;
    assert (d + [c])[..|d|] == d;
  }

  lemma NumberOfOne(a: char)
    requires IsOctal(a)
    ensures OctalNumber([a]) == OctalValue(a)
  {
    hide OctalValue, IsOctal;
    assert [a][..0] == "";
  }

  lemma NumberOfTwo(a: char, b: char)
    requires IsOctal(a) && IsOctal(b)
    ensures OctalNumber([a, b]) == OctalValue(a) * 8 + OctalValue(b)
  {
    hide OctalValue, IsOctal, OctalNumber;
    NumberOfOne(a);
    NumberMore([a], b);
    assert [a] + [b] == [a, b];
  }

  lemma NumberOfThree(a: char, b: char, c: char)
    requires IsOctal(a) && IsOctal(b) && IsOctal(c)
    ensures OctalNumber([a, b, c]) == (OctalValue(a) * 8 + OctalValue(b)) * 8 + OctalValue(c)
  {
    hide OctalValue, IsOctal, OctalNumber;
    NumberOfTwo(a, b);
    NumberMore([a, b], c);
    assert [a, b] + [c] == [a, b, c];
  }

  lemma RunOne(t: string)
    requires t != "" && IsOctal(t[0]) && (|t| == 1 || !IsOctal(t[1]))
    ensures OctalRun(t, 3) == [t[0]]
  {
    hide IsOctal, OctalRun;
    RunIs(t, 1, 3);
    assert t[..1] == [t[0]];
  }

  lemma RunTwo(t: string)
    requires |t| >= 2 && IsOctal(t[0]) && IsOctal(t[1]) && (|t| == 2 || !IsOctal(t[2]))
    ensures OctalRun(t, 3) == [t[0], t[1]]
  {
    hide IsOctal, OctalRun;
    RunIs(t, 2, 3);
    assert t[..2] == [t[0], t[1]];
  }

  lemma RunThree(t: string)
    requires |t| >= 3 && IsOctal(t[0]) && IsOctal(t[1]) && IsOctal(t[2])
    ensures OctalRun(t, 3) == [t[0], t[1], t[2]]
  {
    hide IsOctal, OctalRun;
    RunIs(t, 3, 3);
    assert t[..3] == [t[0], t[1], t[2]];
  }

  /** Printable text without backslashes and quotes is printed as it is; tab, newline and return have short names. */
  lemma {:induction false} PlainPrinted(s: string)
    requires forall i :: 0 <= i < |s| ==> ' ' <= s[i] <= '~' && s[i] != BACKSLASH && s[i] != DQUOTE
    ensures EscapeBody(s) == s
  {
    if s != "" {
      PlainPrinted(s[1..]);
      assert s == [s[0]] + s[1..];
    }
  }

  lemma ShortNames()
    ensures EscapeBody("\t") == "\\t" && EscapeBody("\n") == "\\n" && EscapeBody("\r") == "\\r"
    ensures EscapeBody("\\") == "\\\\" && EscapeBody("\"") == "\\\""
  {
    assert "\t"[1..] == "" && "\n"[1..] == "" && "\r"[1..] == "" && "\\"[1..] == "" && "\""[1..] == "";
  }

  // ----- Both ends together -----

  /** Copies a text and its terminator to a new buffer. */
  method BufferOf(text: string) returns (z: array<char>)
    requires NulFree(text)
    ensures fresh(z) && z.Length == |text| + 1 && CStringAt(z, 0, text)
  {
    z := new char[|text| + 1];
    forall i | 0 <= i < |text| { z[i] := text[i]; }
    z[|text|] := NUL;
  }

  lemma PrintableIsNulFree(t: string)
    requires forall i :: 0 <= i < |t| ==> IsPrint(t[i])
    ensures NulFree(t)
  {
  }

  /** In place: a buffer with the printed body ends up with the text that was printed. */
  method ResolvePrinted(z: array<char>, p: nat, ghost s: string)
    requires AllBytes(s) && CStringAt(z, p, EscapeBody(s))
    modifies z
    ensures TextAt(z, p, s)
    ensures forall m :: 0 <= m < z.Length && (m < p || m > p + |EscapeBody(s)|) ==> z[m] == old(z[m])
  {
    hide EscapeBody, Resolve, Paired, CStringAt, TextAt;
    EscapeBodyPaired(s);
    ResolveInverts(s);
    ResolveBackslashes(z, p, EscapeBody(s));
  }

  /** Every byte string survives being printed as a C string, stripped of its quotes and unescaped in its buffer. */
  method PrintThenResolve(s: string) returns (z: array<char>)
    requires AllBytes(s)
    ensures fresh(z) && TextAt(z, 0, s)
  {
    hide EscapeBody, CStringAt, TextAt;
    var out := new OutFile();
    OutputCString(out, s);
    var body := out.text[1..|out.text| - 1];
    assert body == EscapeBody(s);
    EscapeBodyPrintable(s);
    PrintableIsNulFree(body);
    z := BufferOf(body);
    ResolvePrinted(z, 0, s);
  }
}
