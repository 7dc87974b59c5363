/** The dot-command tokenizer of `do_meta_command`, which cuts the line up in place. */
module Tokenizer {
  import opened CText
  import opened SqlQuoting
  import opened CEscape

  const MAX_ARGS: nat := 50

  // ----- What the tokens of a line are -----

  /** The characters between the delimiters, and whether backslashes in them are resolved. */
  datatype Token = Token(raw: string, resolved: bool) {
    function Text(): string {
      if resolved then Resolve(raw) else raw
    }

    predicate Safe() {
      resolved ==> Paired(raw)
    }
  }

  function SkipSpace(t: string): (n: nat)
    ensures n <= |t| && (n < |t| ==> !IsSpace(t[n]))
    ensures forall i :: 0 <= i < n ==> IsSpace(t[i])
  {
    if t == "" || !IsSpace(t[0]) then 0 else 1 + SkipSpace(t[1..])
  }

  predicate IsQuote(c: char) {
    c == SQUOTE || c == DQUOTE
  }

  /** A character that ends the token: the delimiter, or blank when there is none. */
  predicate Ends(c: char, delim: char) {
    if IsQuote(delim) then c == delim else IsSpace(c)
  }

  function TokenEnd(t: string, delim: char): (n: nat)
    ensures n <= |t| && (n < |t| ==> Ends(t[n], delim))
    ensures forall i :: 0 <= i < n ==> !Ends(t[i], delim)
  {
    if t == "" || Ends(t[0], delim) then 0 else 1 + TokenEnd(t[1..], delim)
  }

  /** The first token of `t`, which starts with no blank, and how many characters it takes with its delimiters. */
  function FirstToken(t: string): (r: (Token, nat))
    requires t != ""
    ensures 0 < r.1 <= |t|
  {
    var open := if IsQuote(t[0]) then 1 else 0;
    var n := TokenEnd(t[open..], t[0]);
    (Token(t[open..open + n], t[0] != SQUOTE), if open + n < |t| then open + n + 1 else |t|)
  }

  function Tokens(t: string, room: nat): (ts: seq<Token>)
    ensures |ts| <= room
    decreases |t|
  {
    var u := t[SkipSpace(t)..];
    if room == 0 || u == "" then []
    else [FirstToken(u).0] + Tokens(u[FirstToken(u).1..], room - 1)
  }

  predicate AllSafe(ts: seq<Token>) {
    forall k :: 0 <= k < |ts| ==> ts[k].Safe()
  }

  function Texts(ts: seq<Token>): (r: seq<string>)
    ensures |r| == |ts| && forall k :: 0 <= k < |r| ==> r[k] == ts[k].Text()
  {
    seq(|ts|, k requires 0 <= k < |ts| => ts[k].Text())
  }

  // ----- The loop -----

  /** `at` holds the offsets of the tokens cut so far: ordered, disjoint slices, all before `i`. */
  ghost predicate Cut(zLine: array<char>, azArg: array<nat>, line: string, ts: seq<Token>, i: nat)
    reads zLine, azArg
  {
    && |ts| <= azArg.Length
    && (forall k :: 0 <= k < |ts| ==> TextAt(zLine, azArg[k], ts[k].Text()))
    && (forall k :: 0 <= k < |ts| ==> azArg[k] + |ts[k].raw| < i || azArg[k] + |ts[k].raw| == i == |line|)
    && (forall j, k :: 0 <= j < k < |ts| ==> azArg[j] + |ts[j].raw| < azArg[k])
  }

  /** The part of the line not yet reached is as it was. */
  predicate Ahead(zLine: array<char>, line: string, i: nat)
    reads zLine
  {
    && i <= |line| < zLine.Length
    && (forall m :: i <= m < |line| ==> zLine[m] == line[m] != NUL)
    && zLine[|line|] == NUL
    && NulFree(line)
  }

  method SkipBlanks(zLine: array<char>, i: nat, ghost line: string) returns (n: nat)
    requires Ahead(zLine, line, i)
    ensures n == i + SkipSpace(line[i..]) && n <= |line| && Ahead(zLine, line, n)
  {
    n := i;
    assert line[i..][0..] == line[i..];
    while IsSpace(zLine[n])
      invariant i <= n <= |line|
      invariant SkipSpace(line[i..]) == n - i + SkipSpace(line[n..])
      decreases |line| - n
    {
      assert zLine[n] == line[n];
      assert line[n..][1..] == line[n + 1..];
      n := n + 1;
    }
    if n < |line| { assert zLine[n] == line[n] == line[n..][0]; }
  }

  method FindEnd(zLine: array<char>, i: nat, delim: char, ghost line: string) returns (n: nat)
    requires Ahead(zLine, line, i)
    ensures n == i + TokenEnd(line[i..], delim) && n <= |line|
  {
    n := i;
    assert line[i..][0..] == line[i..];
    while zLine[n] != NUL && !Ends(zLine[n], delim)
      invariant i <= n <= |line|
      invariant TokenEnd(line[i..], delim) == n - i + TokenEnd(line[n..], delim)
      decreases |line| - n
    {
      assert zLine[n] == line[n];
      assert line[n..][1..] == line[n + 1..];
      n := n + 1;
    }
    if n < |line| { assert zLine[n] == line[n] == line[n..][0]; }
  }

  lemma FirstTokenAt(line: string, i: nat)
    requires i < |line|
    ensures var at := if IsQuote(line[i]) then i + 1 else i;
            var end := at + TokenEnd(line[at..], line[i]);
            && end <= |line|
            && FirstToken(line[i..]).0 == Token(line[at..end], line[i] != SQUOTE)
            && i + FirstToken(line[i..]).1 == if end < |line| then end + 1 else |line|
  {
    var t := line[i..];
    assert t[0] == line[i];
    var open := if IsQuote(t[0]) then 1 else 0;
    var at := i + open;
    assert t[open..] == line[at..];
    var n := TokenEnd(t[open..], t[0]);
    assert t[open..open + n] == line[at..at + n];
    assert FirstToken(t).0 == Token(line[at..at + n], line[i] != SQUOTE);
  }

  /** Cuts one token at `i`, where no blank stands: its offset, and where scanning goes on. */
  method CutToken(zLine: array<char>, i: nat, ghost line: string) returns (at: nat, next: nat)
    requires Ahead(zLine, line, i) && i < |line|
    requires FirstToken(line[i..]).0.Safe()
    modifies zLine
    ensures next == i + FirstToken(line[i..]).1 && next <= |line|
    ensures Ahead(zLine, line, next)
    ensures var n := at + |FirstToken(line[i..]).0.raw|; i <= at && (n < next || n == next == |line|)
    ensures TextAt(zLine, at, FirstToken(line[i..]).0.Text())
    ensures forall m :: 0 <= m < i ==> zLine[m] == old(zLine[m])
  {
    hide FirstToken, Resolve, Paired, TokenEnd, SkipSpace, CStringAt, TextAt, Ahead;
    FirstTokenAt(line, i);
    ghost var tok := FirstToken(line[i..]).0;
    ghost var was := zLine[..];
    AheadText(zLine, line, i, was);
    var delim := CharAhead(zLine, line, i);
    at := if IsQuote(delim) then i + 1 else i;
    AheadFrom(zLine, line, i, at);
    var end := FindEnd(zLine, at, delim, line);
    assert tok.raw == line[at..end];
    next := end;
    AheadFrom(zLine, line, at, end);
    AheadAt(zLine, line, end);
    if zLine[end] != NUL {
      zLine[end] := NUL;
      next := end + 1;
    }
    TokenCut(zLine, line, was, i, at, end);
    FinishToken(zLine, at, next, delim != SQUOTE, tok.raw, line);
  }

  /** Resolves the backslashes of the token that was cut, unless it was in single quotes. */
  method FinishToken(zLine: array<char>, at: nat, next: nat, resolve: bool, ghost raw: string, ghost line: string)
    requires CStringAt(zLine, at, raw) && Ahead(zLine, line, next) && (resolve ==> Paired(raw))
    requires at + |raw| < next || at + |raw| == next == |line|
    modifies zLine
    ensures TextAt(zLine, at, if resolve then Resolve(raw) else raw) && Ahead(zLine, line, next)
    ensures forall m :: 0 <= m < at ==> zLine[m] == old(zLine[m])
  {
    hide Resolve, Paired, CStringAt, TextAt, Ahead;
    if resolve {
      ghost var cut := zLine[..];
      AheadText(zLine, line, next, cut);
      ResolveBackslashes(zLine, at, raw);
      AheadKept(zLine, line, cut, next, at + |raw|);
    } else {
      PlainText(zLine, at, raw);
    }
  }

  method CharAhead(zLine: array<char>, ghost line: string, i: nat) returns (c: char)
    requires Ahead(zLine, line, i) && i < |line|
    ensures c == line[i]
  {
    c := zLine[i];
  }

  lemma AheadFrom(zLine: array<char>, line: string, i: nat, j: nat)
    requires Ahead(zLine, line, i) && i <= j <= |line|
    ensures Ahead(zLine, line, j)
  {
  }

  lemma AheadText(zLine: array<char>, line: string, i: nat, text: string)
    requires Ahead(zLine, line, i) && text == zLine[..]
    ensures i <= |line| < zLine.Length && NulFree(line)
    ensures (forall m :: i <= m < |line| ==> text[m] == line[m]) && text[|line|] == NUL
  {
  }

  lemma PlainText(zLine: array<char>, at: nat, s: string)
    requires CStringAt(zLine, at, s)
    ensures TextAt(zLine, at, s)
  {
  }

  /** With the end of the token overwritten, the token is a C string and the line behind it is as it was. */
  lemma TokenCut(zLine: array<char>, line: string, was: string, i: nat, at: nat, end: nat)
    requires i <= at <= end <= |line| < |was| == zLine.Length && NulFree(line)
    requires (forall m :: i <= m < |line| ==> was[m] == line[m]) && was[|line|] == NUL
    requires zLine[end] == NUL && forall m :: 0 <= m < zLine.Length && m != end ==> zLine[m] == was[m]
    ensures CStringAt(zLine, at, line[at..end])
    ensures Ahead(zLine, line, if end < |line| then end + 1 else end)
  {
    CutIsCString(zLine, line, at, end);
  }

  lemma AheadKept(zLine: array<char>, line: string, was: string, next: nat, last: nat)
    requires |was| == zLine.Length && last <= next <= |line| < |was| && NulFree(line) && (last < next || next == |line|)
    requires (forall m :: next <= m < |line| ==> was[m] == line[m]) && was[|line|] == NUL && zLine[last] == NUL
    requires forall m :: last < m < zLine.Length ==> zLine[m] == was[m]
    ensures Ahead(zLine, line, next)
  {
  }

  lemma CutIsCString(zLine: array<char>, line: string, at: nat, end: nat)
    requires at <= end <= |line| < zLine.Length && NulFree(line)
    requires (forall m :: at <= m < end ==> zLine[m] == line[m]) && zLine[end] == NUL
    ensures CStringAt(zLine, at, line[at..end])
  {
  }

  /** The loop's invariant: `done` is cut, and with the tokens of what is left it makes up `all`. */
  ghost predicate Tokenizing(zLine: array<char>, azArg: array<nat>, line: string,
                             done: seq<Token>, i: nat, all: seq<Token>)
    reads zLine, azArg
  {
    && 1 <= i <= |line| < zLine.Length && |done| <= MAX_ARGS == azArg.Length
    && Ahead(zLine, line, i)
    && Cut(zLine, azArg, line, done, i)
    && done + Tokens(line[i..], MAX_ARGS - |done|) == all
    && AllSafe(all)
  }

  /** Offsets of the tokens in the cut-up line; at most fifty. */
  method Tokenize(zLine: array<char>, azArg: array<nat>, ghost line: string)
    returns (nArg: nat, ghost end: nat)
    requires CStringAt(zLine, 0, line) && line != "" && azArg.Length == MAX_ARGS
    requires AllSafe(Tokens(line[1..], MAX_ARGS))
    modifies zLine, azArg
    ensures nArg == |Tokens(line[1..], MAX_ARGS)|
    ensures Cut(zLine, azArg, line, Tokens(line[1..], MAX_ARGS), end)
  {
    hide Tokenizing, Tokens, Cut;
    var i := 1;
    nArg := 0;
    ghost var all := Tokens(line[1..], MAX_ARGS);
    ghost var done: seq<Token> := [];
    TokenizingStart(zLine, azArg, line);
    while zLine[i] != NUL && nArg < MAX_ARGS
      invariant i <= |line| < zLine.Length
      invariant nArg == |done| && Tokenizing(zLine, azArg, line, done, i, all)
      decreases |line| - i
    {
      var next, stop, tok := TokenizeOne(zLine, azArg, nArg, i, line, done, all);
      if stop { return nArg, next; }
      i := next;
      done := done + [tok];
      nArg := nArg + 1;
    }
    end := i;
    TokenizingEnd(zLine, azArg, line, done, i, all);
  }

  /** The body of the loop; `stop` when only blanks were left. */
  method TokenizeOne(zLine: array<char>, azArg: array<nat>, nArg: nat, i: nat,
                     ghost line: string, ghost done: seq<Token>, ghost all: seq<Token>)
    returns (next: nat, stop: bool, ghost tok: Token)
    requires Tokenizing(zLine, azArg, line, done, i, all) && nArg == |done| < MAX_ARGS && zLine[i] != NUL
    modifies zLine, azArg
    ensures i < |line|
    ensures stop ==> done == all && Cut(zLine, azArg, line, all, next)
    ensures !stop ==> i < next <= |line| && Tokenizing(zLine, azArg, line, done + [tok], next, all)
  {
    hide FirstToken, Resolve, Paired, SkipSpace, Tokens, Cut, TokenEnd, Ahead;
    AheadAt(zLine, line, i);
    TokensTurn(line, i, done, MAX_ARGS - nArg);
    CutLater(zLine, azArg, line, done, i, i + SkipSpace(line[i..]));
    next := SkipBlanks(zLine, i, line);
    AheadAt(zLine, line, next);
    stop := zLine[next] == NUL;
    tok := Token("", false);
    if !stop {
      tok := FirstToken(line[next..]).0;
      assert all[nArg] == (done + [tok])[nArg];
      next := AddToken(zLine, azArg, nArg, next, line, done, tok);
    }
  }

  lemma TokenizingStart(zLine: array<char>, azArg: array<nat>, line: string)
    requires CStringAt(zLine, 0, line) && line != "" && azArg.Length == MAX_ARGS
    requires AllSafe(Tokens(line[1..], MAX_ARGS))
    ensures Tokenizing(zLine, azArg, line, [], 1, Tokens(line[1..], MAX_ARGS))
  {
    var all := Tokens(line[1..], MAX_ARGS);
    assert [] + all == all;
  }

  lemma TokenizingEnd(zLine: array<char>, azArg: array<nat>, line: string, done: seq<Token>, i: nat, all: seq<Token>)
    requires Tokenizing(zLine, azArg, line, done, i, all) && (zLine[i] == NUL || |done| >= MAX_ARGS)
    ensures done == all && Cut(zLine, azArg, line, all, i)
  {
    hide Tokens;
    AheadAt(zLine, line, i);
    NoTokens(line[i..], MAX_ARGS - |done|, done);
  }

  lemma AheadAt(zLine: array<char>, line: string, i: nat)
    requires Ahead(zLine, line, i)
    ensures i <= |line| < zLine.Length && (zLine[i] == NUL <==> i == |line|)
  {
  }

  lemma NoTokens(t: string, room: nat, done: seq<Token>)
    requires t == "" || room == 0
    ensures done + Tokens(t, room) == done
  {
  }

  lemma CutLater(zLine: array<char>, azArg: array<nat>, line: string, ts: seq<Token>, i: nat, j: nat)
    requires Cut(zLine, azArg, line, ts, i) && i < |line| && i <= j
    ensures Cut(zLine, azArg, line, ts, j)
  {
  }

  /** Cuts the token at `i` and records it as argument `nArg`. */
  method AddToken(zLine: array<char>, azArg: array<nat>, nArg: nat, i: nat,
                  ghost line: string, ghost done: seq<Token>, ghost tok: Token)
    returns (next: nat)
    requires Ahead(zLine, line, i) && i < |line| && nArg == |done| < azArg.Length
    requires Cut(zLine, azArg, line, done, i)
    requires tok == FirstToken(line[i..]).0 && tok.Safe()
    modifies zLine, azArg
    ensures next == i + FirstToken(line[i..]).1 && next <= |line|
    ensures Ahead(zLine, line, next) && Cut(zLine, azArg, line, done + [tok], next)
  {
    hide FirstToken, Resolve, Paired, Ahead;
    ghost var was := zLine[..];
    var at, end := CutToken(zLine, i, line);
    azArg[nArg] := at;
    next := end;
    forall k | 0 <= k < nArg
      ensures TextAt(zLine, azArg[k], done[k].Text())
    {
      assert azArg[k] + |done[k].Text()| <= azArg[k] + |done[k].raw| < i;
      TextKept(zLine, was, azArg[k], done[k].Text(), i);
    }
    CutExtends(zLine, azArg, line, done, tok, i, next);
  }

  lemma CutExtends(zLine: array<char>, azArg: array<nat>, line: string, done: seq<Token>, tok: Token, i: nat, next: nat)
    requires |done| < azArg.Length && i < next
    requires forall k :: 0 <= k < |done| ==> TextAt(zLine, azArg[k], done[k].Text()) && azArg[k] + |done[k].raw| < i
    requires forall j, k :: 0 <= j < k < |done| ==> azArg[j] + |done[j].raw| < azArg[k]
    requires TextAt(zLine, azArg[|done|], tok.Text()) && i <= azArg[|done|]
    requires azArg[|done|] + |tok.raw| < next || azArg[|done|] + |tok.raw| == next == |line|
    ensures Cut(zLine, azArg, line, done + [tok], next)
  {
    hide TextAt, Token.Text;
    var ts := done + [tok];
    forall k | 0 <= k < |ts|
      ensures TextAt(zLine, azArg[k], ts[k].Text())
      ensures azArg[k] + |ts[k].raw| < next || azArg[k] + |ts[k].raw| == next == |line|
    {
      assert ts[k] == if k < |done| then done[k] else tok;
    }
  }

  lemma TextKept(zLine: array<char>, was: seq<char>, p: nat, s: string, i: nat)
    requires p + |s| < i <= |was| && i <= zLine.Length
    requires (forall m :: 0 <= m < |s| ==> was[p + m] == s[m]) && was[p + |s|] == NUL
    requires forall m :: 0 <= m < i ==> zLine[m] == was[m]
    ensures TextAt(zLine, p, s)
  {
  }

  lemma BlankTokens(t: string, room: nat, done: seq<Token>)
    requires SkipSpace(t) == |t|
    ensures Tokens(t, room) == [] && done + Tokens(t, room) == done
  {
    hide SkipSpace;
  }

  lemma TokensStep(t: string, room: nat, u: string)
    requires u == t[SkipSpace(t)..] && u != "" && room > 0
    ensures Tokens(t, room) == [FirstToken(u).0] + Tokens(u[FirstToken(u).1..], room - 1)
  {
    hide FirstToken, SkipSpace;
  }

  /** One turn of the tokenizer's loop. */
  lemma TokensTurn(line: string, i: nat, done: seq<Token>, room: nat)
    requires i < |line| && room > 0
    ensures var j := i + SkipSpace(line[i..]);
            if j == |line| then done + Tokens(line[i..], room) == done
            else done + Tokens(line[i..], room)
                 == done + [FirstToken(line[j..]).0] + Tokens(line[j + FirstToken(line[j..]).1..], room - 1)
  {
    hide FirstToken, SkipSpace, Tokens;
    var j := i + SkipSpace(line[i..]);
    assert line[i..][SkipSpace(line[i..])..] == line[j..];
    if j < |line| {
      var tok := FirstToken(line[j..]);
      var rest := line[j + tok.1..];
      assert line[j..][tok.1..] == rest;
      TokensStep(line[i..], room, line[j..]);
      Regroup(done, [tok.0], Tokens(rest, room - 1));
    } else {
      BlankTokens(line[i..], room, done);
    }
  }

  // ----- Round trips -----

  lemma {:induction false} SkipsBlank(b: string, t: string)
    requires Blank(b) && t != "" && !IsSpace(t[0])
    ensures SkipSpace(b + t) == |b|
  {
    if b == "" {
      assert b + t == t;
    } else {
      SkipsBlank(b[1..], t);
      assert (b + t)[1..] == b[1..] + t;
    }
  }

  lemma {:induction false} SkipsAllBlank(b: string)
    requires Blank(b)
    ensures SkipSpace(b) == |b|
  {
    if b != "" { SkipsAllBlank(b[1..]); }
  }

  lemma {:induction false} TokenEndsAt(raw: string, delim: char, t: string)
    requires IsQuote(delim) && Free(raw, delim) && t != "" && t[0] == delim
    ensures TokenEnd(raw + t, delim) == |raw|
  {
    if raw == "" {
      assert raw + t == t;
    } else {
      TokenEndsAt(raw[1..], delim, t);
      assert (raw + t)[1..] == raw[1..] + t;
    }
  }

  function Delimited(raw: string, delim: char): string {
    [delim] + raw + [delim]
  }

  /** The arguments as delimited texts, each after some blanks, and blanks at the end. */
  function Line(raws: seq<string>, delim: char, blanks: seq<string>): string
    requires |blanks| == |raws| + 1
  {
    if raws == [] then blanks[0]
    else blanks[0] + Delimited(raws[0], delim) + Line(raws[1..], delim, blanks[1..])
  }

  predicate Blanks(blanks: seq<string>) {
    forall k :: 0 <= k < |blanks| ==> Blank(blanks[k])
  }

  function RawTokens(raws: seq<string>, delim: char): seq<Token> {
    seq(|raws|, k requires 0 <= k < |raws| => Token(raws[k], delim != SQUOTE))
  }

  function Take<T>(s: seq<T>, n: nat): seq<T> {
    if |s| <= n then s else s[..n]
  }

  lemma QuotedToken(t: string, raw: string, u: string, delim: char)
    requires IsQuote(delim) && Free(raw, delim) && u != "" && u[0] == delim
    requires t != "" && t[0] == delim && t[1..] == raw + u
    ensures FirstToken(t) == (Token(raw, delim != SQUOTE), |raw| + 2)
  {
    TokenEndsAt(raw, delim, u);
    assert t[1..1 + |raw|] == raw;
  }

  lemma DelimitedToken(raw: string, delim: char, rest: string)
    requires IsQuote(delim) && Free(raw, delim)
    ensures FirstToken(Delimited(raw, delim) + rest) == (Token(raw, delim != SQUOTE), |raw| + 2)
  {
    hide FirstToken;
    var t := Delimited(raw, delim) + rest;
    assert t[1..] == raw + ([delim] + rest);
    QuotedToken(t, raw, [delim] + rest, delim);
  }

  /** Delimited texts free of their delimiter come back, the first `room` of them. */
  lemma {:induction false} LineTokens(raws: seq<string>, delim: char, blanks: seq<string>, room: nat)
    requires |blanks| == |raws| + 1 && Blanks(blanks) && IsQuote(delim)
    requires forall k :: 0 <= k < |raws| ==> Free(raws[k], delim)
    ensures Tokens(Line(raws, delim, blanks), room) == Take(RawTokens(raws, delim), room)
  {
    hide FirstToken, SkipSpace, Tokens;
    if raws == [] || room == 0 {
      assert Take(RawTokens(raws, delim), room) == [];
    }
    if raws == [] {
      SkipsAllBlank(blanks[0]);
      BlankTokens(blanks[0], room, []);
    } else if room == 0 {
      NoTokens(Line(raws, delim, blanks), 0, []);
    } else {
      var rest := Line(raws[1..], delim, blanks[1..]);
      DelimitedToken(raws[0], delim, rest);
      LineStep(blanks[0], Delimited(raws[0], delim) + rest, room);
      assert (Delimited(raws[0], delim) + rest)[|raws[0]| + 2..] == rest;
      assert Line(raws, delim, blanks) == blanks[0] + (Delimited(raws[0], delim) + rest);
      LineTokens(raws[1..], delim, blanks[1..], room - 1);
      TakeFirst(raws, delim, room);
    }
  }

  lemma TakeFirst(raws: seq<string>, delim: char, room: nat)
    requires raws != [] && room > 0
    ensures Take(RawTokens(raws, delim), room)
         == [Token(raws[0], delim != SQUOTE)] + Take(RawTokens(raws[1..], delim), room - 1)
  {
  }

  lemma LineStep(b: string, u: string, room: nat)
    requires Blank(b) && u != "" && !IsSpace(u[0]) && room > 0
    ensures Tokens(b + u, room) == [FirstToken(u).0] + Tokens(u[FirstToken(u).1..], room - 1)
  {
    hide FirstToken, Tokens;
    SkipsBlank(b, u);
    assert (b + u)[|b|..] == u;
    TokensStep(b + u, room, u);
  }

  /** Arguments free of single quotes, each in single quotes: the tokenizer gives back the first fifty. */
  lemma SingleQuotedRoundTrip(args: seq<string>, blanks: seq<string>)
    requires |blanks| == |args| + 1 && Blanks(blanks)
    requires forall k :: 0 <= k < |args| ==> Free(args[k], SQUOTE)
    ensures var ts := Tokens(Line(args, SQUOTE, blanks), MAX_ARGS);
            AllSafe(ts) && Texts(ts) == Take(args, MAX_ARGS)
  {
    LineTokens(args, SQUOTE, blanks, MAX_ARGS);
  }

  function Escaped(args: seq<string>): (r: seq<string>)
    ensures |r| == |args| && forall k :: 0 <= k < |r| ==> r[k] == EscapeBody(args[k])
  {
    seq(|args|, k requires 0 <= k < |args| => EscapeBody(args[k]))
  }

  /** Arguments free of double quotes, each printed as a C string: the tokenizer gives back the first fifty. */
  lemma CQuotedRoundTrip(args: seq<string>, blanks: seq<string>)
    requires |blanks| == |args| + 1 && Blanks(blanks)
    requires forall k :: 0 <= k < |args| ==> AllBytes(args[k]) && Free(args[k], DQUOTE)
    ensures var ts := Tokens(Line(Escaped(args), DQUOTE, blanks), MAX_ARGS);
            AllSafe(ts) && Texts(ts) == Take(args, MAX_ARGS)
  {
    hide Tokens, EscapeBody, Paired, Resolve, Line;
    forall k | 0 <= k < |args|
      ensures Free(Escaped(args)[k], DQUOTE)
    {
      EscapeBodyPrintable(args[k]);
    }
    LineTokens(Escaped(args), DQUOTE, blanks, MAX_ARGS);
    var ts := Tokens(Line(Escaped(args), DQUOTE, blanks), MAX_ARGS);
    forall k | 0 <= k < |ts|
      ensures ts[k].Safe() && ts[k].Text() == args[k]
    {
      assert ts[k] == Token(EscapeBody(args[k]), true);
      EscapeBodyPaired(args[k]);
      ResolveInverts(args[k]);
    }
  }

  // ----- Lines as they are written: bare words and quoted texts -----

  /** An argument as written: bare, or between quotes of either kind. */
  datatype Arg = Bare(text: string) | Single(text: string) | Double(text: string) {
    /** A bare word holds no blank and starts with no quote; a quoted text does not hold its quote. */
    predicate WellWritten() {
      match this
      case Bare(w) => w != "" && w[0] != SQUOTE && w[0] != DQUOTE && forall i :: 0 <= i < |w| ==> !IsSpace(w[i])
      case Single(t) => Free(t, SQUOTE)
      case Double(t) => Free(t, DQUOTE)
    }

    function Spelled(): string {
      match this
      case Bare(w) => w
      case Single(t) => "'" + t + "'"
      case Double(t) => "\"" + t + "\""
    }

    /** Backslashes mean something everywhere but in single quotes. */
    function Meaning(): string {
      if Single? then text else Resolve(text)
    }
  }

  /** The arguments, each behind some blanks, and blanks at the end. */
  function Written(args: seq<Arg>, blanks: seq<string>): string
    requires |blanks| == |args| + 1
  {
    if args == [] then blanks[0] else blanks[0] + args[0].Spelled() + Written(args[1..], blanks[1..])
  }

  /** Bare words are kept apart from what follows them. */
  predicate Apart(args: seq<Arg>, blanks: seq<string>) {
    && |blanks| == |args| + 1 && Blanks(blanks)
    && (forall k :: 0 <= k < |args| ==> args[k].WellWritten())
    && forall k :: 0 <= k < |args| - 1 && args[k].Bare? ==> blanks[k + 1] != ""
  }

  function Meanings(args: seq<Arg>): (r: seq<string>)
    ensures |r| == |args| && forall k :: 0 <= k < |r| ==> r[k] == args[k].Meaning()
  {
    seq(|args|, k requires 0 <= k < |args| => args[k].Meaning())
  }

  lemma {:induction false} WordEnds(word: string, rest: string, delim: char)
    requires !IsQuote(delim) && (forall i :: 0 <= i < |word| ==> !IsSpace(word[i]))
    requires rest == "" || IsSpace(rest[0])
    ensures TokenEnd(word + rest, delim) == |word|
  {
    if word == "" {
      assert word + rest == rest;
    } else {
      WordEnds(word[1..], rest, delim);
      assert (word + rest)[1..] == word[1..] + rest;
    }
  }

  lemma BareToken(word: string, rest: string)
    requires Bare(word).WellWritten() && (rest == "" || IsSpace(rest[0]))
    ensures FirstToken(word + rest) == (Token(word, true), if rest == "" then |word| else |word| + 1)
  {
    hide TokenEnd;
    var t := word + rest;
    assert t[0] == word[0];
    WordEnds(word, rest, t[0]);
    assert t[0..] == t && t[..|word|] == word;
  }

  /** One blank more or less in front changes nothing. */
  lemma BlankDropped(t: string, room: nat)
    requires t != "" && IsSpace(t[0])
    ensures Tokens(t[1..], room) == Tokens(t, room)
  {
    hide FirstToken;
    assert t[SkipSpace(t)..] == t[1..][SkipSpace(t[1..])..];
  }

  /** The token of an argument, and that the tokenizer goes on behind it. */
  lemma ArgToken(arg: Arg, rest: string, room: nat)
    requires arg.WellWritten() && (arg.Bare? ==> rest == "" || IsSpace(rest[0]))
    ensures var t := arg.Spelled() + rest;
            && t != "" && !IsSpace(t[0]) && FirstToken(t).0 == Token(arg.text, !arg.Single?)
            && Tokens(t[FirstToken(t).1..], room) == Tokens(rest, room)
  {
    hide FirstToken, Tokens, TokenEnd;
    var t := arg.Spelled() + rest;
    match arg
    case Bare(w) =>
      BareToken(w, rest);
      if rest == "" {
        assert t[|w|..] == rest;
      } else {
        assert t[|w| + 1..] == rest[1..];
        BlankDropped(rest, room);
      }
    case Single(q) =>
      assert t == Delimited(q, SQUOTE) + rest;
      DelimitedToken(q, SQUOTE, rest);
      assert t[|q| + 2..] == rest;
    case Double(q) =>
      assert t == Delimited(q, DQUOTE) + rest;
      DelimitedToken(q, DQUOTE, rest);
      assert t[|q| + 2..] == rest;
  }

  lemma WrittenStart(args: seq<Arg>, blanks: seq<string>)
    requires Apart(args, blanks) && blanks[0] != ""
    ensures Written(args, blanks) != "" && IsSpace(Written(args, blanks)[0])
  {
  }

  lemma ApartFirst(args: seq<Arg>, blanks: seq<string>)
    requires Apart(args, blanks) && args != []
    ensures Apart(args[1..], blanks[1..]) && Blank(blanks[0]) && args[0].WellWritten()
    ensures var rest := Written(args[1..], blanks[1..]);
            args[0].Bare? ==> rest == "" || IsSpace(rest[0])
  {
    hide Arg.Spelled, Arg.WellWritten;
    if args[0].Bare? && |args| > 1 {
      WrittenStart(args[1..], blanks[1..]);
    }
  }

  lemma WrittenStep(args: seq<Arg>, blanks: seq<string>, room: nat)
    requires Apart(args, blanks) && args != [] && room > 0
    ensures Apart(args[1..], blanks[1..])
    ensures Tokens(Written(args, blanks), room)
         == [Token(args[0].text, !args[0].Single?)] + Tokens(Written(args[1..], blanks[1..]), room - 1)
  {
    hide FirstToken, Tokens, Blanks, Arg.Spelled, Arg.WellWritten;
    ApartFirst(args, blanks);
    var rest := Written(args[1..], blanks[1..]);
    ArgToken(args[0], rest, room - 1);
    LineStep(blanks[0], args[0].Spelled() + rest, room);
    assert blanks[0] + args[0].Spelled() + rest == blanks[0] + (args[0].Spelled() + rest);
  }

  function ArgTokens(args: seq<Arg>): (ts: seq<Token>)
    ensures |ts| == |args| && forall k :: 0 <= k < |ts| ==> ts[k] == Token(args[k].text, !args[k].Single?)
  {
    seq(|args|, k requires 0 <= k < |args| => Token(args[k].text, !args[k].Single?))
  }

  lemma {:induction false} WrittenAsTokens(args: seq<Arg>, blanks: seq<string>, room: nat)
    requires Apart(args, blanks)
    ensures Tokens(Written(args, blanks), room) == Take(ArgTokens(args), room)
  {
    hide Tokens, Blanks, Written, Arg.WellWritten;
    if args == [] {
      NothingWritten(blanks, room);
    } else if room == 0 {
      ApartFirst(args, blanks);
      NoTokens(Written(args, blanks), 0, []);
    } else {
      WrittenStep(args, blanks, room);
      WrittenAsTokens(args[1..], blanks[1..], room - 1);
      assert ArgTokens(args) == [Token(args[0].text, !args[0].Single?)] + ArgTokens(args[1..]);
    }
  }

  lemma NothingWritten(blanks: seq<string>, room: nat)
    requires Apart([], blanks)
    ensures Tokens(Written([], blanks), room) == []
  {
    hide Tokens;
    SkipsAllBlank(blanks[0]);
    BlankTokens(blanks[0], room, []);
  }

  /** Any line of well-written arguments is cut into them, the first `room` of them. */
  lemma WrittenTokens(args: seq<Arg>, blanks: seq<string>, room: nat)
    requires Apart(args, blanks)
    ensures Texts(Tokens(Written(args, blanks), room)) == Take(Meanings(args), room)
    ensures forall k :: 0 <= k < |Tokens(Written(args, blanks), room)| ==>
              k < |args| && Tokens(Written(args, blanks), room)[k] == Token(args[k].text, !args[k].Single?)
  {
    hide Tokens, Written, Resolve;
    WrittenAsTokens(args, blanks, room);
  }

  lemma {:induction false} ResolvesToItself(t: string)
    requires Free(t, BACKSLASH)
    ensures Resolve(t) == t && Paired(t)
  {
    if t != "" {
      ResolvesToItself(t[1..]);
      assert t == [t[0]] + t[1..];
    }
  }

  function Bares(words: seq<string>): (args: seq<Arg>)
    ensures |args| == |words| && forall k :: 0 <= k < |args| ==> args[k] == Bare(words[k])
  {
    seq(|words|, k requires 0 <= k < |words| => Bare(words[k]))
  }

  /** Bare words without backslashes, kept apart by blanks, are the arguments. */
  lemma BareWords(words: seq<string>, blanks: seq<string>, room: nat)
    requires Apart(Bares(words), blanks) && forall k :: 0 <= k < |words| ==> Free(words[k], BACKSLASH)
    ensures Texts(Tokens(Written(Bares(words), blanks), room)) == Take(words, room)
  {
    hide Tokens, Resolve;
    WrittenTokens(Bares(words), blanks, room);
    forall k | 0 <= k < |words|
      ensures Meanings(Bares(words))[k] == words[k]
    {
      ResolvesToItself(words[k]);
    }
    assert Meanings(Bares(words)) == words;
  }

  /** The same in the buffer, behind the dot: the first fifty arguments, one after the other. */
  method TokenizeWritten(args: seq<Arg>, blanks: seq<string>)
    returns (zLine: array<char>, azArg: array<nat>, nArg: nat)
    requires Apart(args, blanks) && NulFree(Written(args, blanks))
    requires forall k :: 0 <= k < |args| && !args[k].Single? ==> Paired(args[k].text)
    ensures fresh(zLine) && fresh(azArg) && nArg == |Take(args, MAX_ARGS)| <= azArg.Length
    ensures forall k :: 0 <= k < nArg ==> TextAt(zLine, azArg[k], args[k].Meaning())
    ensures forall j, k :: 0 <= j < k < nArg ==> azArg[j] + |args[j].Meaning()| < azArg[k]
  {
    hide Tokens, TextAt, Resolve, Paired, Written;
    var line := "." + Written(args, blanks);
    assert line[1..] == Written(args, blanks);
    zLine := BufferOf(line);
    azArg := new nat[MAX_ARGS];
    WrittenTokens(args, blanks, MAX_ARGS);
    ghost var end;
    nArg, end := Tokenize(zLine, azArg, line);
    CutTexts(zLine, azArg, line, Tokens(line[1..], MAX_ARGS), end, Take(Meanings(args), MAX_ARGS));
  }

  // ----- The exact condition for printed C strings -----

  lemma {:induction false} EscapeBodyConcat(a: string, b: string)
    ensures EscapeBody(a + b) == EscapeBody(a) + EscapeBody(b)
  {
    hide EscapeChar;
    if a == "" {
      assert a + b == b;
    } else {
      EscapeBodyConcat(a[1..], b);
      assert (a + b)[1..] == a[1..] + b;
      Regroup(EscapeChar(a[0]), EscapeBody(a[1..]), EscapeBody(b));
    }
  }

  /** The tokenizer stops at the quote of an escape, and what it hands on ends in half of it. */
  lemma QuoteCutsToken(s: string, q: nat, rest: string)
    requires AllBytes(s) && q < |s| && s[q] == DQUOTE && Free(s[..q], DQUOTE)
    ensures !FirstToken(Delimited(EscapeBody(s), DQUOTE) + rest).0.Safe()
  {
    hide EscapeBody, Paired, FirstToken, TokenEnd, AllBytes, Free;
    PrefixBytes(s, q);
    var before, after := EscapeBody(s[..q]), EscapeBody(s[q..][1..]);
    EscapeBodyPrintable(s[..q]);
    EscapeBodyConcat(s[..q], s[q..]);
    assert s[..q] + s[q..] == s;
    QuoteFirst(s[q..]);
    var raw := before + "\\";
    var t := Delimited(EscapeBody(s), DQUOTE) + rest;
    var u := "\"" + (after + "\"" + rest);
    assert EscapeBody(s) == raw + ("\"" + after);
    assert t[1..] == raw + u;
    QuotedToken(t, raw, u, DQUOTE);
    EscapeBodyPaired(s[..q]);
  }

  lemma PrefixBytes(s: string, q: nat)
    requires AllBytes(s) && q <= |s|
    ensures AllBytes(s[..q])
  {
  }

  lemma QuoteFirst(s: string)
    requires s != "" && s[0] == DQUOTE
    ensures EscapeBody(s) == "\\\"" + EscapeBody(s[1..])
  {
  }

  lemma FirstQuote(s: string) returns (q: nat)
    requires !Free(s, DQUOTE)
    ensures q < |s| && s[q] == DQUOTE && Free(s[..q], DQUOTE)
  {
    q := 0;
    while s[q] != DQUOTE
      invariant 0 <= q < |s| && Free(s[..q], DQUOTE)
      decreases |s| - q
    {
      q := q + 1;
    }
  }

  lemma {:induction false} QuotedArgIsUnsafe(args: seq<string>, blanks: seq<string>, room: nat, k: nat)
    requires |blanks| == |args| + 1 && Blanks(blanks) && k < room && k < |args|
    requires forall j :: 0 <= j < |args| ==> AllBytes(args[j])
    requires !Free(args[k], DQUOTE) && forall j :: 0 <= j < k ==> Free(args[j], DQUOTE)
    ensures !AllSafe(Tokens(Line(Escaped(args), DQUOTE, blanks), room))
  {
    hide FirstToken, SkipSpace, Tokens, EscapeBody, Paired;
    var raws := Escaped(args);
    var rest := Line(raws[1..], DQUOTE, blanks[1..]);
    var u := Delimited(raws[0], DQUOTE) + rest;
    assert Line(raws, DQUOTE, blanks) == blanks[0] + u;
    LineStep(blanks[0], u, room);
    var tail := Tokens(u[FirstToken(u).1..], room - 1);
    if k == 0 {
      var q := FirstQuote(args[0]);
      QuoteCutsToken(args[0], q, rest);
      assert !([FirstToken(u).0] + tail)[0].Safe();
    } else {
      EscapeBodyPrintable(args[0]);
      DelimitedToken(raws[0], DQUOTE, rest);
      assert u[|raws[0]| + 2..] == rest;
      QuotedArgIsUnsafe(args[1..], blanks[1..], room - 1, k - 1);
      assert raws[1..] == Escaped(args[1..]);
      var j :| 0 <= j < |tail| && !tail[j].Safe();
      assert !([FirstToken(u).0] + tail)[j + 1].Safe();
    }
  }

  /** Printed C strings can be handed to the tokenizer exactly when none holds a double quote. */
  lemma CQuotedSafeIff(args: seq<string>, blanks: seq<string>)
    requires |blanks| == |args| + 1 && Blanks(blanks) && |args| <= MAX_ARGS
    requires forall k :: 0 <= k < |args| ==> AllBytes(args[k])
    ensures AllSafe(Tokens(Line(Escaped(args), DQUOTE, blanks), MAX_ARGS))
            <==> forall k :: 0 <= k < |args| ==> Free(args[k], DQUOTE)
  {
    hide Tokens, Line, AllSafe, AllBytes, Free, Blanks;
    if forall k :: 0 <= k < |args| ==> Free(args[k], DQUOTE) {
      CQuotedRoundTrip(args, blanks);
    } else {
      var k := 0;
      while Free(args[k], DQUOTE)
        invariant 0 <= k < |args| && !(forall j :: k <= j < |args| ==> Free(args[j], DQUOTE))
        invariant forall j :: 0 <= j < k ==> Free(args[j], DQUOTE)
        decreases |args| - k
      {
        k := k + 1;
      }
      QuotedArgIsUnsafe(args, blanks, MAX_ARGS, k);
    }
  }

  // ----- Both ends together -----

  /** The arguments as a command prints them: a blank and a C string each. */
  function PrintedArgs(args: seq<string>): string {
    if args == [] then "" else " " + CQuoted(args[0]) + PrintedArgs(args[1..])
  }

  /** One blank in front of each argument, none at the end. */
  function OneBlankEach(n: nat): (blanks: seq<string>)
    ensures |blanks| == n + 1 && Blanks(blanks)
  {
    seq(n + 1, k => if k < n then " " else "")
  }

  lemma {:induction false} PrintedIsLine(args: seq<string>)
    ensures PrintedArgs(args) == Line(Escaped(args), DQUOTE, OneBlankEach(|args|))
  {
    hide EscapeBody, Blanks;
    var raws, blanks := Escaped(args), OneBlankEach(|args|);
    if args != [] {
      PrintedIsLine(args[1..]);
      assert raws[1..] == Escaped(args[1..]) && blanks[1..] == OneBlankEach(|args| - 1);
      assert CQuoted(args[0]) == Delimited(raws[0], DQUOTE);
    }
  }

  method PrintArgs(out: OutFile, args: seq<string>)
    modifies out
    ensures out.text == old(out.text) + PrintedArgs(args)
  {
    hide CQuoted, PrintedArgs;
    ghost var before, done := out.text, "";
    PrintedAll(args);
    for i := 0 to |args|
      invariant out.text == before + done
      invariant done + PrintedArgs(args[i..]) == PrintedArgs(args)
    {
      done := PrintedTurn(args, i, done);
      out.Print(" ");
      OutputCString(out, args[i]);
    }
    PrintedAll(args[|args|..]);
  }

  lemma PrintedAll(args: seq<string>)
    ensures "" + PrintedArgs(args[0..]) == PrintedArgs(args) && (args == [] ==> PrintedArgs(args) == "")
  {
    assert args[0..] == args;
  }

  lemma PrintedTurn(args: seq<string>, i: nat, done: string) returns (next: string)
    requires i < |args| && done + PrintedArgs(args[i..]) == PrintedArgs(args)
    ensures next == done + " " + CQuoted(args[i]) && next + PrintedArgs(args[i + 1..]) == PrintedArgs(args)
  {
    hide CQuoted;
    assert args[i..][1..] == args[i + 1..];
    next := done + " " + CQuoted(args[i]);
    Regroup(done, " " + CQuoted(args[i]), PrintedArgs(args[i + 1..]));
    Regroup(done, " ", CQuoted(args[i]));
  }

  lemma {:induction false} PrintedNulFree(args: seq<string>)
    requires forall k :: 0 <= k < |args| ==> AllBytes(args[k])
    ensures NulFree(PrintedArgs(args))
  {
    hide EscapeBody;
    if args != [] {
      EscapeBodyPrintable(args[0]);
      PrintableIsNulFree(EscapeBody(args[0]));
      PrintedNulFree(args[1..]);
    }
  }

  /** Printing a dot command with its arguments and tokenizing the line in its buffer: the first fifty arguments are at
      the recorded offsets, one after the other. */
  method PrintThenTokenize(args: seq<string>) returns (zLine: array<char>, azArg: array<nat>, nArg: nat)
    requires forall k :: 0 <= k < |args| ==> AllBytes(args[k]) && Free(args[k], DQUOTE)
    ensures fresh(zLine) && fresh(azArg) && nArg == |Take(args, MAX_ARGS)| <= azArg.Length
    ensures forall k :: 0 <= k < nArg ==> TextAt(zLine, azArg[k], args[k])
    ensures forall j, k :: 0 <= j < k < nArg ==> azArg[j] + |args[j]| < azArg[k]
  {
    hide PrintedArgs, Tokens, TextAt, AllBytes, Free, AllSafe;
    var out := new OutFile();
    out.Print(".");
    PrintArgs(out, args);
    var line := out.text;
    assert line[1..] == PrintedArgs(args);
    PrintedNulFree(args);
    assert forall k :: 1 <= k < |line| ==> line[k] == line[1..][k - 1];
    zLine := BufferOf(line);
    azArg := new nat[MAX_ARGS];
    PrintedIsLine(args);
    CQuotedRoundTrip(args, OneBlankEach(|args|));
    ghost var end;
    nArg, end := Tokenize(zLine, azArg, line);
    CutTexts(zLine, azArg, line, Tokens(line[1..], MAX_ARGS), end, Take(args, MAX_ARGS));
  }

  lemma CutTexts(zLine: array<char>, azArg: array<nat>, line: string, ts: seq<Token>, i: nat, texts: seq<string>)
    requires Cut(zLine, azArg, line, ts, i) && Texts(ts) == texts
    ensures |texts| == |ts| <= azArg.Length
    ensures forall k :: 0 <= k < |texts| ==> TextAt(zLine, azArg[k], texts[k])
    ensures forall j, k :: 0 <= j < k < |texts| ==> azArg[j] + |texts[j]| < azArg[k]
  {
    hide TextAt, Resolve;
    assert forall k :: 0 <= k < |ts| ==> texts[k] == ts[k].Text() && |ts[k].Text()| <= |ts[k].raw|;
  }
}
