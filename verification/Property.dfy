/** Property files: the in-place line, split and trim loop of get_property, and check_property. */
module Property {
  import opened CText

  const PROPERTY_VALUE_MAX := 92

  // ----- What a property file says -----

  function TrimLeft(s: string): string {
    if s != "" && IsSpace(s[0]) then TrimLeft(s[1..]) else s
  }

  function TrimRight(s: string): string {
    if s != "" && IsSpace(s[|s| - 1]) then TrimRight(s[..|s| - 1]) else s
  }

  function Trim(s: string): string {
    TrimRight(TrimLeft(s))
  }

  function IndexOf(s: string, c: char): (n: nat)
    ensures n <= |s| && (n < |s| ==> s[n] == c) && forall i :: 0 <= i < n ==> s[i] != c
  {
    if s == "" || s[0] == c then 0 else 1 + IndexOf(s[1..], c)
  }

  /** Key and value of a line; lines without '=' and comments have none. */
  function Entry(line: string): Option<(string, string)> {
    var p := IndexOf(line, '=');
    if p == |line| then None
    else
      var key := TrimLeft(line[..p]);
      if key != "" && key[0] == '#' then None else Some((TrimRight(key), Trim(line[p + 1..])))
  }

  /** The value of the first entry whose key starts with `search`; text after the last newline does not count. */
  function Lookup(data: string, search: string): Option<string>
    decreases |data|
  {
    var e := IndexOf(data, LF);
    if e == |data| then None
    else
      var entry := Entry(data[..e]);
      if entry.Some? && search <= entry.value.0 then Some(entry.value.1) else Lookup(data[e + 1..], search)
  }

  // ----- Trimming means removing blanks at both ends, and nothing else -----

  predicate Trimmed(s: string) {
    s == "" || (!IsSpace(s[0]) && !IsSpace(s[|s| - 1]))
  }

  lemma {:induction false} TrimLeftMeaning(s: string) returns (before: string)
    ensures s == before + TrimLeft(s) && Blank(before)
    ensures TrimLeft(s) != "" ==> !IsSpace(TrimLeft(s)[0])
  {
    if s != "" && IsSpace(s[0]) {
      var rest := TrimLeftMeaning(s[1..]);
      before := [s[0]] + rest;
    } else {
      before := "";
    }
  }

  lemma {:induction false} TrimRightMeaning(s: string) returns (after: string)
    ensures s == TrimRight(s) + after && Blank(after)
    ensures TrimRight(s) != "" ==> !IsSpace(TrimRight(s)[|TrimRight(s)| - 1])
  {
    if s != "" && IsSpace(s[|s| - 1]) {
      var rest := TrimRightMeaning(s[..|s| - 1]);
      after := rest + [s[|s| - 1]];
    } else {
      after := "";
    }
  }

  lemma TrimMeaning(s: string) returns (before: string, after: string)
    ensures s == before + Trim(s) + after && Blank(before) && Blank(after) && Trimmed(Trim(s))
  {
    before := TrimLeftMeaning(s);
    after := TrimRightMeaning(TrimLeft(s));
    var t := Trim(s);
    assert t != "" ==> t[0] == TrimLeft(s)[0];
  }

  // ----- The buffer routines -----

  /** strchr from `p`: the index of `c`, or of the terminator. */
  method StrChr(buf: array<char>, p: nat, c: char, ghost s: string) returns (n: nat)
    requires CStringAt(buf, p, s) && c != NUL
    ensures n == p + IndexOf(s, c)
  {
    n := p;
    assert s[0..] == s;
    while buf[n] != NUL && buf[n] != c
      invariant p <= n <= p + |s| && IndexOf(s, c) == n - p + IndexOf(s[n - p..], c)
      decreases p + |s| - n
    {
      assert n < p + |s| ==> buf[n] == s[n - p];
      assert s[n - p..][1..] == s[n + 1 - p..];
      n := n + 1;
    }
    assert n < p + |s| ==> buf[n] == s[n - p];
  }

  method SkipLeft(buf: array<char>, p: nat, ghost s: string) returns (n: nat)
    requires CStringAt(buf, p, s)
    ensures p <= n && n + |TrimLeft(s)| == p + |s| && CStringAt(buf, n, TrimLeft(s))
  {
    n := p;
    assert s[0..] == s;
    while IsSpace(buf[n])
      invariant p <= n <= p + |s| && TrimLeft(s) == TrimLeft(s[n - p..])
      decreases p + |s| - n
    {
      assert n < p + |s| ==> buf[n] == s[n - p];
      assert s[n - p..][1..] == s[n + 1 - p..];
      n := n + 1;
    }
    assert n < p + |s| ==> buf[n] == s[n - p];
    assert TrimLeft(s) == s[n - p..];
  }

  /** Overwrites trailing blanks with NUL, never the first character; `tmp` starts at the last one. */
  method CutRight(buf: array<char>, p: nat, end: nat, ghost s: string)
    requires CStringAt(buf, p, s) && end == p + |s| && (s != "" ==> !IsSpace(s[0]))
    modifies buf
    ensures CStringAt(buf, p, TrimRight(s))
    ensures forall m :: 0 <= m < buf.Length && (m < p || m >= end) ==> buf[m] == old(buf[m])
  {
    var tmp: int := end - 1;
    assert s[..|s|] == s;
    while tmp > p && IsSpace(buf[tmp])
      invariant p - 1 <= tmp < end && buf[tmp + 1] == NUL
      invariant TrimRight(s) == TrimRight(s[..tmp + 1 - p])
      invariant forall m :: p <= m <= tmp ==> buf[m] == s[m - p]
      invariant forall m :: 0 <= m < buf.Length && (m < p || m >= end) ==> buf[m] == old(buf[m])
    {
      assert s[..tmp + 1 - p][..tmp - p] == s[..tmp - p];
      buf[tmp] := NUL;
      tmp := tmp - 1;
    }
    assert TrimRight(s[..tmp + 1 - p]) == s[..tmp + 1 - p];
  }

  /** Cuts one line, ended at `eol`, into key and value; `entry` is false for what the loop skips. */
  method SplitLine(buf: array<char>, sol: nat, eol: nat, ghost line: string)
    returns (entry: bool, key: nat, value: nat)
    requires CStringAt(buf, sol, line) && eol == sol + |line|
    modifies buf
    ensures entry == Entry(line).Some?
    ensures entry ==> CStringAt(buf, key, Entry(line).value.0) && CStringAt(buf, value, Entry(line).value.1)
    ensures forall m :: eol < m < buf.Length ==> buf[m] == old(buf[m])
  {
    hide TrimLeft, TrimRight, IndexOf;
    entry, key, value := false, sol, sol;
    var eq := StrChr(buf, sol, '=', line);
    if eq == eol { return; }
    ghost var k, v := line[..eq - sol], line[eq - sol + 1..];
    buf[eq] := NUL;
    assert CStringAt(buf, sol, k) && CStringAt(buf, eq + 1, v);
    key := SkipLeft(buf, sol, k);
    assert TrimLeft(k) != "" ==> buf[key] == TrimLeft(k)[0];
    if buf[key] == '#' { return; }
    TrimLeftStops(k);
    CutRight(buf, key, eq, TrimLeft(k));
    TrimRightShorter(TrimLeft(k));
    value := TrimValue(buf, key, TrimRight(TrimLeft(k)), eq + 1, eol, v);
    entry := true;
  }

  /** Trims the value in place, leaving the key before it alone. */
  method TrimValue(buf: array<char>, ghost key: nat, ghost keyText: string, start: nat, eol: nat, ghost v: string)
    returns (value: nat)
    requires CStringAt(buf, key, keyText) && key + |keyText| < start
    requires CStringAt(buf, start, v) && eol == start + |v|
    modifies buf
    ensures CStringAt(buf, key, keyText) && CStringAt(buf, value, Trim(v))
    ensures forall m :: eol < m < buf.Length ==> buf[m] == old(buf[m])
  {
    hide TrimLeft, TrimRight;
    ghost var was := buf[..];
    value := SkipLeft(buf, start, v);
    TrimLeftStops(v);
    CutRight(buf, value, eol, TrimLeft(v));
    CStringKept(buf, was, key, keyText, value);
  }

  lemma TrimLeftStops(s: string)
    ensures TrimLeft(s) != "" ==> !IsSpace(TrimLeft(s)[0])
  {
    var _ := TrimLeftMeaning(s);
  }

  lemma TrimRightShorter(s: string)
    ensures |TrimRight(s)| <= |s|
  {
    var _ := TrimRightMeaning(s);
  }

  /** memcpy of a C string with its terminator. */
  method CopyOut(found: array<char>, s: string)
    requires |s| < found.Length && NulFree(s)
    modifies found
    ensures CStringAt(found, 0, s)
  {
    forall i | 0 <= i < |s| { found[i] := s[i]; }
    found[|s|] := NUL;
  }

  /** The buffer from `sol` on is the data not yet looked at. */
  predicate Rest(buf: array<char>, sol: nat, data: string)
    reads buf
  {
    sol <= |data| && CStringAt(buf, sol, data[sol..])
  }

  /** Ending the line at `eol` makes it a C string, and leaves the text behind it. */
  lemma LineCut(buf: array<char>, was: string, sol: nat, eol: nat, data: string)
    requires sol <= eol < |data| < |was| == buf.Length && NulFree(data[sol..])
    requires (forall m :: sol <= m < |data| ==> was[m] == data[m]) && was[|data|] == NUL
    requires buf[eol] == NUL && forall m :: 0 <= m < buf.Length && m != eol ==> buf[m] == was[m]
    ensures CStringAt(buf, sol, data[sol..][..eol - sol])
    ensures TextBehind(buf[..], eol + 1, data)
  {
    assert forall m :: sol <= m < |data| ==> data[sol..][m - sol] == data[m];
  }

  predicate TextBehind(text: string, from: nat, data: string) {
    from <= |data| < |text| && (forall m :: from <= m < |data| ==> text[m] == data[m] != NUL) && text[|data|] == NUL
  }

  lemma RestText(buf: array<char>, sol: nat, data: string)
    requires Rest(buf, sol, data)
    ensures TextBehind(buf[..], sol, data) && NulFree(data[sol..])
  {
    assert forall m :: sol <= m < |data| ==> data[sol..][m - sol] == data[m];
  }

  lemma RestBehind(buf: array<char>, was: string, from: nat, data: string)
    requires |was| == buf.Length && TextBehind(was, from, data)
    requires forall m :: from <= m < buf.Length ==> buf[m] == was[m]
    ensures Rest(buf, from, data)
  {
    assert forall m :: 0 <= m < |data| - from ==> data[from..][m] == data[from + m];
  }

  /** One turn of the loop: `more` when there was a line, with its key and value if it has them. */
  method NextLine(buf: array<char>, sol: nat, ghost data: string)
    returns (more: bool, next: nat, entry: Option<(string, string)>)
    requires Rest(buf, sol, data)
    modifies buf
    ensures var e := IndexOf(data[sol..], LF);
            if !more then e == |data[sol..]|
            else e < |data[sol..]| && next == sol + e + 1 && entry == Entry(data[sol..][..e]) && Rest(buf, next, data)
    ensures entry.Some? ==> NulFree(entry.value.1)
  {
    hide Entry, IndexOf, CStringAt;
    ghost var rest := data[sol..];
    entry := None;
    ghost var was := buf[..];
    RestText(buf, sol, data);
    var eol := StrChr(buf, sol, LF, rest);
    next := eol;
    more := buf[eol] != NUL;
    if more {
      buf[eol] := NUL;
      next := eol + 1;
      LineCut(buf, was, sol, eol, data);
      was := buf[..];
      entry := ReadEntry(buf, sol, eol, rest[..eol - sol]);
      RestBehind(buf, was, next, data);
    }
  }

  /** Key and value of one line, cut and trimmed in the buffer. */
  method ReadEntry(buf: array<char>, sol: nat, eol: nat, ghost line: string) returns (entry: Option<(string, string)>)
    requires CStringAt(buf, sol, line) && eol == sol + |line|
    modifies buf
    ensures entry == Entry(line)
    ensures entry.Some? ==> NulFree(entry.value.1)
    ensures forall m :: eol < m < buf.Length ==> buf[m] == old(buf[m])
  {
    hide Entry, CStringAt;
    entry := None;
    var found, key, val := SplitLine(buf, sol, eol, line);
    if found {
      var keyText := ReadCString(buf, key, Entry(line).value.0);
      var text := ReadCString(buf, val, Entry(line).value.1);
      CStringFree(buf, val, text);
      entry := Some((keyText, text));
    }
  }

  lemma CStringFree(buf: array<char>, p: nat, s: string)
    requires CStringAt(buf, p, s)
    ensures NulFree(s)
  {
  }

  /** The loop: the value of the first match. */
  method FindValue(data: string, searchkey: string) returns (value: Option<string>)
    requires NulFree(data) && NulFree(searchkey)
    ensures value == Lookup(data, searchkey)
    ensures value.Some? ==> NulFree(value.value)
  {
    hide Entry, IndexOf, Rest;
    var buf := new char[|data| + 1];
    CopyOut(buf, data);
    var sol := 0;
    StartRest(buf, data);
    while true
      invariant sol <= |data| && Rest(buf, sol, data)
      invariant Lookup(data, searchkey) == Lookup(data[sol..], searchkey)
      decreases |data| - sol
    {
      ghost var rest := data[sol..];
      var more, next, entry := NextLine(buf, sol, data);
      if !more { return None; }
      assert rest[next - sol..] == data[next..];
      if entry.Some? && searchkey <= entry.value.0 { return Some(entry.value.1); }
      sol := next;
    }
  }

  lemma StartRest(buf: array<char>, data: string)
    requires CStringAt(buf, 0, data)
    ensures Rest(buf, 0, data) && data[0..] == data
  {
  }

  /** -1, with the result buffer untouched, when the value is too long. */
  method GetProperty(data: Option<string>, found: array<char>, searchkey: string, notFound: string) returns (len: int)
    requires data.Some? ==> NulFree(data.value)
    requires NulFree(searchkey) && NulFree(notFound) && |notFound| < found.Length && PROPERTY_VALUE_MAX <= found.Length
    modifies found
    ensures var value := if data.None? then None else Lookup(data.value, searchkey);
            match value
            case None => len == |notFound| && CStringAt(found, 0, notFound)
            case Some(v) => if |v| >= PROPERTY_VALUE_MAX then len == -1 && found[..] == old(found[..])
                            else len == |v| && CStringAt(found, 0, v)
  {
    hide Lookup;
    if data.Some? {
      var value := FindValue(data.value, searchkey);
      if value.Some? {
        if |value.value| >= PROPERTY_VALUE_MAX { return -1; }
        CopyOut(found, value.value);
        return |value.value|;
      }
    }
    CopyOut(found, notFound);
    len := |notFound|;
  }

  // ----- check_property -----

  /** strstr. */
  ghost predicate Contains(data: string, s: string) {
    exists i :: 0 <= i <= |data| && s <= data[i..]
  }

  method CheckProperty(data: Option<string>, prefix: string) returns (r: bool)
    ensures r <==> data.Some? && Contains(data.value, prefix)
  {
    if data.None? { return false; }
    for i := 0 to |data.value| + 1
      invariant forall k :: 0 <= k < i ==> !(prefix <= data.value[k..])
    {
      if prefix <= data.value[i..] { return true; }
    }
    r := false;
  }

  lemma ContainsThrough(data: string, before: string, mid: string, after: string, s: string)
    requires data == before + mid + after && Contains(mid, s)
    ensures Contains(data, s)
  {
    var i :| 0 <= i <= |mid| && s <= mid[i..];
    assert data[|before| + i..] == mid[i..] + after;
  }

  lemma PrefixContained(key: string, s: string)
    requires s <= key
    ensures Contains(key, s)
  {
    assert key[0..] == key;
  }

  lemma ContainsWithin(data: string, from: nat, to: nat, s: string)
    requires from <= to <= |data| && Contains(data[from..to], s)
    ensures Contains(data, s)
  {
    var i :| 0 <= i <= to - from && s <= data[from..to][i..];
    assert data[from..to][i..] <= data[from + i..];
  }

  lemma EntryInLine(line: string, s: string)
    requires Entry(line).Some? && s <= Entry(line).value.0
    ensures Contains(line, s)
  {
    hide TrimLeft, TrimRight, Contains, IndexOf;
    var p := IndexOf(line, '=');
    var key := Entry(line).value.0;
    PrefixContained(key, s);
    var before, after := TrimMeaning(line[..p]);
    ContainsThrough(line[..p], before, key, after, s);
    ContainsWithin(line, 0, p, s);
  }

  lemma LookupUnfold(data: string, search: string)
    requires Lookup(data, search).Some?
    ensures var e := IndexOf(data, LF);
            && e < |data|
            && ((Entry(data[..e]).Some? && search <= Entry(data[..e]).value.0) || Lookup(data[e + 1..], search).Some?)
  {
    hide Entry, IndexOf;
  }

  /** Whenever the slow lookup finds a match, the cheap check answers yes. */
  lemma {:induction false} LookupImpliesCheck(data: string, search: string)
    requires Lookup(data, search).Some?
    ensures Contains(data, search)
    decreases |data|
  {
    hide Entry, Contains, Lookup, IndexOf;
    LookupUnfold(data, search);
    var e := IndexOf(data, LF);
    if Entry(data[..e]).Some? && search <= Entry(data[..e]).value.0 {
      EntryInLine(data[..e], search);
      ContainsWithin(data, 0, e, search);
    } else {
      LookupImpliesCheck(data[e + 1..], search);
      assert data[e + 1..|data|] == data[e + 1..];
      ContainsWithin(data, e + 1, |data|, search);
    }
  }

  // ----- Exactly when the lookup finds a match -----

  /** A whole line of the data, with its newline at `e`. */
  predicate LineAt(data: string, l: nat, e: nat) {
    l <= e < |data| && (l == 0 || data[l - 1] == LF) && data[e] == LF && forall k :: l <= k < e ==> data[k] != LF
  }

  /** The key of the line starts at `i`, is no comment, and has `search` in front of it: the first '=' comes behind, and
      blanks at the end of `search` have more of the key behind them. */
  predicate KeyAt(line: string, search: string, i: nat) {
    && i <= |line| && (forall k :: 0 <= k < i ==> IsSpace(line[k]))
    && search <= line[i..]
    && var p := IndexOf(line, '=');
       && i + |search| <= p < |line|
       && line[i] != '#' && !IsSpace(line[i])
       && (search == "" || exists m :: i + |search| - 1 <= m < p && !IsSpace(line[m]))
  }

  ghost predicate KeyIn(line: string, search: string) {
    exists i: nat :: KeyAt(line, search, i)
  }

  ghost predicate OnSomeLine(data: string, search: string) {
    exists l: nat, e: nat, i: nat :: LineAt(data, l, e) && KeyAt(data[l..e], search, i)
  }

  /** Trimming on the left drops the blanks in front and nothing else. */
  lemma TrimLeftDrops(s: string) returns (i: nat)
    ensures i <= |s| && TrimLeft(s) == s[i..]
    ensures (forall k :: 0 <= k < i ==> IsSpace(s[k])) && (i < |s| ==> !IsSpace(s[i]))
  {
    var before := TrimLeftMeaning(s);
    i := |before|;
    assert forall k :: 0 <= k < i ==> s[k] == before[k];
    assert s[i..] == TrimLeft(s);
  }

  lemma TrimRightDrops(s: string) returns (n: nat)
    ensures n <= |s| && TrimRight(s) == s[..n] && (forall k :: n <= k < |s| ==> IsSpace(s[k]))
    ensures n > 0 ==> !IsSpace(s[n - 1])
  {
    hide TrimRight;
    var after := TrimRightMeaning(s);
    n := |TrimRight(s)|;
    assert n > 0 ==> TrimRight(s)[n - 1] == s[n - 1];
    assert forall k :: n <= k < |s| ==> s[k] == after[k - n];
  }

  /** One line: its trimmed key starts with `search` exactly when `search` stands at the start of the key. */
  lemma EntryIff(line: string, search: string)
    ensures Entry(line).Some? && search <= Entry(line).value.0 <==> KeyIn(line, search)
  {
    hide IndexOf, TrimLeft, TrimRight, KeyAt;
    var p := IndexOf(line, '=');
    if p < |line| {
      var k := line[..p];
      var i := TrimLeftDrops(k);
      var n := TrimRightDrops(TrimLeft(k));
      KeyMatches(line, search, i, n);
      forall j: nat | KeyAt(line, search, j) ensures j == i { KeyStartsOnce(line, search, i, j); }
    } else {
      forall j: nat ensures !KeyAt(line, search, j) { NoKey(line, search, j); }
    }
  }

  lemma NoKey(line: string, search: string, i: nat)
    requires IndexOf(line, '=') == |line|
    ensures !KeyAt(line, search, i)
  {
  }

  lemma KeyStartsOnce(line: string, search: string, i: nat, j: nat)
    requires var p := IndexOf(line, '=');
             && p < |line| && i <= p
             && (forall k :: 0 <= k < i ==> IsSpace(line[..p][k])) && (i < p ==> !IsSpace(line[..p][i]))
    requires KeyAt(line, search, j)
    ensures j == i
  {
    hide IndexOf;
    var p := IndexOf(line, '=');
    assert forall k :: 0 <= k < p ==> line[..p][k] == line[k];
    assert line[p] == '=';
  }

  /** With the key at `i` and its trimmed length `n`, the two sides say the same. */
  lemma KeyMatches(line: string, search: string, i: nat, n: nat)
    requires var p := IndexOf(line, '=');
             var k := line[..IndexOf(line, '=')];
             && p < |line| && i <= p && TrimLeft(k) == k[i..] && n <= |k[i..]| && TrimRight(k[i..]) == k[i..][..n]
             && (forall m :: 0 <= m < i ==> IsSpace(k[m])) && (i < |k| ==> !IsSpace(k[i]))
             && (forall m :: n <= m < |k[i..]| ==> IsSpace(k[i..][m])) && (n > 0 ==> !IsSpace(k[i..][n - 1]))
    ensures Entry(line).Some? && search <= Entry(line).value.0 <==> KeyAt(line, search, i)
  {
    hide IndexOf, TrimLeft, TrimRight;
    var p := IndexOf(line, '=');
    var k := line[..p];
    var key := k[i..];
    assert line[p] == '=';
    assert forall m :: 0 <= m < |key| ==> key[m] == line[i + m];
    assert i < p ==> n > 0;
    if search <= key[..n] {
      assert search <= line[i..];
      if search != "" { assert !IsSpace(line[i + n - 1]) && i + |search| - 1 <= i + n - 1 < p; }
    }
    if KeyAt(line, search, i) {
      if search != "" {
        var m :| i + |search| - 1 <= m < p && !IsSpace(line[m]);
        assert key[m - i] == line[m];
        assert m - i < n;
      }
      assert search == line[i..][..|search|] == key[..n][..|search|];
    }
  }

  /** Lines behind the first are the lines of what is behind it. */
  lemma LineShift(data: string, d: nat, l: nat, e: nat)
    requires 0 < d <= |data| && data[d - 1] == LF && d <= l <= e
    ensures LineAt(data, l, e) <==> LineAt(data[d..], l - d, e - d)
    ensures e <= |data| ==> data[l..e] == data[d..][l - d..e - d]
  {
  }

  lemma FoundLater(data: string, search: string, d: nat)
    requires 0 < d <= |data| && data[d - 1] == LF && OnSomeLine(data[d..], search)
    ensures OnSomeLine(data, search)
  {
    hide KeyAt;
    var l: nat, e: nat, i: nat :| LineAt(data[d..], l, e) && KeyAt(data[d..][l..e], search, i);
    LineShift(data, d, l + d, e + d);
    hide LineAt;
    assert LineAt(data, l + d, e + d) && KeyAt(data[l + d..e + d], search, i);
  }

  lemma FoundFirst(data: string, search: string, e: nat)
    requires LineAt(data, 0, e) && KeyIn(data[..e], search)
    ensures OnSomeLine(data, search)
  {
    hide KeyAt;
    assert data[0..e] == data[..e];
    var i: nat :| KeyAt(data[..e], search, i);
    assert LineAt(data, 0, e) && KeyAt(data[0..e], search, i);
  }

  /** A line starts behind the first newline, or it is the first. */
  lemma LineSplit(data: string, d: nat, l: nat, e: nat)
    requires 0 < d <= |data| && LineAt(data, 0, d - 1) && LineAt(data, l, e)
    ensures l >= d || (l == 0 && e == d - 1)
  {
  }

  lemma OnLaterLine(data: string, search: string, d: nat)
    requires 0 < d <= |data| && data[d - 1] == LF && LineAt(data, 0, d - 1)
    ensures OnSomeLine(data, search)
            <==> KeyIn(data[..d - 1], search) || OnSomeLine(data[d..], search)
  {
    hide KeyAt;
    if OnSomeLine(data, search) {
      var l: nat, e: nat, i: nat :| LineAt(data, l, e) && KeyAt(data[l..e], search, i);
      LineSplit(data, d, l, e);
      if l >= d {
        LineShift(data, d, l, e);
        assert LineAt(data[d..], l - d, e - d) && KeyAt(data[d..][l - d..e - d], search, i);
      } else {
        assert data[0..d - 1] == data[..d - 1];
      }
    }
    if OnSomeLine(data[d..], search) { FoundLater(data, search, d); }
    if KeyIn(data[..d - 1], search) { FoundFirst(data, search, d - 1); }
  }

  lemma {:induction false} LookupIff(data: string, search: string)
    ensures Lookup(data, search).Some? <==> OnSomeLine(data, search)
    decreases |data|
  {
    hide Entry, KeyIn, OnSomeLine;
    var e := IndexOf(data, LF);
    if e == |data| {
      NoLine(data, search);
    } else {
      LookupIff(data[e + 1..], search);
      EntryIff(data[..e], search);
      OnLaterLine(data, search, e + 1);
    }
  }

  lemma NoLine(data: string, search: string)
    requires forall k :: 0 <= k < |data| ==> data[k] != LF
    ensures !OnSomeLine(data, search)
  {
  }

  /** check_property and the lookup agree exactly when the text occurs nowhere or at the start of some line's key. */
  lemma CheckAgreesIff(data: string, search: string)
    ensures (Contains(data, search) <==> Lookup(data, search).Some?)
            <==> !Contains(data, search) || OnSomeLine(data, search)
  {
    hide Contains, OnSomeLine, Lookup;
    LookupIff(data, search);
    if Lookup(data, search).Some? { LookupImpliesCheck(data, search); }
  }

  // ----- Which value is returned -----

  /** `v` is what stands behind the first '=' of the line, without the blanks around it. */
  ghost predicate ValueOf(line: string, v: string) {
    exists p: nat, before: string, after: string ::
      && p < |line| && line[p] == '=' && (forall k :: 0 <= k < p ==> line[k] != '=')
      && line[p + 1..] == before + v + after && Blank(before) && Blank(after) && Trimmed(v)
  }

  lemma EntryValue(line: string)
    requires Entry(line).Some?
    ensures ValueOf(line, Entry(line).value.1)
  {
    hide TrimLeft, TrimRight, IndexOf, Trim, Blank, Trimmed;
    var p := IndexOf(line, '=');
    var before, after := TrimMeaning(line[p + 1..]);
    assert line[p] == '=' && forall k :: 0 <= k < p ==> line[k] != '=';
    assert line[p + 1..] == before + Entry(line).value.1 + after;
  }

  /** The line at `l` is the first with `search` at the start of its key. */
  ghost predicate FirstMatch(data: string, search: string, l: nat, e: nat) {
    && LineAt(data, l, e) && KeyIn(data[l..e], search)
    && forall m: nat, n: nat :: LineAt(data, m, n) && n < l ==> !KeyIn(data[m..n], search)
  }

  lemma FirstIsFirst(data: string, search: string, e: nat)
    requires LineAt(data, 0, e) && KeyIn(data[..e], search)
    ensures FirstMatch(data, search, 0, e)
  {
    hide KeyIn;
    assert data[0..e] == data[..e];
  }

  /** Behind a first line without a match, the first match of the rest is the first of all. */
  lemma FirstBehind(data: string, search: string, d: nat, l: nat, e: nat)
    requires 0 < d <= |data| && data[d - 1] == LF && LineAt(data, 0, d - 1) && !KeyIn(data[..d - 1], search)
    requires FirstMatch(data[d..], search, l, e)
    ensures FirstMatch(data, search, l + d, e + d) && data[l + d..e + d] == data[d..][l..e]
  {
    hide KeyIn;
    LineShift(data, d, l + d, e + d);
    forall m: nat, n: nat | LineAt(data, m, n) && n < l + d
      ensures !KeyIn(data[m..n], search)
    {
      LineSplit(data, d, m, n);
      if m >= d {
        LineShift(data, d, m, n);
        assert LineAt(data[d..], m - d, n - d);
      } else {
        assert data[0..d - 1] == data[..d - 1];
      }
    }
  }

  /** The lookup returns the trimmed value of the first line whose key matches. */
  lemma {:induction false} LookupFirst(data: string, search: string) returns (l: nat, e: nat)
    requires Lookup(data, search).Some?
    ensures FirstMatch(data, search, l, e) && ValueOf(data[l..e], Lookup(data, search).value)
    decreases |data|
  {
    hide Entry, KeyIn, IndexOf, Lookup, ValueOf, FirstMatch;
    LookupCases(data, search);
    e := IndexOf(data, LF);
    EntryIff(data[..e], search);
    if KeyIn(data[..e], search) {
      l := 0;
      FirstIsFirst(data, search, e);
      EntryValue(data[..e]);
      assert data[0..e] == data[..e];
    } else {
      var d := e + 1;
      l, e := LookupFirst(data[d..], search);
      FirstBehind(data, search, d, l, e);
      l, e := l + d, e + d;
    }
  }

  lemma LookupCases(data: string, search: string)
    requires Lookup(data, search).Some?
    ensures var e := IndexOf(data, LF);
            && LineAt(data, 0, e)
            && if Entry(data[..e]).Some? && search <= Entry(data[..e]).value.0
               then Lookup(data, search).value == Entry(data[..e]).value.1
               else Lookup(data[e + 1..], search).Some? && Lookup(data, search) == Lookup(data[e + 1..], search)
  {
    hide Entry;
  }

  // ----- The same for the keys that are searched for in practice -----

  /** No blank, no '=', and no comment sign in front. */
  predicate PlainSearch(search: string) {
    search != "" && search[0] != '#' && forall k :: 0 <= k < |search| ==> !IsSpace(search[k]) && search[k] != '='
  }

  /** A line starts at `l`, and up to `i` it is blank. */
  predicate BlankFrom(data: string, l: nat, i: nat) {
    && l <= i <= |data| && (l == 0 || data[l - 1] == LF)
    && forall k :: l <= k < i ==> IsSpace(data[k]) && data[k] != LF
  }

  /** From `i` on, the line goes on past an '=' at `p` to its newline at `e`. */
  predicate ValueBehind(data: string, i: nat, p: nat, e: nat) {
    i <= p < e < |data| && data[p] == '=' && data[e] == LF && forall k :: i <= k < e ==> data[k] != LF
  }

  /** `search` occurs at `i` with only blanks between the start of its line and `i`, and an '=' and then a newline after
      it on that line. */
  ghost predicate StartsLine(data: string, search: string, i: nat) {
    && i <= |data| && search <= data[i..]
    && (exists l: nat :: BlankFrom(data, l, i))
    && exists p: nat, e: nat :: i + |search| <= p && ValueBehind(data, i, p, e)
  }

  lemma KeyStartsLine(data: string, search: string, l: nat, e: nat, i: nat)
    requires LineAt(data, l, e) && KeyAt(data[l..e], search, i)
    ensures StartsLine(data, search, l + i)
  {
    hide IndexOf;
    var line := data[l..e];
    var p := IndexOf(line, '=');
    assert forall k :: 0 <= k < |line| ==> line[k] == data[l + k];
    assert forall k :: l <= k < l + i ==> IsSpace(line[k - l]) && data[k] == line[k - l];
    assert BlankFrom(data, l, l + i) && ValueBehind(data, l + i, l + p, e);
    assert search <= data[l + i..] by { assert line[i..] <= data[l + i..]; }
  }

  lemma StartsLineIsKey(data: string, search: string, at: nat)
    requires PlainSearch(search) && StartsLine(data, search, at)
    ensures OnSomeLine(data, search)
  {
    hide KeyAt;
    var l: nat :| BlankFrom(data, l, at);
    var p: nat, e: nat :| at + |search| <= p && ValueBehind(data, at, p, e);
    var line := data[l..e];
    assert forall k :: 0 <= k < |search| ==> search[k] == data[at..][k] == line[at - l + k];
    assert LineAt(data, l, e);
    assert line[p - l] == '=';
    PlainKey(line, search, at - l, p - l);
  }

  lemma PlainKey(line: string, search: string, i: nat, p: nat)
    requires PlainSearch(search) && i + |search| <= p < |line| && line[p] == '='
    requires forall k :: 0 <= k < i ==> IsSpace(line[k])
    requires forall k :: 0 <= k < |search| ==> search[k] == line[i + k]
    ensures KeyAt(line, search, i)
  {
    hide IndexOf;
    var q := IndexOf(line, '=');
    assert search <= line[i..];
    assert line[q] == '=';
    assert forall k :: i <= k < i + |search| ==> line[k] == search[k - i] != '=';
    assert !IsSpace(search[|search| - 1]) && !IsSpace(line[i + |search| - 1]);
    assert search[0] == line[i];
  }

  /** For a plain key: the lookup finds a match exactly when some occurrence starts its line and has a value behind it.
      So the check says yes while the lookup finds nothing exactly when the text occurs, but not like that. */
  lemma PlainLookupIff(data: string, search: string)
    requires PlainSearch(search)
    ensures Lookup(data, search).Some? <==> exists i: nat :: StartsLine(data, search, i)
    ensures Contains(data, search) && Lookup(data, search).None?
            <==> Contains(data, search)
                 && forall i: nat :: i <= |data| && search <= data[i..] ==> !StartsLine(data, search, i)
  {
    hide Contains, Lookup, StartsLine, KeyAt;
    LookupIff(data, search);
    if OnSomeLine(data, search) {
      var l: nat, e: nat, i: nat :| LineAt(data, l, e) && KeyAt(data[l..e], search, i);
      KeyStartsLine(data, search, l, e, i);
    }
    if i: nat :| StartsLine(data, search, i) {
      StartsLineIsKey(data, search, i);
    }
    forall i: nat | StartsLine(data, search, i)
      ensures i <= |data| && search <= data[i..]
    {
      StartsLineOccurs(data, search, i);
    }
  }

  lemma StartsLineOccurs(data: string, search: string, i: nat)
    requires StartsLine(data, search, i)
    ensures i <= |data| && search <= data[i..]
  {
  }

  /** The converse of LookupImpliesCheck fails for a commented-out key, and for a text that is only part of a value. */
  lemma CheckWithoutLookup()
    ensures Contains("#a=1\n", "a") && Lookup("#a=1\n", "a") == None
    ensures Contains("x=a\n", "a") && Lookup("x=a\n", "a") == None
  {
    CommentedOut();
    InValue();
  }

  lemma InValue()
    ensures Contains("x=a\n", "a") && Lookup("x=a\n", "a") == None
  {
    var data := "x=a\n";
    assert "a" <= data[2..];
    assert IndexOf(data, LF) == 3;
    assert data[..3] == "x=a";
    assert IndexOf("x=a", '=') == 1;
    assert "x=a"[..1] == "x" && TrimLeft("x") == "x";
    assert TrimRight("x") == "x";
    assert data[4..] == "";
  }

  lemma CommentedOut()
    ensures Contains("#a=1\n", "a") && Lookup("#a=1\n", "a") == None
  {
    var data := "#a=1\n";
    assert "a" <= data[1..];
    assert IndexOf(data, LF) == 4;
    assert data[..4] == "#a=1";
    assert IndexOf("#a=1", '=') == 2;
    assert "#a=1"[..2] == "#a" && TrimLeft("#a") == "#a";
    assert data[5..] == "";
  }
}
