/** C strings and the <ctype.h> classes of the "C" locale.

    A C `char` is a Dafny `char`; the few places where its width matters say so with `IsByte`. */
module CText {

  datatype Option<+T> = None | Some(value: T)

  const NUL: char := '\0'
  const LF: char := '\n'
  const DQUOTE: char := '"'
  const SQUOTE: char := '\''
  const BACKSLASH: char := '\\'

  predicate NulFree(s: string) {
    forall i :: 0 <= i < |s| ==> s[i] != NUL
  }

  predicate Free(s: string, c: char) {
    forall i :: 0 <= i < |s| ==> s[i] != c
  }

  predicate IsByte(c: char) {
    c as int < 256
  }

  predicate AllBytes(s: string) {
    forall i :: 0 <= i < |s| ==> IsByte(s[i])
  }

  predicate IsSpace(c: char) {
    c == ' ' || '\t' as int <= c as int <= '\r' as int
  }

  predicate IsDigit(c: char) {
    '0' <= c <= '9'
  }

  predicate AllDigits(s: string) {
    s != "" && forall i :: 0 <= i < |s| ==> IsDigit(s[i])
  }

  predicate Blank(s: string) {
    forall i :: 0 <= i < |s| ==> IsSpace(s[i])
  }

  predicate IsAlpha(c: char) {
    'a' <= c <= 'z' || 'A' <= c <= 'Z'
  }

  predicate IsAlnum(c: char) {
    IsAlpha(c) || IsDigit(c)
  }

  predicate IsPrint(c: char) {
    ' ' <= c <= '~'
  }

  /** The buffer holds the C string `s` at offset `p`, terminator included. */
  predicate CStringAt(buf: array<char>, p: nat, s: string)
    reads buf
  {
    && p + |s| < buf.Length
    && (forall i :: 0 <= i < |s| ==> buf[p + i] == s[i])
    && buf[p + |s|] == NUL
    && NulFree(s)
  }

  /** A C string survives writes past its terminator. */
  lemma CStringKept(buf: array<char>, was: seq<char>, p: nat, s: string, bound: nat)
    requires p + |s| < bound <= |was| == buf.Length && NulFree(s)
    requires (forall i :: 0 <= i < |s| ==> was[p + i] == s[i]) && was[p + |s|] == NUL
    requires forall m :: 0 <= m < bound ==> buf[m] == was[m]
    ensures CStringAt(buf, p, s)
  {
  }

  lemma SliceIsCString(buf: array<char>, s: string)
    requires |s| < buf.Length && buf[..|s|] == s && buf[|s|] == NUL && NulFree(s)
    ensures CStringAt(buf, 0, s)
  {
    assert forall i :: 0 <= i < |s| ==> buf[i] == buf[..|s|][i];
  }

  lemma Regroup<T>(a: seq<T>, b: seq<T>, c: seq<T>)
    ensures a + (b + c) == (a + b) + c
  {
  }

  /** Reads the C string at `p`, as strlen and strdup do. */
  method ReadCString(buf: array<char>, p: nat, ghost expected: string) returns (s: string)
    requires CStringAt(buf, p, expected)
    ensures s == expected
  {
    assert forall k :: p <= k < p + |expected| ==> buf[k] == expected[k - p] != NUL;
    var i := p;
    while buf[i] != NUL
      invariant p <= i <= p + |expected|
      decreases buf.Length - i
    {
      i := i + 1;
    }
    s := buf[p..i];
  }
}
