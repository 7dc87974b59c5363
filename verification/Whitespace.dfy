/** `_all_whitespace`: blanks and SQL comments, against a grammar of pieces. */
module Whitespace {
  import opened CText

  // ----- The grammar -----

  /** A closed block comment: the first star-slash after the opening is at its end. */
  predicate BlockComment(p: string) {
    && |p| >= 4 && "/*" <= p
    && CloseAt(p, |p| - 2)
    && forall i :: 2 <= i < |p| - 2 ==> !CloseAt(p, i)
  }

  predicate CloseAt(p: string, i: nat) {
    i + 1 < |p| && p[i] == '*' && p[i + 1] == '/'
  }

  predicate OpenLineComment(p: string) {
    "--" <= p && forall i :: 2 <= i < |p| ==> p[i] != LF
  }

  predicate LineComment(p: string) {
    p != "" && p[|p| - 1] == LF && OpenLineComment(p[..|p| - 1])
  }

  predicate Piece(p: string) {
    (|p| == 1 && IsSpace(p[0])) || BlockComment(p) || LineComment(p)
  }

  function Joined(pieces: seq<string>): string {
    if pieces == [] then "" else pieces[0] + Joined(pieces[1..])
  }

  /** Pieces only; a line comment may also be left open by the end of the text. */
  predicate BlankPieces(pieces: seq<string>) {
    && (forall k :: 0 <= k < |pieces| - 1 ==> Piece(pieces[k]))
    && (pieces != [] ==> Piece(pieces[|pieces| - 1]) || OpenLineComment(pieces[|pieces| - 1]))
  }

  ghost predicate BlankText(z: string) {
    exists pieces: seq<string> :: z == Joined(pieces) && BlankPieces(pieces)
  }

  // ----- The scan -----

  function FindClose(z: string, i: nat): (e: nat)
    requires i <= |z|
    ensures i <= e <= |z| && (e < |z| ==> CloseAt(z, e))
    ensures forall k :: i <= k < e ==> !CloseAt(z, k)
    decreases |z| - i
  {
    if i == |z| || CloseAt(z, i) then i else FindClose(z, i + 1)
  }

  function FindNewline(z: string, i: nat): (e: nat)
    requires i <= |z|
    ensures i <= e <= |z| && (e < |z| ==> z[e] == LF)
    ensures forall k :: i <= k < e ==> z[k] != LF
    decreases |z| - i
  {
    if i == |z| || z[i] == LF then i else FindNewline(z, i + 1)
  }

  /** How the scan leaves the first piece: past its end, or with the final answer. */
  datatype Turn = Go(next: nat) | Answer(blank: bool)

  function FirstPiece(z: string): (t: Turn)
    requires z != ""
    ensures t.Go? ==> 0 < t.next <= |z|
  {
    if IsSpace(z[0]) then Go(1)
    else if "/*" <= z then
      var e := FindClose(z, 2);
      if e == |z| then Answer(false) else Go(e + 2)
    else if "--" <= z then
      var e := FindNewline(z, 2);
      if e == |z| then Answer(true) else Go(e + 1)
    else Answer(false)
  }

  predicate AllBlank(z: string)
    decreases |z|
  {
    z == "" ||
    match FirstPiece(z)
    case Answer(b) => b
    case Go(n) => AllBlank(z[n..])
  }

  /** One turn of the outer loop: `stop` with the answer, or the index of the piece's last character. */
  method SkipPiece(s: string, i: nat) returns (last: nat, stop: bool, blank: bool)
    requires i < |s|
    ensures var t := FirstPiece(s[i..]);
            if stop then t == Answer(blank) else i <= last < |s| && t == Go(last + 1 - i)
  {
    ghost var t := s[i..];
    assert forall k :: 0 <= k < |t| ==> t[k] == s[i + k];
    var z := i;
    if IsSpace(s[z]) { return z, false, false; }
    if s[z] == '/' && z + 1 < |s| && s[z + 1] == '*' {
      assert "/*" <= t;
      z := z + 2;
      while z < |s| && (s[z] != '*' || !(z + 1 < |s| && s[z + 1] == '/'))
        invariant i + 2 <= z <= |s| && FindClose(t, 2) == FindClose(t, z - i)
        decreases |s| - z
      {
        z := z + 1;
      }
      if z == |s| { return z, true, false; }
      return z + 1, false, false;
    }
    if s[z] == '-' && z + 1 < |s| && s[z + 1] == '-' {
      assert "--" <= t;
      z := z + 2;
      while z < |s| && s[z] != LF
        invariant i + 2 <= z <= |s| && FindNewline(t, 2) == FindNewline(t, z - i)
        decreases |s| - z
      {
        z := z + 1;
      }
      if z == |s| { return z, true, true; }
      return z, false, false;
    }
    return z, true, false;
  }

  method AllWhitespace(z: string) returns (blank: bool)
    ensures blank <==> BlankText(z)
  {
    AllBlankIff(z);
    var i := 0;
    hide BlankText, FirstPiece;
    assert z[0..] == z;
    while i < |z|
      invariant i <= |z| && AllBlank(z) == AllBlank(z[i..])
      decreases |z| - i
    {
      var last, stop, answer := SkipPiece(z, i);
      if stop { return answer; }
      assert z[i..][last + 1 - i..] == z[last + 1..];
      i := last + 1;
    }
    blank := true;
  }

  // ----- The scan accepts exactly the grammar -----

  lemma AllBlankIff(z: string)
    ensures AllBlank(z) <==> BlankText(z)
  {
    if AllBlank(z) { var pieces := ScannedPieces(z); }
    if BlankText(z) {
      var pieces: seq<string> :| z == Joined(pieces) && BlankPieces(pieces);
      PiecesScan(pieces);
    }
  }

  /** What the scan steps over is a piece. */
  lemma FirstPieceIsPiece(z: string)
    requires z != "" && FirstPiece(z).Go?
    ensures Piece(z[..FirstPiece(z).next])
  {
    var n := FirstPiece(z).next;
    var p := z[..n];
    assert forall k :: 0 <= k < n ==> p[k] == z[k];
    if !IsSpace(z[0]) && "/*" <= z {
      assert forall i :: 2 <= i < n - 2 ==> !CloseAt(z, i) && CloseAt(p, i) == CloseAt(z, i);
      assert CloseAt(z, n - 2) && BlockComment(p);
    } else if !IsSpace(z[0]) {
      assert p[..n - 1] == z[..n - 1] && "--" <= z[..n - 1];
      assert LineComment(p);
    }
  }

  lemma {:induction false} ScannedPieces(z: string) returns (pieces: seq<string>)
    requires AllBlank(z)
    ensures z == Joined(pieces) && BlankPieces(pieces)
    decreases |z|
  {
    if z == "" {
      pieces := [];
    } else if FirstPiece(z).Answer? {
      assert Joined([z][1..]) == "";
      pieces := [z];
      assert OpenLineComment(z);
    } else {
      var n := FirstPiece(z).next;
      FirstPieceIsPiece(z);
      var rest := ScannedPieces(z[n..]);
      pieces := [z[..n]] + rest;
      assert pieces[1..] == rest;
      assert z == z[..n] + z[n..];
    }
  }

  lemma PieceScans(p: string, rest: string)
    requires Piece(p)
    ensures p != "" && FirstPiece(p + rest) == Go(|p|)
  {
    var z := p + rest;
    assert forall k :: 0 <= k < |p| ==> z[k] == p[k];
    if |p| == 1 && IsSpace(p[0]) {
    } else if BlockComment(p) {
      assert forall k :: 2 <= k < |p| - 2 ==> !CloseAt(p, k) && CloseAt(z, k) == CloseAt(p, k);
      assert CloseAt(z, |p| - 2);
      assert FindClose(z, 2) == |p| - 2;
    } else {
      assert p[..|p| - 1][0] == '-' && p[..|p| - 1][1] == '-';
      assert forall k :: 2 <= k < |p| - 1 ==> z[k] == p[..|p| - 1][k];
      assert FindNewline(z, 2) == |p| - 1;
    }
  }

  lemma {:induction false} PiecesScan(pieces: seq<string>)
    requires BlankPieces(pieces)
    ensures AllBlank(Joined(pieces))
  {
    hide FirstPiece, Piece, OpenLineComment;
    if pieces != [] {
      var p, rest := pieces[0], Joined(pieces[1..]);
      if Piece(p) {
        PieceScans(p, rest);
        assert (p + rest)[|p|..] == rest;
        PiecesScan(pieces[1..]);
      } else {
        assert |pieces| == 1 && p + rest == p;
        OpenCommentScans(p);
      }
    }
  }

  lemma OpenCommentScans(p: string)
    requires OpenLineComment(p)
    ensures p != "" && FirstPiece(p) == Answer(true)
  {
    assert p[0] == '-';
  }
}
