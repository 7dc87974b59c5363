/** The column layout of `.tables`. */
module TablesLayout {
  import opened CText
  import opened SqlQuoting

  // ----- Sizes -----

  function MaxLen(names: seq<string>): (m: nat)
    ensures forall k :: 0 <= k < |names| ==> |names[k]| <= m
    ensures names != [] ==> exists k :: 0 <= k < |names| && |names[k]| == m
  {
    if names == [] then 0
    else
      var m := MaxLen(names[..|names| - 1]);
      var last := names[|names| - 1];
      if |last| > m || |names| == 1 then |last| else
        var k :| 0 <= k < |names| - 1 && |names[..|names| - 1][k]| == m;
        assert |names[k]| == m;
        m
  }

  function PrintCols(maxlen: nat): (c: nat)
    ensures c >= 1
    ensures c > 1 ==> c * (maxlen + 2) <= 80
    ensures (c + 1) * (maxlen + 2) > 80
  {
    var c := 80 / (maxlen + 2);
    DivisionBelow(80, maxlen + 2);
    if c < 1 then 1 else c
  }

  lemma DivisionBelow(n: nat, d: nat)
    requires d > 0
    ensures n / d * d <= n < (n / d + 1) * d
  {
  }

  lemma DivisionIsQuotient(n: nat, d: nat, q: nat, r: nat)
    requires d > 0 && q == n / d && r == n % d
    ensures n == q * d + r && r < d
  {
  }

  lemma TimesMonotone(a: nat, b: nat, c: nat)
    requires a <= b
    ensures a * c <= b * c
  {
  }

  function PrintRows(n: nat, cols: nat): nat
    requires cols >= 1
  {
    (n + cols - 1) / cols
  }

  // ----- The text -----

  function Spaces(n: nat): (s: string)
    ensures |s| == n && forall i :: 0 <= i < n ==> s[i] == ' '
  {
    seq(n, _ => ' ')
  }

  /** `%-*s`. */
  function Pad(s: string, width: nat): (p: string)
    ensures |p| == if |s| < width then width else |s|
    ensures p[..|s|] == s && forall i :: |s| <= i < |p| ==> p[i] == ' '
  {
    if |s| < width then s + Spaces(width - |s|) else s
  }

  function CellText(names: seq<string>, j: nat, rows: nat, maxlen: nat): string
    requires j < |names|
  {
    (if j < rows then "" else "  ") + Pad(names[j], maxlen)
  }

  /** The inner loop from index `j` on. */
  function LineFrom(names: seq<string>, j: nat, rows: nat, maxlen: nat): string
    requires rows >= 1
    decreases |names| - j
  {
    if j >= |names| then "" else CellText(names, j, rows, maxlen) + LineFrom(names, j + rows, rows, maxlen)
  }

  /** The outer loop from line `i` on. */
  function LinesFrom(names: seq<string>, i: nat, rows: nat, maxlen: nat): string
    requires rows >= 1 && i <= rows
    decreases rows - i
  {
    if i == rows then "" else LineFrom(names, i, rows, maxlen) + "\n" + LinesFrom(names, i + 1, rows, maxlen)
  }

  method PrintTables(out: OutFile, azResult: seq<string>)
    modifies out
    ensures azResult == [] ==> out.text == old(out.text)
    ensures azResult != [] ==>
      var maxlen := MaxLen(azResult);
      out.text == old(out.text) + LinesFrom(azResult, 0, LineCount(azResult), maxlen)
  {
    hide PrintRows, PrintCols, MaxLen, LinesFrom, LineCount;
    var nRow := |azResult|;
    if nRow > 0 {
      var maxlen := Widest(azResult);
      var nPrintCol := Columns(maxlen);
      var nPrintRow := Lines(nRow, nPrintCol);
      PrintLines(out, azResult, nPrintRow, maxlen);
    }
  }

  method Widest(azResult: seq<string>) returns (maxlen: nat)
    ensures maxlen == MaxLen(azResult)
  {
    hide MaxLen;
    maxlen := 0;
    MaxLenNone();
    for i := 0 to |azResult|
      invariant maxlen == MaxLen(azResult[..i])
    {
      var len := |azResult[i]|;
      MaxLenStep(azResult, i);
      if len > maxlen { maxlen := len; }
    }
    assert azResult[..|azResult|] == azResult;
  }

  method Columns(maxlen: nat) returns (nPrintCol: nat)
    ensures nPrintCol == PrintCols(maxlen)
  {
    nPrintCol := 80 / (maxlen + 2);
    if nPrintCol < 1 { nPrintCol := 1; }
  }

  method Lines(nRow: nat, nPrintCol: nat) returns (nPrintRow: nat)
    requires nRow >= 1 && nPrintCol >= 1
    ensures nPrintRow == PrintRows(nRow, nPrintCol) >= 1
  {
    nPrintRow := (nRow + nPrintCol - 1) / nPrintCol;
    RowsCover(nRow, nPrintCol, nPrintRow);
  }

  lemma MaxLenNone()
    ensures MaxLen([]) == 0
  {
  }

  lemma MaxLenStep(names: seq<string>, i: nat)
    requires i < |names|
    ensures MaxLen(names[..i + 1]) == if |names[i]| > MaxLen(names[..i]) then |names[i]| else MaxLen(names[..i])
  {
    assert names[..i + 1][..i] == names[..i];
  }

  lemma RowsCover(n: nat, cols: nat, rows: nat)
    requires n >= 1 && cols >= 1 && rows == PrintRows(n, cols)
    ensures (rows - 1) * cols < n <= rows * cols && 1 <= rows <= n
  {
    assert (rows - 1) * cols == rows * cols - cols;
    DivisionIsQuotient(n + cols - 1, cols, rows, (n + cols - 1) % cols);
    if n < rows { ProductLarge(n, cols, rows); }
  }

  lemma ProductLarge(n: nat, cols: nat, rows: nat)
    requires n < rows && cols >= 1
    ensures rows * cols >= n + cols
  {
    TimesMonotone(n + 1, rows, cols);
    TimesMonotone(1, cols, n);
    assert (n + 1) * cols == n * cols + cols;
    assert cols * n == n * cols;
  }

  method PrintLines(out: OutFile, names: seq<string>, rows: nat, maxlen: nat)
    requires rows >= 1
    modifies out
    ensures out.text == old(out.text) + LinesFrom(names, 0, rows, maxlen)
  {
    hide LinesFrom, LineFrom;
    ghost var done := "";
    for i := 0 to rows
      invariant out.text == old(out.text) + done
      invariant done + LinesFrom(names, i, rows, maxlen) == "" + LinesFrom(names, 0, rows, maxlen)
    {
      done := LineTurn(names, i, rows, maxlen, done);
      PrintLine(out, names, i, rows, maxlen);
      out.Print("\n");
    }
    LinesEnd(names, rows, maxlen, done);
  }

  lemma LineTurn(names: seq<string>, i: nat, rows: nat, maxlen: nat, done: string) returns (next: string)
    requires i < rows
    ensures next == done + LineFrom(names, i, rows, maxlen) + "\n"
    ensures next + LinesFrom(names, i + 1, rows, maxlen) == done + LinesFrom(names, i, rows, maxlen)
  {
    hide LineFrom;
    next := done + LineFrom(names, i, rows, maxlen) + "\n";
    Regroup(done, LineFrom(names, i, rows, maxlen), "\n");
    Regroup(done, LineFrom(names, i, rows, maxlen) + "\n", LinesFrom(names, i + 1, rows, maxlen));
  }

  lemma LinesEnd(names: seq<string>, rows: nat, maxlen: nat, done: string)
    requires rows >= 1
    ensures done + LinesFrom(names, rows, rows, maxlen) == done
  {
  }

  method PrintLine(out: OutFile, names: seq<string>, i: nat, rows: nat, maxlen: nat)
    requires rows >= 1
    modifies out
    ensures out.text == old(out.text) + LineFrom(names, i, rows, maxlen)
  {
    hide LineFrom, Pad;
    ghost var done := "";
    var j := i;
    while j < |names|
      invariant out.text == old(out.text) + done
      invariant done + LineFrom(names, j, rows, maxlen) == LineFrom(names, i, rows, maxlen)
    {
      done := CellTurn(names, j, rows, maxlen, done);
      var zSp := if j < rows then "" else "  ";
      out.Print(zSp + Pad(names[j], maxlen));
      j := j + rows;
    }
    LineEnds(names, j, rows, maxlen, done);
  }

  lemma CellTurn(names: seq<string>, j: nat, rows: nat, maxlen: nat, done: string) returns (next: string)
    requires rows >= 1 && j < |names|
    ensures next == done + CellText(names, j, rows, maxlen)
    ensures next + LineFrom(names, j + rows, rows, maxlen) == done + LineFrom(names, j, rows, maxlen)
  {
    hide CellText;
    next := done + CellText(names, j, rows, maxlen);
    Regroup(done, CellText(names, j, rows, maxlen), LineFrom(names, j + rows, rows, maxlen));
  }

  lemma LineEnds(names: seq<string>, j: nat, rows: nat, maxlen: nat, done: string)
    requires rows >= 1 && j >= |names|
    ensures done + LineFrom(names, j, rows, maxlen) == done
  {
  }

  // ----- Where each name ends up -----

  /** How many cells line `i` has from index `j` on. */
  function CellsFrom(n: nat, j: nat, rows: nat): nat
    requires rows >= 1
    decreases n - j
  {
    if j >= n then 0 else 1 + CellsFrom(n, j + rows, rows)
  }

  /** Line `i` holds exactly the indices i, i + rows, i + 2 rows, ... below n. */
  lemma {:induction false} CellCount(n: nat, j: nat, rows: nat, k: nat)
    requires rows >= 1
    ensures k < CellsFrom(n, j, rows) <==> j + k * rows < n
    decreases n - j
  {
    if j < n && k > 0 {
      CellCount(n, j + rows, rows, k - 1);
      assert (k - 1) * rows + rows == k * rows;
    }
  }

  /** `k` steps of `w`, without multiplication. */
  function Steps(k: nat, w: nat): nat {
    if k == 0 then 0 else Steps(k - 1, w) + w
  }

  lemma {:induction false} StepsIsTimes(k: nat, w: nat)
    ensures Steps(k, w) == k * w
  {
    if k > 0 {
      StepsIsTimes(k - 1, w);
      assert (k - 1) * w + w == k * w;
    }
  }

  /** Cells of one line stand at fixed offsets, two blanks apart. */
  lemma {:induction false} CellOffset(names: seq<string>, j: nat, rows: nat, maxlen: nat, k: nat)
    requires rows >= 1 && j + Steps(k, rows) < |names| && rows <= j
    requires forall m :: 0 <= m < |names| ==> |names[m]| <= maxlen
    ensures var line := LineFrom(names, j, rows, maxlen);
            var at := Steps(k, maxlen + 2) + 2;
            at + maxlen <= |line| && line[at..at + maxlen] == Pad(names[j + Steps(k, rows)], maxlen)
    decreases k
  {
    hide Pad, CellText, LineFrom;
    var rest := LineFrom(names, j + rows, rows, maxlen);
    var cell := CellText(names, j, rows, maxlen);
    CellShape(names, j, rows, maxlen);
    LineUnfold(names, j, rows, maxlen);
    if k == 0 {
      assert (cell + rest)[2..2 + maxlen] == cell[2..];
    } else {
      CellOffset(names, j + rows, rows, maxlen, k - 1);
      var at := Steps(k - 1, maxlen + 2) + 2;
      LaterSlice(cell, rest, at, maxlen);
    }
  }

  lemma CellShape(names: seq<string>, j: nat, rows: nat, maxlen: nat)
    requires rows <= j < |names| && forall m :: 0 <= m < |names| ==> |names[m]| <= maxlen
    ensures |CellText(names, j, rows, maxlen)| == maxlen + 2
    ensures CellText(names, j, rows, maxlen)[..2] == "  "
    ensures CellText(names, j, rows, maxlen)[2..] == Pad(names[j], maxlen)
  {
    hide Pad;
    PadWidth(names, j, maxlen);
  }

  lemma PadWidth(names: seq<string>, j: nat, maxlen: nat)
    requires j < |names| && forall m :: 0 <= m < |names| ==> |names[m]| <= maxlen
    ensures |Pad(names[j], maxlen)| == maxlen
  {
  }

  lemma LineUnfold(names: seq<string>, j: nat, rows: nat, maxlen: nat)
    requires rows >= 1 && j < |names|
    ensures LineFrom(names, j, rows, maxlen)
         == CellText(names, j, rows, maxlen) + LineFrom(names, j + rows, rows, maxlen)
  {
  }

  lemma LaterSlice(cell: string, rest: string, at: nat, n: nat)
    requires at + n <= |rest|
    ensures (cell + rest)[at + |cell|..at + |cell| + n] == rest[at..at + n]
  {
  }

  lemma {:induction false} LineWidth(names: seq<string>, j: nat, rows: nat, maxlen: nat)
    requires rows >= 1
    requires forall m :: 0 <= m < |names| ==> |names[m]| <= maxlen
    ensures var cells := CellsFrom(|names|, j, rows);
            |LineFrom(names, j, rows, maxlen)| + (if j < rows && j < |names| then 2 else 0) == cells * (maxlen + 2)
    decreases |names| - j
  {
    if j < |names| {
      LineWidth(names, j + rows, rows, maxlen);
      assert (CellsFrom(|names|, j + rows, rows) + 1) * (maxlen + 2)
          == CellsFrom(|names|, j + rows, rows) * (maxlen + 2) + (maxlen + 2);
    }
  }

  /** Column-major order: the line of index `j`, and the offset of its name there. */
  function LineNo(j: nat, rows: nat): nat
    requires rows >= 1
  {
    j % rows
  }

  function NameAt(j: nat, rows: nat, maxlen: nat): nat
    requires rows >= 1
  {
    j / rows * (maxlen + 2)
  }

  predicate Placed(names: seq<string>, j: nat, rows: nat, maxlen: nat)
    requires rows >= 1 && j < |names|
  {
    var line := LineFrom(names, LineNo(j, rows), rows, maxlen);
    var at := NameAt(j, rows, maxlen);
    at + maxlen <= |line| && line[at..at + maxlen] == Pad(names[j], maxlen)
  }

  /** How many lines a list of names takes. */
  function LineCount(names: seq<string>): (rows: nat)
    requires names != []
    ensures rows == PrintRows(|names|, PrintCols(MaxLen(names))) && 1 <= rows <= |names|
  {
    hide PrintCols, MaxLen;
    RowsCover(|names|, PrintCols(MaxLen(names)), PrintRows(|names|, PrintCols(MaxLen(names))));
    PrintRows(|names|, PrintCols(MaxLen(names)))
  }

  /** Every name is placed in column-major order. */
  lemma NamePlaced(names: seq<string>, j: nat)
    requires j < |names|
    ensures Placed(names, j, LineCount(names), MaxLen(names))
  {
    hide Pad, LineFrom, PrintRows, PrintCols, MaxLen, Steps, LineCount, LineNo, NameAt;
    var maxlen, rows := MaxLen(names), LineCount(names);
    var k := QuotientSteps(j, rows, maxlen);
    PlacedInLine(names, LineNo(j, rows), rows, maxlen, k);
  }

  lemma QuotientSteps(j: nat, rows: nat, maxlen: nat) returns (k: nat)
    requires rows >= 1
    ensures j == LineNo(j, rows) + Steps(k, rows) && LineNo(j, rows) < rows
    ensures NameAt(j, rows, maxlen) == Steps(k, maxlen + 2)
  {
    k := j / rows;
    DivisionIsQuotient(j, rows, k, j % rows);
    StepsIsTimes(k, rows);
    StepsIsTimes(k, maxlen + 2);
  }

  lemma PlacedInLine(names: seq<string>, i: nat, rows: nat, maxlen: nat, k: nat)
    requires i < rows && i + Steps(k, rows) < |names|
    requires forall m :: 0 <= m < |names| ==> |names[m]| <= maxlen
    ensures var line := LineFrom(names, i, rows, maxlen);
            var at := Steps(k, maxlen + 2);
            at + maxlen <= |line| && line[at..at + maxlen] == Pad(names[i + Steps(k, rows)], maxlen)
  {
    hide Pad, LineFrom;
    var cell := CellText(names, i, rows, maxlen);
    var rest := LineFrom(names, i + rows, rows, maxlen);
    PadWidth(names, i, maxlen);
    LineUnfold(names, i, rows, maxlen);
    if k == 0 {
      assert (cell + rest)[0..maxlen] == cell;
    } else {
      CellOffset(names, i + rows, rows, maxlen, k - 1);
      LaterSlice(cell, rest, Steps(k - 1, maxlen + 2) + 2, maxlen);
    }
  }

  /** The number of indices a line holds is at most the number of columns, and the line fits in 78 characters
      unless a name alone takes more. */
  lemma LineFits(names: seq<string>, i: nat)
    requires names != [] && i < LineCount(names)
    ensures 1 <= CellsFrom(|names|, i, LineCount(names)) <= PrintCols(MaxLen(names))
    ensures var width := |LineFrom(names, i, LineCount(names), MaxLen(names))|;
            if MaxLen(names) + 2 <= 80 then width <= 78 else CellsFrom(|names|, i, LineCount(names)) == 1
  {
    hide LineFrom, PrintRows, PrintCols, MaxLen, CellsFrom, LineCount;
    var n, maxlen, rows := |names|, MaxLen(names), LineCount(names);
    var cols := PrintCols(maxlen);
    RowsCover(n, cols, rows);
    var cells := CellsFrom(n, i, rows);
    assert cols * rows == rows * cols;
    CellCount(n, i, rows, cols);
    CellCount(n, i, rows, 0);
    LineWidth(names, i, rows, maxlen);
    TimesMonotone(cells, cols, maxlen + 2);
    ColsFit(maxlen, cols);
  }

  lemma ColsFit(maxlen: nat, cols: nat)
    requires cols == PrintCols(maxlen)
    ensures if maxlen + 2 <= 80 then cols * (maxlen + 2) <= 80 else cols == 1
  {
    DivisionBelow(80, maxlen + 2);
    if maxlen + 2 > 80 { assert 80 / (maxlen + 2) == 0; }
  }

  // ----- Each name is printed exactly once -----

  /** The indices line `j` goes through. */
  function LineIndices(n: nat, j: nat, rows: nat): seq<nat>
    requires rows >= 1
    decreases n - j
  {
    if j >= n then [] else [j] + LineIndices(n, j + rows, rows)
  }

  /** The indices in printing order, from line `i` on. */
  function PrintOrder(n: nat, i: nat, rows: nat): seq<nat>
    requires rows >= 1 && i <= rows
    decreases rows - i
  {
    if i == rows then [] else LineIndices(n, i, rows) + PrintOrder(n, i + 1, rows)
  }

  function Cells(names: seq<string>, indices: seq<nat>, rows: nat, maxlen: nat): string
    requires forall k :: 0 <= k < |indices| ==> indices[k] < |names|
  {
    if indices == [] then "" else CellText(names, indices[0], rows, maxlen) + Cells(names, indices[1..], rows, maxlen)
  }

  /** The text of a line is the cells of its indices. */
  lemma {:induction false} LineShowsIndices(names: seq<string>, j: nat, rows: nat, maxlen: nat)
    requires rows >= 1
    ensures var indices := LineIndices(|names|, j, rows);
            && (forall k :: 0 <= k < |indices| ==> indices[k] < |names|)
            && LineFrom(names, j, rows, maxlen) == Cells(names, indices, rows, maxlen)
    decreases |names| - j
  {
    hide CellText;
    if j < |names| {
      LineShowsIndices(names, j + rows, rows, maxlen);
      assert LineIndices(|names|, j, rows)[1..] == LineIndices(|names|, j + rows, rows);
    }
  }

  /** `x` is a number of whole steps behind `j`. */
  predicate Behind(x: nat, j: nat, rows: nat)
    requires rows >= 1
  {
    j <= x && (x - j) % rows == 0
  }

  lemma BehindStep(x: nat, j: nat, rows: nat)
    requires rows >= 1
    ensures Behind(x, j, rows) <==> x == j || Behind(x, j + rows, rows)
  {
    if x >= j + rows {
      assert (x - j) == (x - j - rows) + rows;
      ModShift(x - j - rows, rows);
    } else if x > j {
      ModSmall(x - j, rows);
    }
  }

  lemma ModShift(a: nat, d: nat)
    requires d >= 1
    ensures (a + d) % d == a % d
  {
    assert a + d == a / d * d + d + a % d == (a / d + 1) * d + a % d;
    ModUnique(a + d, a / d + 1, a % d, d);
  }

  lemma ModSmall(a: nat, d: nat)
    requires a < d
    ensures a % d == a
  {
  }

  lemma ModUnique(a: nat, q: nat, r: nat, d: nat)
    requires d >= 1 && a == q * d + r && r < d
    ensures a % d == r
  {
    var p := a / d;
    assert a == p * d + a % d;
    if p < q {
      TimesMonotone(p + 1, q, d);
    } else if p > q {
      TimesMonotone(q + 1, p, d);
    }
  }

  lemma {:induction false} OnceInLine(n: nat, j: nat, rows: nat, x: nat)
    requires rows >= 1
    ensures multiset(LineIndices(n, j, rows))[x] == if x < n && Behind(x, j, rows) then 1 else 0
    decreases n - j
  {
    hide Behind, LineIndices;
    IndicesUnfold(n, j, rows);
    NotBefore(x, j, rows);
    if j < n {
      BehindStep(x, j, rows);
      NotBefore(x, j + rows, rows);
      OnceInLine(n, j + rows, rows, x);
      OneMore(j, LineIndices(n, j + rows, rows), x);
    }
  }

  lemma IndicesUnfold(n: nat, j: nat, rows: nat)
    requires rows >= 1
    ensures LineIndices(n, j, rows) == if j >= n then [] else [j] + LineIndices(n, j + rows, rows)
  {
  }

  lemma OneMore(j: nat, rest: seq<nat>, x: nat)
    ensures multiset([j] + rest)[x] == multiset(rest)[x] + if x == j then 1 else 0
  {
  }

  lemma NotBefore(x: nat, j: nat, rows: nat)
    requires rows >= 1
    ensures Behind(x, j, rows) ==> j <= x
  {
  }

  /** Within the first step, being behind a line's first index means being on that line. */
  lemma BehindIsRemainder(x: nat, i: nat, rows: nat)
    requires i < rows
    ensures Behind(x, i, rows) <==> x % rows == i
  {
    if i <= x && (x - i) % rows == 0 {
      var q := (x - i) / rows;
      assert x == q * rows + i;
      ModUnique(x, q, i, rows);
    }
    if x % rows == i {
      var q := x / rows;
      assert x - i == q * rows + 0;
      ModUnique(x - i, q, 0, rows);
    }
  }

  lemma OrderUnfold(n: nat, i: nat, rows: nat, x: nat)
    requires i < rows
    ensures multiset(PrintOrder(n, i, rows))[x]
         == multiset(LineIndices(n, i, rows))[x] + multiset(PrintOrder(n, i + 1, rows))[x]
  {
    hide LineIndices;
  }

  lemma OrderEnds(n: nat, rows: nat, x: nat)
    requires rows >= 1
    ensures multiset(PrintOrder(n, rows, rows))[x] == 0 && x % rows < rows
  {
  }

  lemma {:induction false} OnceFrom(n: nat, i: nat, rows: nat, x: nat)
    requires rows >= 1 && i <= rows
    ensures multiset(PrintOrder(n, i, rows))[x] == if x < n && x % rows >= i then 1 else 0
    decreases rows - i
  {
    hide Behind, LineIndices, PrintOrder;
    if i < rows {
      OrderUnfold(n, i, rows, x);
      OnceInLine(n, i, rows, x);
      BehindIsRemainder(x, i, rows);
      OnceFrom(n, i + 1, rows, x);
    } else {
      OrderEnds(n, rows, x);
    }
  }

  /** The double loop goes through every index below `n` exactly once, and through no other. */
  lemma EachPrintedOnce(n: nat, rows: nat, x: nat)
    requires rows >= 1
    ensures multiset(PrintOrder(n, 0, rows))[x] == if x < n then 1 else 0
  {
    OnceFrom(n, 0, rows, x);
  }
}
