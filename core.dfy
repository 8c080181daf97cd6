/** The board model and the placement rule of the Queens region puzzle
    (src/core.py): reading a board from its text lines, validating it,
    collecting its region labels, and deciding whether a row-to-column
    assignment of queens is legal. */
module Core {
  import opened Wrappers

  /** A board as the source keeps it: `area[r][c]` is the region label of
      cell (r, c). */
  type Grid = seq<string>

  datatype Board = Board(n: nat, area: Grid)

  /** The `ValueError`s raised while reading and validating a board. */
  datatype BoardError =
    | EmptyInput                                 // no non-blank line
    | NotSquare(wrong: seq<(int, int)>)          // (row, length) of every row whose length is not the row count
    | NonPositiveSize(size: int)                 // n <= 0
    | AreaNotSquare                              // area is not n rows of n cells
    | BadCell(row: int, col: int, cell: char)    // first cell, row-major, that is not an uppercase letter
    | WrongLabelCount(size: int, found: set<char>) // the distinct labels are not exactly n

  // ---------------------------------------------------------------------
  // Line normalisation: `ln.strip().upper()`

  /** Python's `str.isspace` on one code point. */
  predicate IsSpace(ch: char)
  {
    var k := ch as int;
    (0x09 <= k <= 0x0D) || (0x1C <= k <= 0x20) || k == 0x85 || k == 0xA0 ||
    k == 0x1680 || (0x2000 <= k <= 0x200A) || k == 0x2028 || k == 0x2029 ||
    k == 0x202F || k == 0x205F || k == 0x3000
  }

  /** Drops leading whitespace. */
  function TrimLeft(s: string): string
    decreases |s|
  {
    if |s| > 0 && IsSpace(s[0]) then TrimLeft(s[1..]) else s
  }

  /** Drops trailing whitespace. */
  function TrimRight(s: string): string
    decreases |s|
  {
    if |s| > 0 && IsSpace(s[|s| - 1]) then TrimRight(s[..|s| - 1]) else s
  }

  /** `str.strip()`. */
  function Strip(s: string): string
  {
    TrimRight(TrimLeft(s))
  }

  /** TrimLeft removes a prefix of spaces and stops at a non-space. */
  lemma {:induction false} TrimLeftSpec(s: string)
    ensures var r := TrimLeft(s);
      |r| <= |s| && r == s[|s| - |r|..] &&
      (forall k :: 0 <= k < |s| - |r| ==> IsSpace(s[k])) &&
      (r != [] ==> !IsSpace(r[0]))
    decreases |s|
  {
    if |s| > 0 && IsSpace(s[0]) {
      TrimLeftSpec(s[1..]);
    }
  }

  /** TrimRight removes a suffix of spaces and stops at a non-space. */
  lemma {:induction false} TrimRightSpec(s: string)
    ensures var r := TrimRight(s);
      |r| <= |s| && r == s[..|r|] &&
      (forall k :: |r| <= k < |s| ==> IsSpace(s[k])) &&
      (r != [] ==> !IsSpace(r[|r| - 1]))
    decreases |s|
  {
    if |s| > 0 && IsSpace(s[|s| - 1]) {
      TrimRightSpec(s[..|s| - 1]);
    }
  }

  /** Strip(s) is the slice s[i..i + |Strip(s)|] for some offset i: it
      starts and ends with a non-space character, everything cut off on
      either side is space, and it is empty exactly when s is all space. */
  lemma StripSpec(s: string)
    ensures var r, i := Strip(s), |s| - |TrimLeft(s)|;
      0 <= i && i + |r| <= |s| && r == s[i..i + |r|] &&
      (forall k :: 0 <= k < i ==> IsSpace(s[k])) &&
      (forall k :: i + |r| <= k < |s| ==> IsSpace(s[k])) &&
      (r != [] ==> !IsSpace(r[0]) && !IsSpace(r[|r| - 1])) &&
      (r == [] <==> forall k :: 0 <= k < |s| ==> IsSpace(s[k]))
  {
    var t := TrimLeft(s);
    TrimLeftSpec(s);
    TrimRightSpec(t);
    var r := TrimRight(t);
    var i := |s| - |t|;
    assert r == s[i..i + |r|] by {
      assert t[..|r|] == s[i..][..|r|] == s[i..i + |r|];
    }
    forall k | i + |r| <= k < |s|
      ensures IsSpace(s[k])
    {
      assert s[k] == t[k - i];
    }
    if r != [] {
      assert s[i] == r[0];
    }
  }

  /** `str.upper()` on one character, restricted to ASCII. */
  function UpperChar(ch: char): char
  {
    if 'a' <= ch <= 'z' then (ch as int - 32) as char else ch
  }

  function Upper(s: string): string
  {
    seq(|s|, k requires 0 <= k < |s| => UpperChar(s[k]))
  }

  /** One raw line as the parser keeps it. */
  function NormalizeLine(s: string): string
  {
    Upper(Strip(s))
  }

  /** A line is dropped exactly when it is whitespace only. */
  lemma BlankLine(s: string)
    ensures NormalizeLine(s) == [] <==> forall k :: 0 <= k < |s| ==> IsSpace(s[k])
  {
    StripSpec(s);
    assert |NormalizeLine(s)| == |Strip(s)|;
  }

  /** Every raw line normalised, blank ones included. */
  function NormalizeAll(raw: seq<string>): (xs: seq<string>)
  {
    seq(|raw|, i requires 0 <= i < |raw| => NormalizeLine(raw[i]))
  }

  /** The non-blank strings among xs[..k], in order: what the parser's
      `lines` holds after k normalised lines. */
  function NonBlank(xs: seq<string>, k: nat): seq<string>
    requires k <= |xs|
  {
    if k == 0 then []
    else NonBlank(xs, k - 1) + (if xs[k - 1] != [] then [xs[k - 1]] else [])
  }

  /** The positions below k of the non-blank strings of xs. */
  function NonBlankIndices(xs: seq<string>, k: nat): seq<nat>
    requires k <= |xs|
  {
    if k == 0 then []
    else NonBlankIndices(xs, k - 1) + (if xs[k - 1] != [] then [k - 1] else [])
  }

  /** The parser's list of lines for a file's raw lines. */
  function NormalizedLines(raw: seq<string>): seq<string>
  {
    NonBlank(NormalizeAll(raw), |raw|)
  }

  /** Filtering keeps exactly the non-blank strings, in their original
      order: element j of the result is xs[NonBlankIndices(xs, k)[j]], and
      those positions increase strictly. */
  lemma {:induction false} NonBlankOrder(xs: seq<string>, k: nat)
    requires k <= |xs|
    ensures |NonBlankIndices(xs, k)| == |NonBlank(xs, k)|
    ensures forall j :: 0 <= j < |NonBlankIndices(xs, k)| ==>
      NonBlankIndices(xs, k)[j] < k &&
      NonBlank(xs, k)[j] == xs[NonBlankIndices(xs, k)[j]] &&
      NonBlank(xs, k)[j] != []
    ensures forall j1, j2 :: 0 <= j1 < j2 < |NonBlankIndices(xs, k)| ==>
      NonBlankIndices(xs, k)[j1] < NonBlankIndices(xs, k)[j2]
  {
    if k > 0 {
      NonBlankOrder(xs, k - 1);
    }
  }

  /** No non-blank string is dropped: position i is kept exactly when
      xs[i] is not blank. */
  lemma {:induction false} NonBlankKeepsAll(xs: seq<string>, k: nat)
    requires k <= |xs|
    ensures forall i :: 0 <= i < k ==> (xs[i] != [] <==> i in NonBlankIndices(xs, k))
  {
    if k > 0 {
      NonBlankKeepsAll(xs, k - 1);
      NonBlankOrder(xs, k - 1);
      assert k - 1 !in NonBlankIndices(xs, k - 1);
    }
  }

  /** The filtered list is empty exactly when every string is blank. */
  lemma {:induction false} NonBlankEmpty(xs: seq<string>, k: nat)
    requires k <= |xs|
    ensures NonBlank(xs, k) == [] <==> forall i :: 0 <= i < k ==> xs[i] == []
  {
    if k > 0 {
      NonBlankEmpty(xs, k - 1);
    }
  }

  /** The parser's lines are the file's non-blank lines, stripped and
      upper-cased, in file order: line j is raw line kept[j], the kept
      positions increase, and a raw line is kept exactly when it is not
      blank. */
  lemma NormalizedLinesOrder(raw: seq<string>)
    ensures var lines, kept := NormalizedLines(raw), NonBlankIndices(NormalizeAll(raw), |raw|);
      |kept| == |lines| &&
      (forall j :: 0 <= j < |kept| ==> kept[j] < |raw| && lines[j] == NormalizeLine(raw[kept[j]]) && lines[j] != []) &&
      (forall j1, j2 :: 0 <= j1 < j2 < |kept| ==> kept[j1] < kept[j2]) &&
      (forall i :: 0 <= i < |raw| ==> (NormalizeLine(raw[i]) != [] <==> i in kept))
  {
    var xs := NormalizeAll(raw);
    NonBlankOrder(xs, |raw|);
    NonBlankKeepsAll(xs, |raw|);
  }

  /** "Empty file" happens exactly when every character of every line is
      whitespace. */
  lemma NormalizedLinesEmpty(raw: seq<string>)
    ensures NormalizedLines(raw) == [] <==>
      forall i, k :: 0 <= i < |raw| && 0 <= k < |raw[i]| ==> IsSpace(raw[i][k])
  {
    var xs := NormalizeAll(raw);
    NonBlankEmpty(xs, |raw|);
    forall i | 0 <= i < |raw|
      ensures xs[i] == [] <==> forall k :: 0 <= k < |raw[i]| ==> IsSpace(raw[i][k])
    {
      BlankLine(raw[i]);
    }
  }

  // ---------------------------------------------------------------------
  // Board shape and labels

  /** A region label: `isalpha() and isupper()` of a single character,
      restricted to ASCII. */
  predicate IsLabel(ch: char)
  {
    'A' <= ch <= 'Z'
  }

  /** `len(area) == n` and every row has length n. */
  predicate IsSquare(n: int, area: Grid)
  {
    |area| == n && forall r :: 0 <= r < n ==> |area[r]| == n
  }

  /** `area[r][c]` exists for every r, c in range(n). */
  predicate Covers(n: int, area: Grid)
  {
    n <= |area| && forall r :: 0 <= r < n ==> n <= |area[r]|
  }

  /** The labels occurring in the top-left n-by-n part of `area`. */
  function Labels(n: int, area: Grid): set<char>
    requires Covers(n, area)
  {
    set r, c | 0 <= r < n && 0 <= c < n :: area[r][c]
  }

  /** Everything `validateBoard` demands. */
  predicate WellFormed(n: int, area: Grid)
  {
    n > 0 && IsSquare(n, area) &&
    (forall r, c :: 0 <= r < n && 0 <= c < n ==> IsLabel(area[r][c])) &&
    |Labels(n, area)| == n
  }

  /** `diffAreas`: the set filled by the nested loops over range(n). */
  method DiffAreas(n: int, area: Grid) returns (s: set<char>)
    requires Covers(n, area)
    ensures s == Labels(n, area)
    ensures forall ch :: ch in s <==> exists r, c :: 0 <= r < n && 0 <= c < n && area[r][c] == ch
  {
    s := {};
    var r := 0;
    while r < n
      invariant 0 <= r <= if n < 0 then 0 else n
      invariant s == set i, j | 0 <= i < r && 0 <= j < n :: area[i][j]
    {
      var c := 0;
      while c < n
        invariant 0 <= c <= n
        invariant s == (set i, j | 0 <= i < r && 0 <= j < n :: area[i][j]) +
                       (set j | 0 <= j < c :: area[r][j])
      {
        s := s + {area[r][c]};
        c := c + 1;
      }
      assert (set i, j | 0 <= i < r + 1 && 0 <= j < n :: area[i][j]) ==
             (set i, j | 0 <= i < r && 0 <= j < n :: area[i][j]) + (set j | 0 <= j < n :: area[r][j]);
      r := r + 1;
    }
  }

  // ---------------------------------------------------------------------
  // validateBoard

  /** The first column j >= c of `row` (below n) that is not a label, or n. */
  function FirstBadCol(row: string, n: int, c: int): (j: int)
    requires 0 <= c <= n <= |row|
    ensures c <= j <= n
    ensures j < n ==> !IsLabel(row[j])
    ensures forall k :: c <= k < j ==> IsLabel(row[k])
    decreases n - c
  {
    if c == n then n
    else if !IsLabel(row[c]) then c
    else FirstBadCol(row, n, c + 1)
  }

  /** The first cell, in row-major order from row r on, that is not a label. */
  function FirstBadCell(n: int, area: Grid, r: int): (cell: Option<(int, int)>)
    requires IsSquare(n, area) && 0 <= r <= n
    ensures cell.None? ==> forall i, j :: r <= i < n && 0 <= j < n ==> IsLabel(area[i][j])
    ensures cell.Some? ==>
      r <= cell.value.0 < n && 0 <= cell.value.1 < n &&
      !IsLabel(area[cell.value.0][cell.value.1]) &&
      (forall j :: 0 <= j < cell.value.1 ==> IsLabel(area[cell.value.0][j])) &&
      (forall i, j :: r <= i < cell.value.0 && 0 <= j < n ==> IsLabel(area[i][j]))
    decreases n - r
  {
    if r == n then None
    else
      var j := FirstBadCol(area[r], n, 0);
      if j < n then Some((r, j)) else FirstBadCell(n, area, r + 1)
  }

  /** What `validateBoard(n, area)` raises, checks taken in the source's
      order, or None when it returns normally. */
  function ValidationError(n: int, area: Grid): Option<BoardError>
  {
    if n <= 0 then Some(NonPositiveSize(n))
    else if !IsSquare(n, area) then Some(AreaNotSquare)
    else match FirstBadCell(n, area, 0)
      case Some((i, j)) => Some(BadCell(i, j, area[i][j]))
      case None =>
        if |Labels(n, area)| != n then Some(WrongLabelCount(n, Labels(n, area))) else None
  }

  /** `validateBoard` returns normally exactly on well-formed boards, and
      each error it raises names the first check that fails: the size,
      the shape, the first bad cell in row-major order, the label count. */
  lemma ValidationErrorSpec(n: int, area: Grid)
    ensures ValidationError(n, area).None? <==> WellFormed(n, area)
    ensures ValidationError(n, area) == Some(NonPositiveSize(n)) <==> n <= 0
    ensures ValidationError(n, area) == Some(AreaNotSquare) <==> n > 0 && !IsSquare(n, area)
    ensures var e := ValidationError(n, area);
      e.Some? && e.value.BadCell? ==>
      var (i, j) := (e.value.row, e.value.col);
      n > 0 && IsSquare(n, area) && 0 <= i < n && 0 <= j < n &&
      e.value.cell == area[i][j] && !IsLabel(area[i][j]) &&
      (forall i', j' :: 0 <= i' < n && 0 <= j' < n && (i' < i || (i' == i && j' < j)) ==>
         IsLabel(area[i'][j']))
    ensures var e := ValidationError(n, area);
      e.Some? && e.value.WrongLabelCount? ==>
      n > 0 && IsSquare(n, area) &&
      (forall i, j :: 0 <= i < n && 0 <= j < n ==> IsLabel(area[i][j])) &&
      e.value.found == Labels(n, area) && |Labels(n, area)| != n
    ensures var e := ValidationError(n, area);
      (e.Some? && e.value.BadCell?) <==>
      n > 0 && IsSquare(n, area) && exists i, j :: 0 <= i < n && 0 <= j < n && !IsLabel(area[i][j])
    ensures var e := ValidationError(n, area);
      (e.Some? && e.value.WrongLabelCount?) <==>
      n > 0 && IsSquare(n, area) &&
      (forall i, j :: 0 <= i < n && 0 <= j < n ==> IsLabel(area[i][j])) &&
      |Labels(n, area)| != n
  {
    if n > 0 && IsSquare(n, area) {
      var first := FirstBadCell(n, area, 0);
      if first.Some? {
        assert !IsLabel(area[first.value.0][first.value.1]);
      }
    }
  }

  /** `validateBoard`: nested checking loops, then `diffAreas`. */
  method ValidateBoard(n: int, area: Grid) returns (e: Option<BoardError>)
    ensures e == ValidationError(n, area)
  {
    if n <= 0 {
      return Some(NonPositiveSize(n));
    }
    if |area| != n {
      return Some(AreaNotSquare);
    }
    for r := 0 to n
      invariant forall i :: 0 <= i < r ==> |area[i]| == n
    {
      if |area[r]| != n {
        return Some(AreaNotSquare);
      }
    }
    for r := 0 to n
      invariant forall i, j :: 0 <= i < r && 0 <= j < n ==> IsLabel(area[i][j])
    {
      for c := 0 to n
        invariant forall j :: 0 <= j < c ==> IsLabel(area[r][j])
      {
        var cell := area[r][c];
        if !IsLabel(cell) {
          ghost var first := FirstBadCell(n, area, 0);
          assert first.Some?;
          assert first.value == (r, c);
          return Some(BadCell(r, c, cell));
        }
      }
    }
    var dif := DiffAreas(n, area);
    if |dif| != n {
      return Some(WrongLabelCount(n, dif));
    }
    return None;
  }

  // ---------------------------------------------------------------------
  // boardParser

  /** (row, length) of every line among the first k whose length differs
      from n, in order. */
  function WrongRows(lines: seq<string>, n: int, k: nat): seq<(int, int)>
    requires k <= |lines|
  {
    if k == 0 then []
    else WrongRows(lines, n, k - 1) + (if |lines[k - 1]| != n then [(k - 1, |lines[k - 1]|)] else [])
  }

  /** The list of wrong rows is empty exactly when all rows have length n;
      otherwise it lists each wrong row once, with its length, by
      increasing row. */
  lemma {:induction false} WrongRowsSpec(lines: seq<string>, n: int, k: nat)
    requires k <= |lines|
    ensures var w := WrongRows(lines, n, k);
      (w == [] <==> forall i :: 0 <= i < k ==> |lines[i]| == n) &&
      (forall j :: 0 <= j < |w| ==> 0 <= w[j].0 < k && w[j].1 == |lines[w[j].0]| && w[j].1 != n) &&
      (forall i :: 0 <= i < k && |lines[i]| != n ==> (i, |lines[i]|) in w) &&
      (forall j1, j2 :: 0 <= j1 < j2 < |w| ==> w[j1].0 < w[j2].0)
  {
    WrongRowsEmpty(lines, n, k);
    WrongRowsSound(lines, n, k);
    WrongRowsComplete(lines, n, k);
    WrongRowsOrdered(lines, n, k);
  }

  lemma {:induction false} WrongRowsEmpty(lines: seq<string>, n: int, k: nat)
    requires k <= |lines|
    ensures WrongRows(lines, n, k) == [] <==> forall i :: 0 <= i < k ==> |lines[i]| == n
  {
    if k > 0 {
      WrongRowsEmpty(lines, n, k - 1);
    }
  }

  lemma {:induction false} WrongRowsSound(lines: seq<string>, n: int, k: nat)
    requires k <= |lines|
    ensures forall j :: 0 <= j < |WrongRows(lines, n, k)| ==>
      var (i, len) := WrongRows(lines, n, k)[j]; 0 <= i < k && len == |lines[i]| && len != n
  {
    if k > 0 {
      WrongRowsSound(lines, n, k - 1);
    }
  }

  lemma {:induction false} WrongRowsComplete(lines: seq<string>, n: int, k: nat)
    requires k <= |lines|
    ensures forall i :: 0 <= i < k && |lines[i]| != n ==> (i, |lines[i]|) in WrongRows(lines, n, k)
  {
    if k > 0 {
      WrongRowsComplete(lines, n, k - 1);
    }
  }

  lemma {:induction false} WrongRowsOrdered(lines: seq<string>, n: int, k: nat)
    requires k <= |lines|
    ensures forall j1, j2 :: 0 <= j1 < j2 < |WrongRows(lines, n, k)| ==>
      WrongRows(lines, n, k)[j1].0 < WrongRows(lines, n, k)[j2].0
  {
    if k > 0 {
      WrongRowsOrdered(lines, n, k - 1);
      WrongRowsSound(lines, n, k - 1);
    }
  }

  /** What `boardParser` returns for the lines of a file, or what it raises. */
  function Parse(raw: seq<string>): Result<Board, BoardError>
  {
    var lines := NormalizedLines(raw);
    var n := |lines|;
    if lines == [] then Failure(EmptyInput)
    else if WrongRows(lines, n, n) != [] then Failure(NotSquare(WrongRows(lines, n, n)))
    else match ValidationError(n, lines)
      case Some(e) => Failure(e)
      case None => Success(Board(n, lines))
  }

  /** The parser fails with "Empty file" exactly when no line survives
      normalisation, lists every row of the wrong length when the lines
      are not square, and otherwise succeeds exactly on well-formed
      boards, returning n = the number of lines and the lines themselves. */
  lemma ParseSpec(raw: seq<string>)
    ensures var lines := NormalizedLines(raw);
      Parse(raw) == Failure(EmptyInput) <==> lines == []
    ensures var lines := NormalizedLines(raw);
      Parse(raw).Success? <==> lines != [] && WellFormed(|lines|, lines)
    ensures var lines := NormalizedLines(raw);
      Parse(raw).Success? ==> Parse(raw).value == Board(|lines|, lines)
    ensures var lines, res := NormalizedLines(raw), Parse(raw);
      res.Failure? && res.error.NotSquare? ==>
      lines != [] && res.error.wrong != [] &&
      (forall j :: 0 <= j < |res.error.wrong| ==>
        var (i, len) := res.error.wrong[j]; 0 <= i < |lines| && len == |lines[i]| != |lines|) &&
      (forall i :: 0 <= i < |lines| && |lines[i]| != |lines| ==> (i, |lines[i]|) in res.error.wrong)
    ensures var lines := NormalizedLines(raw);
      (Parse(raw).Failure? && Parse(raw).error.NotSquare?) <==>
      lines != [] && exists i :: 0 <= i < |lines| && |lines[i]| != |lines|
    ensures var lines := NormalizedLines(raw);
      lines != [] && IsSquare(|lines|, lines) ==>
      (Parse(raw).Failure? <==> ValidationError(|lines|, lines).Some?) &&
      (Parse(raw).Failure? ==> Parse(raw).error == ValidationError(|lines|, lines).value)
  {
    var lines := NormalizedLines(raw);
    WrongRowsSpec(lines, |lines|, |lines|);
    ValidationErrorSpec(|lines|, lines);
  }

  /** The reading loop of `boardParser`: strip and upper-case each line,
      append the non-blank ones to `lines`. */
  method ReadLines(raw: seq<string>) returns (lines: seq<string>)
    ensures lines == NormalizedLines(raw)
  {
    lines := [];
    ghost var xs := NormalizeAll(raw);
    for i := 0 to |raw|
      invariant lines == NonBlank(xs, i)
    {
      var ln := NormalizeLine(raw[i]);
      if ln != [] {
        lines := lines + [ln];
      }
    }
  }

  /** The square check of `boardParser`: the rows whose length is not n. */
  method FindWrongRows(lines: seq<string>, n: int) returns (wrong: seq<(int, int)>)
    ensures wrong == WrongRows(lines, n, |lines|)
  {
    wrong := [];
    for i := 0 to |lines|
      invariant wrong == WrongRows(lines, n, i)
    {
      if |lines[i]| != n {
        wrong := wrong + [(i, |lines[i]|)];
      }
    }
  }

  /** `boardParser`, over the lines of the file instead of its path. */
  method ParseBoard(raw: seq<string>) returns (res: Result<Board, BoardError>)
    ensures res == Parse(raw)
  {
    var lines := ReadLines(raw);
    if lines == [] {
      return Failure(EmptyInput);
    }
    var n := |lines|;
    var wrong := FindWrongRows(lines, n);
    if wrong != [] {
      return Failure(NotSquare(wrong));
    }
    var area := lines;
    var e := ValidateBoard(n, area);
    if e.Some? {
      return Failure(e.value);
    }
    return Success(Board(n, area));
  }

  // ---------------------------------------------------------------------
  // isValidMove

  function Abs(x: int): nat
  {
    if x < 0 then -x else x
  }

  /** The puzzle's rule for a complete assignment `cols` (row r holds its
      queen in column cols[r]): n columns, all on the board, no column
      twice, no region twice, and no two queens touching, diagonals
      included. */
  predicate ValidPlacement(cols: seq<int>, n: int, region: Grid)
    requires IsSquare(n, region)
  {
    |cols| == n &&
    (forall r :: 0 <= r < n ==> 0 <= cols[r] < n) &&
    (forall r1, r2 :: 0 <= r1 < r2 < n ==> cols[r1] != cols[r2]) &&
    (forall r1, r2 :: 0 <= r1 < r2 < n ==> region[r1][cols[r1]] != region[r2][cols[r2]]) &&
    (forall r1, r2 :: 0 <= r1 < r2 < n ==> !(r2 - r1 <= 1 && Abs(cols[r1] - cols[r2]) <= 1))
  }

  /** The column loop of `isValidMove`: every column in range(n), and the
      set `scols` never sees a column twice. */
  method ColumnsOk(cols: seq<int>, n: int) returns (ok: bool)
    requires |cols| == n
    ensures ok <==> (forall r :: 0 <= r < n ==> 0 <= cols[r] < n) &&
                    (forall r1, r2 :: 0 <= r1 < r2 < n ==> cols[r1] != cols[r2])
  {
    var scols: set<int> := {};
    for i := 0 to n
      invariant scols == set k | 0 <= k < i :: cols[k]
      invariant forall k :: 0 <= k < i ==> 0 <= cols[k] < n
      invariant forall k1, k2 :: 0 <= k1 < k2 < i ==> cols[k1] != cols[k2]
    {
      var c := cols[i];
      if c < 0 || c >= n {
        return false;
      }
      if c in scols {
        return false;
      }
      scols := scols + {c};
    }
    return true;
  }

  /** The region loop of `isValidMove`: the set `sareas` never sees a
      label twice. */
  method RegionsOk(cols: seq<int>, n: int, region: Grid) returns (ok: bool)
    requires IsSquare(n, region) && |cols| == n
    requires forall r :: 0 <= r < n ==> 0 <= cols[r] < n
    ensures ok <==> forall r1, r2 :: 0 <= r1 < r2 < n ==> region[r1][cols[r1]] != region[r2][cols[r2]]
  {
    var sareas: set<char> := {};
    for r := 0 to n
      invariant sareas == set k | 0 <= k < r :: region[k][cols[k]]
      invariant forall k1, k2 :: 0 <= k1 < k2 < r ==> region[k1][cols[k1]] != region[k2][cols[k2]]
    {
      var c := cols[r];
      var rid := region[r][c];
      if rid in sareas {
        return false;
      }
      sareas := sareas + {rid};
    }
    return true;
  }

  /** The pairwise loop of `isValidMove`: no pair of rows r1 < r2 at
      distance at most 1 holds columns at distance at most 1. */
  method NoneTouching(cols: seq<int>, n: int) returns (ok: bool)
    requires |cols| == n
    ensures ok <==> forall r1, r2 :: 0 <= r1 < r2 < n ==> !(r2 - r1 <= 1 && Abs(cols[r1] - cols[r2]) <= 1)
  {
    for r1 := 0 to n
      invariant forall a, b :: 0 <= a < r1 && a < b < n ==> !(b - a <= 1 && Abs(cols[a] - cols[b]) <= 1)
    {
      var c1 := cols[r1];
      for r2 := r1 + 1 to n
        invariant forall b :: r1 < b < r2 ==> !(b - r1 <= 1 && Abs(c1 - cols[b]) <= 1)
      {
        var c2 := cols[r2];
        if Abs(r1 - r2) <= 1 && Abs(c1 - c2) <= 1 {
          return false;
        }
      }
    }
    return true;
  }

  /** `isValidMove`: the length check, then its three loops in order, each
      with an early `return False`. */
  method IsValidMove(cols: seq<int>, n: int, region: Grid) returns (ok: bool)
    requires IsSquare(n, region)
    ensures ok == ValidPlacement(cols, n, region)
  {
    if |cols| != n {
      return false;
    }
    ok := ColumnsOk(cols, n);
    if !ok {
      return false;
    }
    ok := RegionsOk(cols, n, region);
    if !ok {
      return false;
    }
    ok := NoneTouching(cols, n);
  }

  /** Of all pairs of rows, only neighbouring rows can hold touching
      queens. */
  lemma TouchingOnlyInConsecutiveRows(cols: seq<int>, n: int)
    requires |cols| == n
    ensures (forall r1, r2 :: 0 <= r1 < r2 < n ==> !(r2 - r1 <= 1 && Abs(cols[r1] - cols[r2]) <= 1))
        <==> (forall r :: 0 <= r < n - 1 ==> Abs(cols[r] - cols[r + 1]) > 1)
  {
    if forall r :: 0 <= r < n - 1 ==> Abs(cols[r] - cols[r + 1]) > 1 {
      forall r1, r2 | 0 <= r1 < r2 < n && r2 - r1 <= 1
        ensures Abs(cols[r1] - cols[r2]) > 1
      {
        assert r2 == r1 + 1;
      }
    }
  }

  // ---------------------------------------------------------------------
  // What a legal placement means for a well-formed board

  /** A sequence without repeated elements has as many distinct elements
      as it is long. */
  lemma {:induction false} DistinctCard<T>(s: seq<T>)
    requires forall i, j :: 0 <= i < j < |s| ==> s[i] != s[j]
    ensures |set k | 0 <= k < |s| :: s[k]| == |s|
  {
    if s != [] {
      var init := s[..|s| - 1];
      DistinctCard(init);
      var a := set k | 0 <= k < |init| :: init[k];
      var b := set k | 0 <= k < |s| :: s[k];
      assert b == a + {s[|s| - 1]};
      assert s[|s| - 1] !in a;
    }
  }

  /** A subset as large as a finite set is that set. */
  lemma SubsetSameCard<T>(a: set<T>, b: set<T>)
    requires a <= b && |a| == |b|
    ensures a == b
  {
    if a != b {
      var x :| x in b && x !in a;
      assert a <= b - {x};
      assert |b - {x}| == |b| - 1;
      SubsetCardLe(a, b - {x});
    }
  }

  lemma {:induction false} SubsetCardLe<T>(a: set<T>, b: set<T>)
    requires a <= b
    ensures |a| <= |b|
    decreases |b|
  {
    if a != {} {
      var x :| x in a;
      SubsetCardLe(a - {x}, b - {x});
    }
  }

  /** The set {0, ..., n-1}. */
  function Range(n: nat): (s: set<int>)
    ensures forall x :: x in s <==> 0 <= x < n
    ensures |s| == n
  {
    if n == 0 then {} else Range(n - 1) + {n - 1}
  }

  /** On a well-formed board a legal placement is a real solution of the
      puzzle: every column and every region holds exactly one queen. */
  lemma LegalPlacementCoversEverything(cols: seq<int>, n: int, region: Grid)
    requires WellFormed(n, region) && ValidPlacement(cols, n, region)
    ensures forall c :: 0 <= c < n ==> c in cols
    ensures forall ch :: ch in Labels(n, region) ==> exists r :: 0 <= r < n && region[r][cols[r]] == ch
  {
    var used := seq(n, r requires 0 <= r < n => region[r][cols[r]]);
    DistinctCard(used);
    var usedSet := set k | 0 <= k < n :: used[k];
    assert usedSet <= Labels(n, region);
    SubsetSameCard(usedSet, Labels(n, region));
    forall ch | ch in Labels(n, region)
      ensures exists r :: 0 <= r < n && region[r][cols[r]] == ch
    {
      assert ch in usedSet;
      var k :| 0 <= k < n && used[k] == ch;
    }

    DistinctCard(cols);
    var colSet := set k | 0 <= k < n :: cols[k];
    assert colSet <= Range(n);
    SubsetSameCard(colSet, Range(n));
    forall c | 0 <= c < n
      ensures c in cols
    {
      assert c in colSet;
    }
  }
}
