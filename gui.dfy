/** The Tk-independent helpers of src/gui.py: the progress cadence
    `choose_update`, the label colouring `build_color_map`, and the
    region check `validate_board_or_raise` with its flood fill
    `is_connected`. */
module Gui {
  import opened Wrappers
  import Core

  // ---------------------------------------------------------------------
  // choose_update

  /** How many iterations pass between two live updates, by mode and
      board size; n is first clamped to be non-negative. */
  function ChooseUpdate(mode: string, n: int): (r: int)
    ensures r > 0
  {
    var m := if n < 0 then 0 else n;
    if mode == "fact" then
      if m <= 10 then 1_000
      else if m <= 14 then 5_000
      else if m <= 18 then 20_000
      else if m <= 22 then 50_000
      else 100_000
    else
      if m <= 7 then 10_000
      else if m <= 10 then 1_000_000
      else if m <= 14 then 500_000
      else 1_000_000
  }

  /** The cadence table, one size band at a time. */
  lemma ChooseUpdateTable(mode: string, n: int)
    ensures mode == "fact" ==>
      (n <= 10 ==> ChooseUpdate(mode, n) == 1_000) &&
      (10 < n <= 14 ==> ChooseUpdate(mode, n) == 5_000) &&
      (14 < n <= 18 ==> ChooseUpdate(mode, n) == 20_000) &&
      (18 < n <= 22 ==> ChooseUpdate(mode, n) == 50_000) &&
      (22 < n ==> ChooseUpdate(mode, n) == 100_000)
    ensures mode != "fact" ==>
      (n <= 7 ==> ChooseUpdate(mode, n) == 10_000) &&
      (7 < n <= 10 ==> ChooseUpdate(mode, n) == 1_000_000) &&
      (10 < n <= 14 ==> ChooseUpdate(mode, n) == 500_000) &&
      (14 < n ==> ChooseUpdate(mode, n) == 1_000_000)
  {
  }

  /** A negative size behaves as size 0. */
  lemma ChooseUpdateClamp(mode: string, n: int)
    requires n < 0
    ensures ChooseUpdate(mode, n) == ChooseUpdate(mode, 0)
  {
  }

  /** In mode "fact" larger boards never get a shorter cadence. */
  lemma ChooseUpdateFactMonotone(n: int, m: int)
    requires n <= m
    ensures ChooseUpdate("fact", n) <= ChooseUpdate("fact", m)
  {
  }

  // ---------------------------------------------------------------------
  // build_color_map

  const PastelPalette: seq<string> := [
    "#b7d7ff", "#c6f1d6", "#ffd8b5", "#e6c6ff", "#ffb7c5",
    "#fff3b0", "#b7ffd8", "#c7c7c7", "#d7c7b7", "#b0e0ff",
    "#d0ffb0", "#ffddb0", "#c0b0ff", "#b0ffd0", "#ffd0e6",
    "#d6f6f2", "#ffe7a3", "#cfe0ff", "#f6d6ff", "#d7f0b3",
    "#fddede", "#d9f0ff", "#f0d9ff", "#e3ffd9", "#fff0d9",
    "#d9fff6"
  ]

  /** The 26 palette colours are pairwise different. */
  lemma PaletteDistinct()
    ensures |PastelPalette| == 26
    ensures forall i, j :: 0 <= i < j < |PastelPalette| ==> PastelPalette[i] != PastelPalette[j]
  {
  }

  predicate StrictlySorted(l: seq<char>)
  {
    forall i, j :: 0 <= i < j < |l| ==> l[i] < l[j]
  }

  /** Insert x into a strictly sorted list, keeping it strictly sorted. */
  function Insert(x: char, l: seq<char>): seq<char>
  {
    if l == [] then [x]
    else if x < l[0] then [x] + l
    else if x == l[0] then l
    else [l[0]] + Insert(x, l[1..])
  }

  lemma {:induction false} InsertSpec(x: char, l: seq<char>)
    requires StrictlySorted(l)
    ensures StrictlySorted(Insert(x, l))
    ensures forall y :: y in Insert(x, l) <==> y == x || y in l
  {
    if l != [] && x > l[0] {
      InsertSpec(x, l[1..]);
      var t := Insert(x, l[1..]);
      assert forall y :: y in t ==> l[0] < y;
    }
  }

  /** `sorted(set(xs))`. */
  function SortDistinct(xs: seq<char>): seq<char>
  {
    if xs == [] then [] else Insert(xs[|xs| - 1], SortDistinct(xs[..|xs| - 1]))
  }

  lemma {:induction false} SortDistinctSpec(xs: seq<char>)
    ensures StrictlySorted(SortDistinct(xs))
    ensures forall y :: y in SortDistinct(xs) <==> y in xs
  {
    if xs != [] {
      var init := xs[..|xs| - 1];
      SortDistinctSpec(init);
      InsertSpec(xs[|xs| - 1], SortDistinct(init));
      assert xs == init + [xs[|xs| - 1]];
    }
  }

  /** Every cell of every row, row after row. */
  function Flatten(area: Core.Grid): string
  {
    if area == [] then [] else Flatten(area[..|area| - 1]) + area[|area| - 1]
  }

  lemma {:induction false} FlattenSpec(area: Core.Grid)
    ensures forall ch :: ch in Flatten(area) <==> exists r :: 0 <= r < |area| && ch in area[r]
  {
    if area != [] {
      var init := area[..|area| - 1];
      FlattenSpec(init);
      forall ch | ch in Flatten(area)
        ensures exists r :: 0 <= r < |area| && ch in area[r]
      {
        assert Flatten(area) == Flatten(init) + area[|area| - 1];
        if ch !in area[|area| - 1] {
          assert ch in Flatten(init);
          var r :| 0 <= r < |init| && ch in init[r];
          assert area[r] == init[r];
        }
      }
      forall ch | exists r :: 0 <= r < |area| && ch in area[r]
        ensures ch in Flatten(area)
      {
        var r :| 0 <= r < |area| && ch in area[r];
        assert Flatten(area) == Flatten(init) + area[|area| - 1];
        if r < |init| {
          assert init[r] == area[r];
          assert ch in Flatten(init);
        }
      }
    }
  }

  /** `sorted({ch for row in area for ch in row})`. */
  function SortedLetters(area: Core.Grid): seq<char>
  {
    SortDistinct(Flatten(area))
  }

  /** The sorted letters are strictly increasing and are exactly the
      characters of the board; on a square board they are its labels. */
  lemma SortedLettersSpec(area: Core.Grid)
    ensures StrictlySorted(SortedLetters(area))
    ensures forall ch :: ch in SortedLetters(area) <==> exists r :: 0 <= r < |area| && ch in area[r]
    ensures forall n :: Core.IsSquare(n, area) ==>
      forall ch :: ch in SortedLetters(area) <==> ch in Core.Labels(n, area)
  {
    SortDistinctSpec(Flatten(area));
    FlattenSpec(area);
    forall n, ch | Core.IsSquare(n, area)
      ensures ch in SortedLetters(area) <==> ch in Core.Labels(n, area)
    {
      if ch in SortedLetters(area) {
        var r :| 0 <= r < |area| && ch in area[r];
        var c :| 0 <= c < |area[r]| && area[r][c] == ch;
        assert ch in Core.Labels(n, area);
      }
      if ch in Core.Labels(n, area) {
        var r, c :| 0 <= r < n && 0 <= c < n && area[r][c] == ch;
        assert ch in area[r];
      }
    }
  }

  lemma LettersAreLabels(n: int, area: Core.Grid, letters: seq<char>, found: set<char>)
    requires Core.IsSquare(n, area) && letters == SortedLetters(area) && found == set ch | ch in letters
    ensures found == Core.Labels(n, area)
  {
    SortedLettersSpec(area);
  }

  /** Label i in sorted order gets palette colour i mod 26. */
  function BuildColorMap(area: Core.Grid): (m: map<char, string>)
    ensures forall ch :: ch in m <==> exists r :: 0 <= r < |area| && ch in area[r]
    ensures forall ch :: ch in m <==> ch in SortedLetters(area)
    ensures forall i :: 0 <= i < |SortedLetters(area)| ==>
      SortedLetters(area)[i] in m && m[SortedLetters(area)[i]] == PastelPalette[i % 26]
  {
    SortedLettersSpec(area);
    var l := SortedLetters(area);
    assert forall i :: 0 <= i < |l| ==> IndexOf(l, l[i]) == i;
    map ch | ch in l :: PastelPalette[IndexOf(l, ch) % |PastelPalette|]
  }

  /** The position of ch in l, the first one should it occur twice. */
  function IndexOf(l: seq<char>, ch: char): (k: nat)
    requires ch in l
    ensures k < |l| && l[k] == ch && ch !in l[..k]
  {
    if l[0] == ch then 0 else assert l[1..][..IndexOf(l[1..], ch)] == l[1..1 + IndexOf(l[1..], ch)]; 1 + IndexOf(l[1..], ch)
  }

  /** With at most 26 labels no two labels share a colour. */
  lemma ColorsDistinct(area: Core.Grid)
    requires |SortedLetters(area)| <= 26
    ensures var m := BuildColorMap(area);
      forall a, b :: a in m && b in m && a != b ==> m[a] != m[b]
  {
    var m := BuildColorMap(area);
    var l := SortedLetters(area);
    PaletteDistinct();
    forall a, b | a in m && b in m && a != b
      ensures m[a] != m[b]
    {
      var i, j := IndexOf(l, a), IndexOf(l, b);
      assert m[a] == PastelPalette[i % 26] && m[b] == PastelPalette[j % 26];
      SmallMod(i, 26);
      SmallMod(j, 26);
    }
  }

  lemma SmallMod(i: nat, k: nat)
    requires i < k
    ensures i % k == i
  {
  }

  // ---------------------------------------------------------------------
  // Cells, adjacency and paths

  type Cell = (int, int)

  /** The four moves of the flood fill: down, up, right, left. */
  const Directions: seq<(int, int)> := [(1, 0), (-1, 0), (0, 1), (0, -1)]

  function Step(p: Cell, d: nat): Cell
    requires d < 4
  {
    (p.0 + Directions[d].0, p.1 + Directions[d].1)
  }

  /** Two cells sharing a side. */
  predicate Adjacent(a: Cell, b: Cell)
  {
    Core.Abs(a.0 - b.0) + Core.Abs(a.1 - b.1) == 1
  }

  /** The four moves reach exactly the cells sharing a side. */
  lemma AdjacentIsStep(a: Cell, b: Cell)
    ensures Adjacent(a, b) <==> exists d: nat :: d < 4 && Step(a, d) == b
  {
    if Adjacent(a, b) {
      if b.0 == a.0 + 1 {
        assert Step(a, 0) == b;
      } else if b.0 == a.0 - 1 {
        assert Step(a, 1) == b;
      } else if b.1 == a.1 + 1 {
        assert Step(a, 2) == b;
      } else {
        assert Step(a, 3) == b;
      }
    }
  }

  /** A walk from cell to side-adjacent cell that never leaves s. */
  ghost predicate IsPath(s: set<Cell>, path: seq<Cell>)
  {
    |path| > 0 &&
    (forall i :: 0 <= i < |path| ==> path[i] in s) &&
    (forall i :: 0 <= i < |path| - 1 ==> Adjacent(path[i], path[i + 1]))
  }

  ghost predicate Reachable(s: set<Cell>, a: Cell, b: Cell)
  {
    exists path :: IsPath(s, path) && path[0] == a && path[|path| - 1] == b
  }

  /** s is one non-empty 4-connected piece. */
  ghost predicate Connected(s: set<Cell>)
  {
    s != {} && forall a, b {:trigger Reachable(s, a, b)} :: a in s && b in s ==> Reachable(s, a, b)
  }

  lemma ReachableSym(s: set<Cell>, a: Cell, b: Cell)
    requires Reachable(s, a, b)
    ensures Reachable(s, b, a)
  {
    var p :| IsPath(s, p) && p[0] == a && p[|p| - 1] == b;
    var q := seq(|p|, i requires 0 <= i < |p| => p[|p| - 1 - i]);
    forall i | 0 <= i < |q| - 1
      ensures Adjacent(q[i], q[i + 1])
    {
      assert Adjacent(p[|p| - 2 - i], p[|p| - 2 - i + 1]);
    }
    assert IsPath(s, q);
  }

  lemma ReachableTrans(s: set<Cell>, a: Cell, b: Cell, c: Cell)
    requires Reachable(s, a, b) && Reachable(s, b, c)
    ensures Reachable(s, a, c)
  {
    var p :| IsPath(s, p) && p[0] == a && p[|p| - 1] == b;
    var q :| IsPath(s, q) && q[0] == b && q[|q| - 1] == c;
    var w := p + q[1..];
    forall i | 0 <= i < |w| - 1
      ensures Adjacent(w[i], w[i + 1])
    {
      if i < |p| - 1 {
        assert w[i] == p[i] && w[i + 1] == p[i + 1];
      } else if i == |p| - 1 {
        assert w[i] == q[0] && w[i + 1] == q[1];
      } else {
        assert w[i] == q[i - |p| + 1] && w[i + 1] == q[i - |p| + 2];
      }
    }
    assert IsPath(s, w);
  }

  /** Connectedness can be read off reachability from any one cell. */
  lemma ConnectedFromOne(s: set<Cell>, a: Cell)
    requires a in s
    ensures Connected(s) <==> forall v :: v in s ==> Reachable(s, a, v)
  {
    if forall v :: v in s ==> Reachable(s, a, v) {
      forall x, y | x in s && y in s
        ensures Reachable(s, x, y)
      {
        ReachableSym(s, a, x);
        ReachableTrans(s, x, a, y);
      }
    }
  }

  /** A walk starting in a set closed under side-adjacency within s
      stays in that set. */
  lemma {:induction false} ClosedPathInside(s: set<Cell>, v: set<Cell>, path: seq<Cell>, i: nat)
    requires IsPath(s, path) && i < |path| && path[0] in v
    requires forall x, w :: x in v && w in s && Adjacent(x, w) ==> w in v
    ensures path[i] in v
    decreases i
  {
    if i > 0 {
      ClosedPathInside(s, v, path, i - 1);
      assert Adjacent(path[i - 1], path[i]);
    }
  }

  function CellSet(cells: seq<Cell>): set<Cell>
  {
    set x | x in cells
  }

  // ---------------------------------------------------------------------
  // is_connected

  /** The work list holds visited cells, each at most once. */
  ghost predicate StackOk(visited: set<Cell>, stack: seq<Cell>)
  {
    (forall i :: 0 <= i < |stack| ==> stack[i] in visited) &&
    (forall i, j :: 0 <= i < j < |stack| ==> stack[i] != stack[j])
  }

  /** paths[v] is a walk inside s from start to v, for each visited v. */
  ghost predicate PathsOk(s: set<Cell>, start: Cell, visited: set<Cell>, paths: map<Cell, seq<Cell>>)
  {
    paths.Keys == visited &&
    forall v :: v in visited ==>
      IsPath(s, paths[v]) && paths[v][0] == start && paths[v][|paths[v]| - 1] == v
  }

  /** Flood fill from the first cell, over a stack and a visited set;
      true iff it visits every cell. That happens exactly when every cell
      is reachable from the first one inside the list, i.e. when the
      cells form one 4-connected piece. */
  method IsConnected(cells: seq<Cell>) returns (ok: bool)
    ensures ok <==> |cells| > 0 && forall v :: v in cells ==> Reachable(CellSet(cells), cells[0], v)
    ensures ok <==> Connected(CellSet(cells))
  {
    if |cells| == 0 {
      return false;
    }
    var cellSet := CellSet(cells);
    var start := cells[0];
    var stack := [start];
    var visited := {start};
    ghost var paths: map<Cell, seq<Cell>> := map[start := [start]];
    assert IsPath(cellSet, [start]);
    while stack != []
      invariant visited <= cellSet && start in visited
      invariant StackOk(visited, stack)
      invariant PathsOk(cellSet, start, visited, paths)
      invariant forall v, w :: v in visited && v !in stack && w in cellSet && Adjacent(v, w) ==> w in visited
      decreases |cellSet - visited|, |stack|
    {
      var cur := stack[|stack| - 1];
      ghost var stack0, visited0 := stack, visited;
      stack := stack[..|stack| - 1];
      StackPop(visited, stack0);
      visited, stack, paths := Expand(cellSet, start, cur, visited, stack, paths);
      ClosureKept(cellSet, cur, visited0, stack0, visited, stack);
      if visited != visited0 {
        FewerUnvisited(cellSet, visited0, visited);
      }
    }
    ok := |visited| == |cellSet|;
    FloodFillResult(cells, start, visited, paths);
  }

  /** Visiting a new cell of the region leaves fewer cells unvisited. */
  lemma FewerUnvisited(all: set<Cell>, v0: set<Cell>, v1: set<Cell>)
    requires v0 <= v1 <= all && v0 != v1
    ensures |all - v1| < |all - v0|
  {
    var x :| x in v1 && x !in v0;
    Core.SubsetCardLe(all - v1, (all - v0) - {x});
  }

  lemma StackPop(visited: set<Cell>, stack: seq<Cell>)
    requires StackOk(visited, stack) && stack != []
    ensures StackOk(visited, stack[..|stack| - 1])
  {
  }

  /** After cur has been popped and expanded, every visited cell that is
      off the stack again has all its in-region neighbours visited. */
  lemma ClosureKept(cellSet: set<Cell>, cur: Cell,
                    visited0: set<Cell>, stack0: seq<Cell>, visited: set<Cell>, stack: seq<Cell>)
    requires stack0 != [] && cur == stack0[|stack0| - 1]
    requires forall v, w :: v in visited0 && v !in stack0 && w in cellSet && Adjacent(v, w) ==> w in visited0
    requires visited0 <= visited
    requires |stack| >= |stack0| - 1 && stack[..|stack0| - 1] == stack0[..|stack0| - 1]
    requires forall v :: v in visited && v !in visited0 ==> v in stack
    requires forall w :: w in cellSet && Adjacent(cur, w) ==> w in visited
    ensures forall v, w :: v in visited && v !in stack && w in cellSet && Adjacent(v, w) ==> w in visited
  {
    var stack1 := stack0[..|stack0| - 1];
    assert stack0 == stack1 + [cur];
    forall v, w | v in visited && v !in stack && w in cellSet && Adjacent(v, w)
      ensures w in visited
    {
      if v != cur {
        assert v in visited0;
        assert v !in stack0;
      }
    }
  }

  /** When the stack is empty, visited is everything reachable from start;
      it has the size of the region exactly when that is all of it. */
  lemma FloodFillResult(cells: seq<Cell>, start: Cell, visited: set<Cell>, paths: map<Cell, seq<Cell>>)
    requires cells != [] && start == cells[0]
    requires visited <= CellSet(cells) && start in visited
    requires PathsOk(CellSet(cells), start, visited, paths)
    requires forall v, w :: v in visited && w in CellSet(cells) && Adjacent(v, w) ==> w in visited
    ensures |visited| == |CellSet(cells)| <==> forall v :: v in cells ==> Reachable(CellSet(cells), start, v)
    ensures |visited| == |CellSet(cells)| <==> Connected(CellSet(cells))
  {
    var cellSet := CellSet(cells);
    forall x | x in cellSet && Reachable(cellSet, start, x)
      ensures x in visited
    {
      var path :| IsPath(cellSet, path) && path[0] == start && path[|path| - 1] == x;
      ClosedPathInside(cellSet, visited, path, |path| - 1);
    }
    if |visited| == |cellSet| {
      Core.SubsetSameCard(visited, cellSet);
    } else {
      assert visited != cellSet;
      assert !(cellSet <= visited);
      var x :| x in cellSet && x !in visited;
    }
    ConnectedFromOne(cellSet, start);
  }

  /** Marking an unvisited neighbour nb of a visited cell cur and pushing
      it keeps the stack and the walks consistent. */
  lemma Visit(cellSet: set<Cell>, start: Cell, cur: Cell, nb: Cell,
              visited0: set<Cell>, stack0: seq<Cell>,
              visited: set<Cell>, stack: seq<Cell>, paths: map<Cell, seq<Cell>>)
    requires cur in visited && nb in cellSet && nb !in visited && Adjacent(cur, nb)
    requires StackOk(visited, stack) && PathsOk(cellSet, start, visited, paths)
    requires |stack| >= |stack0| && stack[..|stack0|] == stack0
    requires forall v :: v in visited && v !in visited0 ==> v in stack
    ensures StackOk(visited + {nb}, stack + [nb])
    ensures PathsOk(cellSet, start, visited + {nb}, paths[nb := paths[cur] + [nb]])
    ensures (stack + [nb])[..|stack0|] == stack0
    ensures forall v :: v in visited + {nb} && v !in visited0 ==> v in stack + [nb]
  {
    ExtendPath(cellSet, paths[cur], nb);
    assert (stack + [nb])[..|stack0|] == stack[..|stack0|];
    forall v | v in visited + {nb} && v !in visited0
      ensures v in stack + [nb]
    {
      if v != nb {
        var k :| 0 <= k < |stack| && stack[k] == v;
        assert (stack + [nb])[k] == v;
      }
    }
  }

  /** The `for dr, dc in ...` loop for the popped cell cur: every
      unvisited neighbour inside the region is marked visited and
      pushed, so that afterwards all of cur's neighbours in the region
      are visited. */
  method Expand(cellSet: set<Cell>, start: Cell, cur: Cell,
                visited0: set<Cell>, stack0: seq<Cell>, ghost paths0: map<Cell, seq<Cell>>)
    returns (visited: set<Cell>, stack: seq<Cell>, ghost paths: map<Cell, seq<Cell>>)
    requires cur in visited0 && visited0 <= cellSet
    requires StackOk(visited0, stack0) && PathsOk(cellSet, start, visited0, paths0)
    ensures visited0 <= visited <= cellSet
    ensures visited == visited0 ==> stack == stack0
    ensures |stack| >= |stack0| && stack[..|stack0|] == stack0
    ensures forall v :: v in visited && v !in visited0 ==> v in stack
    ensures StackOk(visited, stack) && PathsOk(cellSet, start, visited, paths)
    ensures forall w :: w in cellSet && Adjacent(cur, w) ==> w in visited
  {
    visited, stack, paths := visited0, stack0, paths0;
    for d := 0 to 4
      invariant visited0 <= visited <= cellSet
      invariant visited == visited0 ==> stack == stack0
      invariant |stack| >= |stack0| && stack[..|stack0|] == stack0
      invariant forall v :: v in visited && v !in visited0 ==> v in stack
      invariant StackOk(visited, stack) && PathsOk(cellSet, start, visited, paths)
      invariant forall e: nat :: e < d && Step(cur, e) in cellSet ==> Step(cur, e) in visited
    {
      var nb := Step(cur, d);
      if nb in cellSet && nb !in visited {
        AdjacentIsStep(cur, nb);
        Visit(cellSet, start, cur, nb, visited0, stack0, visited, stack, paths);
        visited := visited + {nb};
        stack := stack + [nb];
        paths := paths[nb := paths[cur] + [nb]];
      }
    }
    forall w | w in cellSet && Adjacent(cur, w)
      ensures w in visited
    {
      AdjacentIsStep(cur, w);
    }
  }

  /** One more step keeps a walk a walk. */
  lemma ExtendPath(s: set<Cell>, p: seq<Cell>, x: Cell)
    requires IsPath(s, p) && x in s && Adjacent(p[|p| - 1], x)
    ensures IsPath(s, p + [x]) && (p + [x])[0] == p[0] && (p + [x])[|p|] == x
  {
    var q := p + [x];
    forall i | 0 <= i < |q| - 1
      ensures Adjacent(q[i], q[i + 1])
    {
      if i < |p| - 1 {
        assert q[i] == p[i] && q[i + 1] == p[i + 1];
      }
    }
  }

  // ---------------------------------------------------------------------
  // pos_by_letter

  /** The cells of row r left of column c labelled ch, left to right. */
  function RowCells(area: Core.Grid, ch: char, r: nat, c: nat): seq<Cell>
    requires r < |area| && c <= |area[r]|
  {
    if c == 0 then []
    else RowCells(area, ch, r, c - 1) + (if area[r][c - 1] == ch then [(r as int, c as int - 1)] else [])
  }

  /** The cells of the first r rows labelled ch, in row-major order. */
  function CellsUpTo(n: nat, area: Core.Grid, ch: char, r: nat): seq<Cell>
    requires Core.IsSquare(n, area) && r <= n
  {
    if r == 0 then [] else CellsUpTo(n, area, ch, r - 1) + RowCells(area, ch, r - 1, n)
  }

  /** `pos_by_letter[ch]`. */
  function CellsOf(n: nat, area: Core.Grid, ch: char): seq<Cell>
    requires Core.IsSquare(n, area)
  {
    CellsUpTo(n, area, ch, n)
  }

  /** The region of label ch as a set of cells. */
  function Region(n: nat, area: Core.Grid, ch: char): set<Cell>
    requires Core.IsSquare(n, area)
  {
    set r, c | 0 <= r < n && 0 <= c < n && area[r][c] == ch :: (r, c)
  }

  predicate RowMajorLess(a: Cell, b: Cell)
  {
    a.0 < b.0 || (a.0 == b.0 && a.1 < b.1)
  }

  /** Strictly increasing in row-major order, hence without repeats. */
  predicate RowMajorSorted(l: seq<Cell>)
  {
    forall i, j :: 0 <= i < j < |l| ==> RowMajorLess(l[i], l[j])
  }

  /** The cells of row r left of column c labelled ch are exactly those. */
  lemma {:induction false} RowCellsSpec(area: Core.Grid, ch: char, r: nat, c: nat)
    requires r < |area| && c <= |area[r]|
    ensures forall v :: v in RowCells(area, ch, r, c) <==> v.0 == r && 0 <= v.1 < c && area[v.0][v.1] == ch
  {
    if c > 0 {
      RowCellsSpec(area, ch, r, c - 1);
      var a := RowCells(area, ch, r, c - 1);
      var b: seq<Cell> := if area[r][c - 1] == ch then [(r as int, c as int - 1)] else [];
      assert RowCells(area, ch, r, c) == a + b;
      forall v: Cell
        ensures v in a + b <==> v in a || v in b
      {
      }
    } else {
      assert RowCells(area, ch, r, c) == [];
    }
  }

  /** The cells of the first r rows labelled ch are exactly those. */
  lemma {:induction false} CellsUpToMembers(n: nat, area: Core.Grid, ch: char, r: nat)
    requires Core.IsSquare(n, area) && r <= n
    ensures forall v :: v in CellsUpTo(n, area, ch, r) <==>
      0 <= v.0 < r && 0 <= v.1 < n && area[v.0][v.1] == ch
  {
    if r > 0 {
      CellsUpToMembers(n, area, ch, r - 1);
      RowCellsSpec(area, ch, r - 1, n);
      var a, b := CellsUpTo(n, area, ch, r - 1), RowCells(area, ch, r - 1, n);
      assert CellsUpTo(n, area, ch, r) == a + b;
      forall v: Cell
        ensures v in a + b <==> 0 <= v.0 < r && 0 <= v.1 < n && area[v.0][v.1] == ch
      {
        assert v in a + b <==> v in a || v in b;
      }
    } else {
      assert CellsUpTo(n, area, ch, r) == [];
    }
  }

  /** ... and they are listed in row-major order, all above row r. */
  lemma {:induction false} CellsUpToSorted(n: nat, area: Core.Grid, ch: char, r: nat)
    requires Core.IsSquare(n, area) && r <= n
    ensures RowMajorSorted(CellsUpTo(n, area, ch, r)) && RowsAbove(CellsUpTo(n, area, ch, r), r)
  {
    if r > 0 {
      CellsUpToSorted(n, area, ch, r - 1);
      RowCellsRun(area, ch, r - 1, n);
      AppendRow(CellsUpTo(n, area, ch, r - 1), RowCells(area, ch, r - 1, n), r - 1);
    }
  }

  /** Every cell of l lies above row r. */
  predicate RowsAbove(l: seq<Cell>, r: int)
  {
    forall i :: 0 <= i < |l| ==> l[i].0 < r
  }

  /** l lists cells of row r from left to right. */
  predicate RowRun(l: seq<Cell>, r: int)
  {
    (forall i :: 0 <= i < |l| ==> l[i].0 == r) &&
    forall i, j :: 0 <= i < j < |l| ==> l[i].1 < l[j].1
  }

  lemma {:induction false} RowCellsRun(area: Core.Grid, ch: char, r: nat, c: nat)
    requires r < |area| && c <= |area[r]|
    ensures RowRun(RowCells(area, ch, r, c), r)
    ensures forall i :: 0 <= i < |RowCells(area, ch, r, c)| ==> RowCells(area, ch, r, c)[i].1 < c
  {
    if c > 0 {
      RowCellsRun(area, ch, r, c - 1);
      var a := RowCells(area, ch, r, c - 1);
      var b: seq<Cell> := if area[r][c - 1] == ch then [(r as int, c as int - 1)] else [];
      assert RowCells(area, ch, r, c) == a + b;
    }
  }

  /** Appending a left-to-right list of cells of row r to a row-major
      list of cells above row r keeps it row-major. */
  lemma AppendRow(a: seq<Cell>, b: seq<Cell>, r: int)
    requires RowMajorSorted(a) && RowsAbove(a, r) && RowRun(b, r)
    ensures RowMajorSorted(a + b) && RowsAbove(a + b, r + 1)
  {
    var l := a + b;
    forall i, j | 0 <= i < j < |l|
      ensures RowMajorLess(l[i], l[j])
    {
      if j < |a| {
        assert l[i] == a[i] && l[j] == a[j];
      } else if |a| <= i {
        assert l[i] == b[i - |a|] && l[j] == b[j - |a|];
      } else {
        assert l[i] == a[i] && l[j] == b[j - |a|];
      }
    }
    forall i | 0 <= i < |l|
      ensures l[i].0 < r + 1
    {
      if i < |a| {
        assert l[i] == a[i];
      } else {
        assert l[i] == b[i - |a|];
      }
    }
  }

  /** `pos_by_letter[ch]` holds exactly the cells labelled ch, each once,
      in row-major order; as a set it is the region of ch. */
  lemma CellsOfSpec(n: nat, area: Core.Grid, ch: char)
    requires Core.IsSquare(n, area)
    ensures forall v :: v in CellsOf(n, area, ch) <==>
      0 <= v.0 < n && 0 <= v.1 < n && area[v.0][v.1] == ch
    ensures RowMajorSorted(CellsOf(n, area, ch))
    ensures CellSet(CellsOf(n, area, ch)) == Region(n, area, ch)
  {
    CellsUpToMembers(n, area, ch, n);
    CellsUpToSorted(n, area, ch, n);
    var s, t := CellSet(CellsOf(n, area, ch)), Region(n, area, ch);
    forall v | v in t
      ensures v in s
    {
      var r, c :| 0 <= r < n && 0 <= c < n && area[r][c] == ch && v == (r, c);
    }
    forall v | v in s
      ensures v in t
    {
      assert v in CellsOf(n, area, ch);
      assert v == (v.0, v.1);
    }
    assert s == t;
  }

  lemma RegionOfCells(n: nat, area: Core.Grid, ch: char)
    requires Core.IsSquare(n, area)
    ensures Connected(CellSet(CellsOf(n, area, ch))) == Connected(Region(n, area, ch))
  {
    CellsOfSpec(n, area, ch);
  }

  /** The lists of `pos_by_letter` partition the n*n cells by label. */
  lemma PositionsPartition(n: nat, area: Core.Grid)
    requires Core.IsSquare(n, area)
    ensures forall r, c :: 0 <= r < n && 0 <= c < n ==> (r, c) in CellsOf(n, area, area[r][c])
    ensures forall a, b, v :: a != b && v in CellsOf(n, area, a) ==> v !in CellsOf(n, area, b)
  {
    forall ch {
      CellsOfSpec(n, area, ch);
    }
  }

  /** Fill `pos_by_letter`: start every letter with an empty list, then
      append each cell, in row-major order, to its label's list. */
  method PositionsByLetter(n: nat, area: Core.Grid, letters: set<char>) returns (pos: map<char, seq<Cell>>)
    requires Core.IsSquare(n, area) && Core.Labels(n, area) <= letters
    ensures pos.Keys == letters
    ensures forall ch :: ch in letters ==> pos[ch] == CellsOf(n, area, ch)
  {
    pos := map ch | ch in letters :: [];
    for r := 0 to n
      invariant pos.Keys == letters
      invariant forall ch :: ch in letters ==> pos[ch] == CellsUpTo(n, area, ch, r)
    {
      ghost var pos0 := pos;
      pos := FillRow(n, area, letters, pos, r);
      forall x | x in letters
        ensures pos[x] == CellsUpTo(n, area, x, r + 1)
      {
        assert pos[x] == pos0[x] + RowCells(area, x, r, n);
      }
    }
  }

  /** The inner loop of `pos_by_letter` for row r: append each cell of the
      row, left to right, to its label's list. */
  method FillRow(n: nat, area: Core.Grid, letters: set<char>, pos0: map<char, seq<Cell>>, r: nat)
    returns (pos: map<char, seq<Cell>>)
    requires Core.IsSquare(n, area) && Core.Labels(n, area) <= letters && r < n
    requires pos0.Keys == letters
    ensures pos.Keys == letters
    ensures forall ch :: ch in letters ==> pos[ch] == pos0[ch] + RowCells(area, ch, r, n)
  {
    pos := pos0;
    for c := 0 to n
      invariant pos.Keys == letters
      invariant forall ch :: ch in letters ==> pos[ch] == pos0[ch] + RowCells(area, ch, r, c)
    {
      var ch := area[r][c];
      assert ch in Core.Labels(n, area);
      ghost var pos1 := pos;
      pos := pos[ch := pos[ch] + [(r, c)]];
      forall x | x in letters
        ensures pos[x] == pos0[x] + RowCells(area, x, r, c + 1)
      {
        assert RowCells(area, x, r, c + 1) ==
          RowCells(area, x, r, c) + (if ch == x then [(r as int, c as int)] else []);
        if x != ch {
          assert pos[x] == pos1[x];
        }
      }
    }
  }

  // ---------------------------------------------------------------------
  // validate_board_or_raise

  /** The two `ValueError`s `validate_board_or_raise` raises. */
  datatype RegionError =
    | RegionCount(n: int)   // not exactly n different labels
    | NotContiguous         // some label's region falls apart

  /** `is_connected(letter)`: look up the letter's cells and flood-fill
      them. */
  method LetterConnected(n: nat, area: Core.Grid, pos: map<char, seq<Cell>>, ch: char) returns (ok: bool)
    requires Core.IsSquare(n, area) && ch in pos && pos[ch] == CellsOf(n, area, ch)
    ensures ok == Connected(Region(n, area, ch))
  {
    RegionOfCells(n, area, ch);
    ok := IsConnected(pos[ch]);
  }

  /** Exactly n labels, each forming one 4-connected region; letters are
      checked in sorted order, the first broken one raising. */
  method ValidateBoardOrRaise(n: nat, area: Core.Grid) returns (err: Option<RegionError>)
    requires Core.IsSquare(n, area)
    ensures err == Some(RegionCount(n)) <==> |Core.Labels(n, area)| != n
    ensures err == Some(NotContiguous) <==>
      |Core.Labels(n, area)| == n &&
      exists ch :: ch in Core.Labels(n, area) && !Connected(Region(n, area, ch))
    ensures err == None <==>
      |Core.Labels(n, area)| == n &&
      forall ch :: ch in Core.Labels(n, area) ==> Connected(Region(n, area, ch))
  {
    var letters := SortedLetters(area);
    SortedLettersSpec(area);
    var foundSet := set ch | ch in letters;
    LettersAreLabels(n, area, letters, foundSet);
    if |foundSet| != n {
      return Some(RegionCount(n));
    }
    var pos := PositionsByLetter(n, area, foundSet);
    var ok := CheckLetters(n, area, pos, letters);
    EveryLetterChecked(n, area, letters);
    if !ok {
      return Some(NotContiguous);
    }
    return None;
  }

  /** `for ch in letters: if not is_connected(ch): raise`: true iff every
      letter's region is 4-connected, stopping at the first that is not. */
  method CheckLetters(n: nat, area: Core.Grid, pos: map<char, seq<Cell>>, letters: seq<char>)
    returns (ok: bool)
    requires Core.IsSquare(n, area)
    requires forall j :: 0 <= j < |letters| ==> letters[j] in pos && pos[letters[j]] == CellsOf(n, area, letters[j])
    ensures ok <==> forall j :: 0 <= j < |letters| ==> Connected(Region(n, area, letters[j]))
  {
    for i := 0 to |letters|
      invariant forall j :: 0 <= j < i ==> Connected(Region(n, area, letters[j]))
    {
      ok := LetterConnected(n, area, pos, letters[i]);
      if !ok {
        return false;
      }
    }
    return true;
  }

  /** Checking the sorted letters one by one checks every label. */
  lemma EveryLetterChecked(n: nat, area: Core.Grid, letters: seq<char>)
    requires Core.IsSquare(n, area) && letters == SortedLetters(area)
    ensures (forall j :: 0 <= j < |letters| ==> Connected(Region(n, area, letters[j]))) <==>
            (forall ch :: ch in Core.Labels(n, area) ==> Connected(Region(n, area, ch)))
  {
    SortedLettersSpec(area);
    if forall j :: 0 <= j < |letters| ==> Connected(Region(n, area, letters[j])) {
      forall ch | ch in Core.Labels(n, area)
        ensures Connected(Region(n, area, ch))
      {
        var j :| 0 <= j < |letters| && letters[j] == ch;
      }
    }
  }
}
