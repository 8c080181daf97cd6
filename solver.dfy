/** The brute-force search of src/solver.py: a depth-first walk over all
    n^n row-to-column assignments in lexicographic order (row 0 most
    significant) that stops at the first one the placement rule accepts,
    and the text rendering of a solution. */
module Solver {
  import opened Wrappers
  import Core

  // ---------------------------------------------------------------------
  // boardFormat

  /** Python's reading of index i into a list of length len. */
  function PyIndex(i: int, len: int): int
  {
    if i < 0 then i + len else i
  }

  /** `row[cols[r]]` is a legal Python index for every row r of `area`. */
  predicate Renderable(area: Core.Grid, cols: seq<int>)
  {
    |cols| >= |area| && forall r :: 0 <= r < |area| ==> -|area[r]| <= cols[r] < |area[r]|
  }

  /** `out` is `area` with row r's cell at column cols[r] replaced by '#'
      and every other cell left as it was. */
  predicate Overlaid(out: seq<string>, area: Core.Grid, cols: seq<int>)
    requires Renderable(area, cols)
  {
    |out| == |area| &&
    forall r :: 0 <= r < |area| ==>
      |out[r]| == |area[r]| &&
      forall c :: 0 <= c < |area[r]| ==>
        out[r][c] == if c == PyIndex(cols[r], |area[r]|) then '#' else area[r][c]
  }

  /** `boardFormat`: copy each row, mark the chosen column, append. */
  method BoardFormat(area: Core.Grid, cols: seq<int>) returns (out: seq<string>)
    requires Renderable(area, cols)
    ensures Overlaid(out, area, cols)
  {
    var n := |area|;
    out := [];
    for r := 0 to n
      invariant |out| == r
      invariant forall i :: 0 <= i < r ==>
        |out[i]| == |area[i]| &&
        forall c :: 0 <= c < |area[i]| ==>
          out[i][c] == if c == PyIndex(cols[i], |area[i]|) then '#' else area[i][c]
    {
      var row := area[r];
      row := row[PyIndex(cols[r], |row|) := '#'];
      out := out + [row];
    }
  }

  /** The rendering is determined by the board and the assignment. */
  lemma OverlaidUnique(o1: seq<string>, o2: seq<string>, area: Core.Grid, cols: seq<int>)
    requires Renderable(area, cols) && Overlaid(o1, area, cols) && Overlaid(o2, area, cols)
    ensures o1 == o2
  {
    forall r | 0 <= r < |area|
      ensures o1[r] == o2[r]
    {
      assert |o1[r]| == |o2[r]|;
      forall c | 0 <= c < |o1[r]|
        ensures o1[r][c] == o2[r][c]
      {
      }
    }
  }

  /** Putting the label back where the marker is gives the board back. */
  lemma OverlaidRestores(out: seq<string>, area: Core.Grid, cols: seq<int>)
    requires Renderable(area, cols) && Overlaid(out, area, cols)
    ensures forall r :: 0 <= r < |area| ==>
      var c := PyIndex(cols[r], |area[r]|);
      out[r][c] == '#' && out[r][c := area[r][c]] == area[r]
  {
    forall r | 0 <= r < |area|
      ensures var c := PyIndex(cols[r], |area[r]|);
        out[r][c] == '#' && out[r][c := area[r][c]] == area[r]
    {
      var c := PyIndex(cols[r], |area[r]|);
      var back := out[r][c := area[r][c]];
      assert |back| == |area[r]|;
      forall j | 0 <= j < |back|
        ensures back[j] == area[r][j]
      {
      }
    }
  }

  // ---------------------------------------------------------------------
  // The order in which dfs visits complete assignments

  /** A complete assignment: n columns, each in range(n). */
  predicate IsTuple(n: nat, t: seq<int>)
  {
    |t| == n && forall i :: 0 <= i < n ==> 0 <= t[i] < n
  }

  /** t is a complete assignment whose first |p| rows are p. */
  predicate Extends(n: nat, p: seq<int>, t: seq<int>)
  {
    |p| <= |t| == n && t[..|p|] == p && forall i :: |p| <= i < n ==> 0 <= t[i] < n
  }

  /** The complete assignments `dfs(|p|)` checks when `cols[..|p|]` is p,
      in the order it checks them. */
  function Ext(n: nat, p: seq<int>): seq<seq<int>>
    requires |p| <= n
    decreases n - |p|, n + 1
  {
    if |p| == n then [p] else ExtFrom(n, p, 0)
  }

  /** Those that the loop `for c in range(n)` of `dfs(|p|)` checks from
      column c on. */
  function ExtFrom(n: nat, p: seq<int>, c: nat): seq<seq<int>>
    requires |p| < n && c <= n
    decreases n - |p|, n - c
  {
    if c == n then [] else Ext(n, p + [c]) + ExtFrom(n, p, c + 1)
  }

  /** Those that the loop has checked before column c. */
  function ExtUpTo(n: nat, p: seq<int>, c: nat): seq<seq<int>>
    requires |p| < n && c <= n
  {
    if c == 0 then [] else ExtUpTo(n, p, c - 1) + Ext(n, p + [c - 1])
  }

  /** Every complete assignment in the order `dfs(0)` checks them. */
  function Enumeration(n: nat): seq<seq<int>>
  {
    Ext(n, [])
  }

  function Pow(b: nat, e: nat): nat
  {
    if e == 0 then 1 else b * Pow(b, e - 1)
  }

  /** The value of t read as a base-n numeral, row 0 the most significant
      digit. */
  function Rank(n: nat, t: seq<int>): int
  {
    if t == [] then 0 else Rank(n, t[..|t| - 1]) * n + t[|t| - 1]
  }

  /** Lexicographic order: t and u agree up to some row k, where t's
      column is smaller. */
  predicate LexLess(t: seq<int>, u: seq<int>)
  {
    exists k :: 0 <= k < |t| && k < |u| && t[..k] == u[..k] && t[k] < u[k]
  }

  /** Strictly increasing in lexicographic order. */
  predicate LexSorted(l: seq<seq<int>>)
  {
    forall i, j :: 0 <= i < j < |l| ==> LexLess(l[i], l[j])
  }

  lemma LexLessAsymmetric(t: seq<int>, u: seq<int>)
    ensures !(LexLess(t, u) && LexLess(u, t))
  {
    if LexLess(t, u) && LexLess(u, t) {
      var k1 :| 0 <= k1 < |t| && k1 < |u| && t[..k1] == u[..k1] && t[k1] < u[k1];
      var k2 :| 0 <= k2 < |t| && k2 < |u| && u[..k2] == t[..k2] && u[k2] < t[k2];
      assert false;
    }
  }

  /** The checking loop before column c, and from column c on, make up
      the whole of dfs(|p|). */
  lemma {:induction false} ExtSplit(n: nat, p: seq<int>, c: nat)
    requires |p| < n && c <= n
    ensures Ext(n, p) == ExtUpTo(n, p, c) + ExtFrom(n, p, c)
    decreases c
  {
    if c > 0 {
      ExtSplit(n, p, c - 1);
      assert ExtFrom(n, p, c - 1) == Ext(n, p + [c - 1]) + ExtFrom(n, p, c);
    }
  }

  /** dfs(|p|) checks n^(n - |p|) assignments. */
  lemma {:induction false} ExtLength(n: nat, p: seq<int>)
    requires |p| <= n
    ensures |Ext(n, p)| == Pow(n, n - |p|)
    decreases n - |p|, 1
  {
    if |p| < n {
      ExtFromLength(n, p, 0);
    }
  }

  lemma {:induction false} ExtFromLength(n: nat, p: seq<int>, c: nat)
    requires |p| < n && c <= n
    ensures |ExtFrom(n, p, c)| == (n - c) * Pow(n, n - |p| - 1)
    decreases n - |p|, 0, n - c
  {
    if c < n {
      ExtLength(n, p + [c]);
      ExtFromLength(n, p, c + 1);
      var q := Pow(n, n - |p| - 1);
      assert (n - c) * q == q + (n - (c + 1)) * q;
    }
  }

  /** Everything dfs(|p|) checks is a complete assignment extending p. */
  lemma {:induction false} ExtMembers(n: nat, p: seq<int>, i: nat)
    requires |p| <= n && i < |Ext(n, p)|
    ensures Extends(n, p, Ext(n, p)[i])
    decreases n - |p|, 1
  {
    if |p| < n {
      ExtFromMembers(n, p, 0, i);
    }
  }

  lemma {:induction false} ExtFromMembers(n: nat, p: seq<int>, c: nat, i: nat)
    requires |p| < n && c <= n && i < |ExtFrom(n, p, c)|
    ensures Extends(n, p, ExtFrom(n, p, c)[i]) && ExtFrom(n, p, c)[i][|p|] >= c
    decreases n - |p|, 0, n - c
  {
    var a := Ext(n, p + [c]);
    if i < |a| {
      ExtMembers(n, p + [c], i);
      var t := a[i];
      assert t[..|p| + 1] == p + [c];
      assert t[..|p|] == t[..|p| + 1][..|p|];
      assert t[|p|] == t[..|p| + 1][|p|];
    } else {
      ExtFromMembers(n, p, c + 1, i - |a|);
    }
  }

  /** dfs(|p|) checks every complete assignment extending p. */
  lemma {:induction false} ExtComplete(n: nat, p: seq<int>, t: seq<int>)
    requires |p| <= n && Extends(n, p, t)
    ensures t in Ext(n, p)
    decreases n - |p|
  {
    if |p| == n {
      assert t == t[..|p|];
    } else {
      var c := t[|p|];
      assert t[..|p| + 1] == p + [c];
      ExtComplete(n, p + [c], t);
      ExtSplit(n, p, c);
      assert ExtFrom(n, p, c) == Ext(n, p + [c]) + ExtFrom(n, p, c + 1);
    }
  }

  /** The i-th assignment dfs(|p|) checks has rank Rank(p) * n^(n-|p|) + i. */
  lemma {:induction false} ExtRank(n: nat, p: seq<int>, i: nat)
    requires |p| <= n && i < |Ext(n, p)|
    ensures Rank(n, Ext(n, p)[i]) == Rank(n, p) * Pow(n, n - |p|) + i
    decreases n - |p|, 1
  {
    if |p| < n {
      ExtFromRank(n, p, 0, i);
    } else {
      ExtLength(n, p);
    }
  }

  lemma {:induction false} ExtFromRank(n: nat, p: seq<int>, c: nat, i: nat)
    requires |p| < n && c <= n && i < |ExtFrom(n, p, c)|
    ensures Rank(n, ExtFrom(n, p, c)[i]) ==
      Rank(n, p) * Pow(n, n - |p|) + c * Pow(n, n - |p| - 1) + i
    decreases n - |p|, 0, n - c
  {
    var q := Pow(n, n - |p| - 1);
    var a := Ext(n, p + [c]);
    ExtLength(n, p + [c]);
    assert ExtFrom(n, p, c) == a + ExtFrom(n, p, c + 1);
    if i < |a| {
      ExtRank(n, p + [c], i);
      RankSnoc(n, p, c);
      RankArith(Rank(n, p), n, c, q, i);
    } else {
      ExtFromRank(n, p, c + 1, i - |a|);
      assert (c + 1) * q == c * q + q;
    }
  }

  lemma RankSnoc(n: nat, p: seq<int>, c: int)
    ensures Rank(n, p + [c]) == Rank(n, p) * n + c
  {
    assert (p + [c])[..|p|] == p;
  }

  lemma RankArith(r: int, n: nat, c: int, q: nat, i: int)
    ensures (r * n + c) * q + i == r * (n * q) + c * q + i
  {
  }

  /** dfs(|p|) checks the extensions of p in strictly increasing
      lexicographic order. */
  lemma {:induction false} ExtSorted(n: nat, p: seq<int>)
    requires |p| <= n
    ensures LexSorted(Ext(n, p))
    decreases n - |p|, 1
  {
    if |p| < n {
      assert Ext(n, p) == ExtFrom(n, p, 0);
      ExtFromSorted(n, p, 0);
    }
  }

  lemma {:induction false} ExtFromSorted(n: nat, p: seq<int>, c: nat)
    requires |p| < n && c <= n
    ensures LexSorted(ExtFrom(n, p, c))
    decreases n - |p|, 0, n - c
  {
    if c < n {
      var a, b := Ext(n, p + [c]), ExtFrom(n, p, c + 1);
      var l := ExtFrom(n, p, c);
      assert l == a + b;
      ExtSorted(n, p + [c]);
      ExtFromSorted(n, p, c + 1);
      forall i, j | 0 <= i < j < |l|
        ensures LexLess(l[i], l[j])
      {
        if j < |a| {
          assert l[i] == a[i] && l[j] == a[j];
          assert LexLess(a[i], a[j]);
        } else if |a| <= i {
          assert l[i] == b[i - |a|] && l[j] == b[j - |a|];
          assert LexLess(b[i - |a|], b[j - |a|]);
        } else {
          ExtFromMembers(n, p, c, i);
          ExtFromMembers(n, p, c + 1, j - |a|);
          ExtMembers(n, p + [c], i);
          var t, u := a[i], b[j - |a|];
          assert l[i] == t && l[j] == u;
          assert t[..|p| + 1] == p + [c];
          assert t[|p|] == t[..|p| + 1][|p|];
          assert t[..|p|] == t[..|p| + 1][..|p|];
          assert t[..|p|] == u[..|p|] && t[|p|] < u[|p|];
          assert LexLess(t, u);
        }
      }
    }
  }

  /** The whole enumeration: n^n assignments, exactly the complete ones,
      in strictly increasing lexicographic order, the i-th of rank i. */
  lemma EnumerationSpec(n: nat)
    ensures var all := Enumeration(n);
      |all| == Pow(n, n) &&
      (forall t :: t in all <==> IsTuple(n, t)) &&
      LexSorted(all) &&
      (forall i :: 0 <= i < |all| ==> Rank(n, all[i]) == i)
  {
    var all := Enumeration(n);
    ExtLength(n, []);
    ExtSorted(n, []);
    forall t | t in all
      ensures IsTuple(n, t)
    {
      var i :| 0 <= i < |all| && all[i] == t;
      ExtMembers(n, [], i);
    }
    forall t | IsTuple(n, t)
      ensures t in all
    {
      ExtComplete(n, [], t);
    }
    forall i | 0 <= i < |all|
      ensures Rank(n, all[i]) == i
    {
      ExtRank(n, [], i);
    }
  }

  // ---------------------------------------------------------------------
  // The first assignment the rule accepts

  /** The position of the first assignment in l that `isValidMove`
      accepts, or |l| when there is none. */
  function FirstValid(n: nat, area: Core.Grid, l: seq<seq<int>>): (k: nat)
    requires Core.IsSquare(n, area)
    ensures k <= |l|
    ensures k < |l| ==> Core.ValidPlacement(l[k], n, area)
    ensures forall i :: 0 <= i < k ==> !Core.ValidPlacement(l[i], n, area)
  {
    if l == [] then 0
    else if Core.ValidPlacement(l[0], n, area) then 0
    else 1 + FirstValid(n, area, l[1..])
  }

  /** Searching a + b: first a, then, when a holds no hit, b. */
  lemma {:induction false} FirstValidAppend(n: nat, area: Core.Grid, a: seq<seq<int>>, b: seq<seq<int>>)
    requires Core.IsSquare(n, area)
    ensures FirstValid(n, area, a + b) ==
      if FirstValid(n, area, a) < |a| then FirstValid(n, area, a) else |a| + FirstValid(n, area, b)
  {
    if a != [] {
      assert (a + b)[0] == a[0];
      assert (a + b)[1..] == a[1..] + b;
      FirstValidAppend(n, area, a[1..], b);
      if !Core.ValidPlacement(a[0], n, area) {
        assert FirstValid(n, area, a + b) == 1 + FirstValid(n, area, a[1..] + b);
        assert FirstValid(n, area, a) == 1 + FirstValid(n, area, a[1..]);
      }
    } else {
      assert a + b == b;
    }
  }

  /** The first hit of the enumeration is the lexicographically smallest
      legal placement, there is one exactly when some complete
      assignment is legal, and it has rank = its position. */
  lemma FirstValidIsLexSmallest(n: nat, area: Core.Grid)
    requires Core.IsSquare(n, area)
    ensures var all := Enumeration(n); var k := FirstValid(n, area, all);
      (k < |all| <==> exists t :: IsTuple(n, t) && Core.ValidPlacement(t, n, area)) &&
      (k < |all| ==>
        IsTuple(n, all[k]) && Rank(n, all[k]) == k &&
        forall t :: IsTuple(n, t) && LexLess(t, all[k]) ==> !Core.ValidPlacement(t, n, area))
  {
    var all := Enumeration(n);
    var k := FirstValid(n, area, all);
    EnumerationSpec(n);
    if exists t :: IsTuple(n, t) && Core.ValidPlacement(t, n, area) {
      var t :| IsTuple(n, t) && Core.ValidPlacement(t, n, area);
      assert t in all;
      var j :| 0 <= j < |all| && all[j] == t;
      assert k <= j;
    }
    if k < |all| {
      assert all[k] in all;
      forall t | IsTuple(n, t) && LexLess(t, all[k])
        ensures !Core.ValidPlacement(t, n, area)
      {
        assert t in all;
        var j :| 0 <= j < |all| && all[j] == t;
        if j == k {
          LexLessAsymmetric(t, t);
        } else if j > k {
          LexLessAsymmetric(t, all[k]);
        }
      }
    }
  }

  // ---------------------------------------------------------------------
  // solve

  /** The state `dfs` shares through its closure: the assignment buffer
      `cols` it rewrites in place, and the nonlocal `iterations` and
      `solution`. */
  class Search {
    const n: nat
    const area: Core.Grid
    const cols: array<int>
    var iterations: nat
    var solution: Option<seq<int>>

    ghost predicate Valid()
      reads this
    {
      cols.Length == n && Core.IsSquare(n, area)
    }

    /** `cols = [-1] * n`, `iterations = 0`, `solution = None`. */
    constructor (n: nat, area: Core.Grid)
      requires Core.IsSquare(n, area)
      ensures Valid() && this.n == n && this.area == area && fresh(cols)
      ensures forall i :: 0 <= i < n ==> cols[i] == -1
      ensures iterations == 0 && solution == None
    {
      this.n := n;
      this.area := area;
      cols := new int[n](_ => -1);
      iterations := 0;
      solution := None;
    }

    /** `dfs(row)`: with p = cols[..row], check the completions of p in
        order. It returns True at the first legal one, having counted
        every completion checked up to it, recorded it in `solution` and
        left it in `cols`; otherwise it has counted all n^(n-row) of them,
        left `solution`, kept cols[..row] and reset cols[row..] to -1. */
    method Dfs(row: nat) returns (done: bool)
      requires Valid() && row <= n
      modifies this, cols
      ensures Valid()
      ensures var p := old(cols[..row]); var l := Ext(n, p); var k := FirstValid(n, area, l);
        done == (k < |l|) &&
        iterations == old(iterations) + (if done then k + 1 else |l|) &&
        (done ==> solution == Some(l[k]) && cols[..] == l[k]) &&
        (!done ==> solution == old(solution) && cols[..row] == p &&
                   forall i :: row <= i < n ==> cols[i] == -1)
      decreases n - row
    {
      ghost var p := cols[..row];
      if row == n {
        iterations := iterations + 1;
        assert cols[..] == p;
        var ok := Core.IsValidMove(cols[..], n, area);
        if ok {
          solution := Some(cols[..]);
          return true;
        }
        return false;
      }
      ghost var it0 := iterations;
      for c := 0 to n
        invariant cols[..row] == p
        invariant c > 0 ==> forall i :: row < i < n ==> cols[i] == -1
        invariant iterations == it0 + |ExtUpTo(n, p, c)|
        invariant FirstValid(n, area, ExtUpTo(n, p, c)) == |ExtUpTo(n, p, c)|
        invariant solution == old(solution)
      {
        cols[row] := c;
        assert cols[..row + 1] == p + [c];
        var found := Dfs(row + 1);
        if found {
          FoundAt(n, area, p, c);
          return true;
        }
        assert cols[..row] == cols[..row + 1][..row];
        NoneUpTo(n, area, p, c);
      }
      ExtSplit(n, p, n);
      cols[row] := -1;
      assert cols[..row] == p;
      return false;
    }
  }

  /** When the completions of p before column c hold no legal one and those
      through column c do, the first legal completion of p is found at
      column c, and it sits right after all completions before column c. */
  lemma FoundAt(n: nat, area: Core.Grid, p: seq<int>, c: nat)
    requires Core.IsSquare(n, area) && |p| < n && c < n
    requires FirstValid(n, area, ExtUpTo(n, p, c)) == |ExtUpTo(n, p, c)|
    requires FirstValid(n, area, Ext(n, p + [c])) < |Ext(n, p + [c])|
    ensures var l, q := Ext(n, p), Ext(n, p + [c]);
      FirstValid(n, area, l) == |ExtUpTo(n, p, c)| + FirstValid(n, area, q) < |l| &&
      l[FirstValid(n, area, l)] == q[FirstValid(n, area, q)]
  {
    ExtSplit(n, p, c);
    assert ExtFrom(n, p, c) == Ext(n, p + [c]) + ExtFrom(n, p, c + 1);
    FirstValidAppend(n, area, ExtUpTo(n, p, c), ExtFrom(n, p, c));
    FirstValidAppend(n, area, Ext(n, p + [c]), ExtFrom(n, p, c + 1));
  }

  /** When neither the completions of p before column c nor those through
      column c hold a legal one, none before column c + 1 does. */
  lemma NoneUpTo(n: nat, area: Core.Grid, p: seq<int>, c: nat)
    requires Core.IsSquare(n, area) && |p| < n && c < n
    requires FirstValid(n, area, ExtUpTo(n, p, c)) == |ExtUpTo(n, p, c)|
    requires FirstValid(n, area, Ext(n, p + [c])) == |Ext(n, p + [c])|
    ensures |ExtUpTo(n, p, c + 1)| == |ExtUpTo(n, p, c)| + |Ext(n, p + [c])|
    ensures FirstValid(n, area, ExtUpTo(n, p, c + 1)) == |ExtUpTo(n, p, c + 1)|
  {
    FirstValidAppend(n, area, ExtUpTo(n, p, c), Ext(n, p + [c]));
  }

  /** The record `solve` returns, without its wall-clock `time_ms`. */
  datatype SolveResult = SolveResult(
    n: nat,
    area: Core.Grid,
    found: bool,
    cols: Option<seq<int>>,
    iterations: nat,
    solved: Option<seq<string>>)

  /** r is what `solve` reports for board b: the outcome of checking the
      enumeration in order up to its first legal assignment. */
  predicate SearchOutcome(b: Core.Board, r: SolveResult)
  {
    Core.IsSquare(b.n, b.area) &&
    var all := Enumeration(b.n);
    var k := FirstValid(b.n, b.area, all);
    r.n == b.n && r.area == b.area &&
    r.found == (k < |all|) &&
    r.iterations == (if r.found then k + 1 else |all|) &&
    (r.found ==>
      r.cols == Some(all[k]) && r.solved.Some? &&
      Renderable(b.area, all[k]) && Overlaid(r.solved.value, b.area, all[k])) &&
    (!r.found ==> r.cols == None && r.solved == None)
  }

  /** `solve(path)` on the lines of the file: parse, search, render. */
  method Solve(raw: seq<string>) returns (res: Result<SolveResult, Core.BoardError>)
    ensures Core.Parse(raw).Failure? ==> res == Failure(Core.Parse(raw).error)
    ensures Core.Parse(raw).Success? ==> res.Success? && SearchOutcome(Core.Parse(raw).value, res.value)
    ensures res.Success? ==>
      var r := res.value;
      (r.found <==> exists t :: IsTuple(r.n, t) && Core.ValidPlacement(t, r.n, r.area)) &&
      (r.found ==>
        r.cols.Some? && IsTuple(r.n, r.cols.value) &&
        Core.ValidPlacement(r.cols.value, r.n, r.area) &&
        r.iterations == Rank(r.n, r.cols.value) + 1 &&
        forall t :: IsTuple(r.n, t) && LexLess(t, r.cols.value) ==> !Core.ValidPlacement(t, r.n, r.area)) &&
      (!r.found ==> r.iterations == Pow(r.n, r.n))
  {
    var parsed := Core.ParseBoard(raw);
    if parsed.Failure? {
      return Failure(parsed.error);
    }
    Core.ParseSpec(raw);
    var n, area := parsed.value.n, parsed.value.area;
    var s := new Search(n, area);
    assert s.cols[..0] == [];
    var _ := s.Dfs(0);
    var solved: Option<seq<string>> := None;
    if s.solution.Some? {
      var out := BoardFormat(area, s.solution.value);
      solved := Some(out);
    }
    res := Success(SolveResult(n, area, s.solution.Some?, s.solution, s.iterations, solved));
    assert SearchOutcome(parsed.value, res.value);
    OutcomeMeaning(parsed.value, res.value);
  }

  /** What a search outcome means without the enumeration: a solution is
      found exactly when a legal assignment exists; it is then the
      lexicographically smallest one and the iteration count is its rank
      plus one; otherwise all n^n assignments were counted. */
  lemma OutcomeMeaning(b: Core.Board, r: SolveResult)
    requires SearchOutcome(b, r)
    ensures (r.found <==> exists t :: IsTuple(r.n, t) && Core.ValidPlacement(t, r.n, r.area)) &&
      (r.found ==>
        r.cols.Some? && IsTuple(r.n, r.cols.value) &&
        Core.ValidPlacement(r.cols.value, r.n, r.area) &&
        r.iterations == Rank(r.n, r.cols.value) + 1 &&
        forall t :: IsTuple(r.n, t) && LexLess(t, r.cols.value) ==> !Core.ValidPlacement(t, r.n, r.area)) &&
      (!r.found ==> r.iterations == Pow(r.n, r.n))
  {
    FirstValidIsLexSmallest(b.n, b.area);
    EnumerationSpec(b.n);
  }
}
