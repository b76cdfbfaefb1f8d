/** The recursive enumerator `solve`: depth-first search that branches on the
    first empty cell at or after the start position, over its candidates in
    ascending order, each child restarting its scan at position 0. */
module Solver {
  import opened Seqs
  import opened Grid
  import opened Validate
  import opened CandidateEngine

  datatype Option<T> = None | Some(value: T)

  /** The scan loop: the first position at or after `start` whose cell is empty. */
  function FirstEmpty(b: Board, start: nat): (r: Option<nat>)
    ensures r.Some? ==>
      start <= r.value < 81 && !IsDigit(b[r.value]) &&
      forall i :: start <= i < r.value ==> IsDigit(b[i])
    ensures r.None? ==> forall i :: start <= i < 81 ==> IsDigit(b[i])
    decreases 81 - start
  {
    if start >= 81 then None
    else if !IsDigit(b[start]) then Some(start)
    else FirstEmpty(b, start + 1)
  }

  /** Number of empty cells. */
  function EmptyCount(s: seq<char>): nat {
    if s == [] then 0
    else (if IsDigit(s[0]) then 0 else 1) + EmptyCount(s[1..])
  }

  /** Placing a digit in an empty cell leaves one empty cell fewer. */
  lemma {:induction false} PlaceDigitCount(s: seq<char>, p: nat, c: char)
    requires p < |s| && !IsDigit(s[p]) && IsDigit(c)
    ensures EmptyCount(s) >= 1
    ensures EmptyCount(s[p := c]) == EmptyCount(s) - 1
    decreases |s|
  {
    if p > 0 {
      PlaceDigitCount(s[1..], p - 1, c);
      assert s[p := c][1..] == s[1..][p - 1 := c];
    } else {
      assert s[p := c][1..] == s[1..];
    }
  }

  /** `s` agrees with `g` at every cell where `g` holds a digit: only `g`'s
      empty cells may differ. */
  predicate Extends(s: Board, g: Board) {
    forall i :: 0 <= i < 81 && IsDigit(g[i]) ==> s[i] == g[i]
  }

  /** `solve(game, start)`: every completion yielded is complete and keeps every
      digit of `game`. */
  function Solve(g: Board, start: nat): (r: seq<Board>)
    ensures forall s :: s in r ==> IsComplete(s) && Extends(s, g)
    decreases EmptyCount(g), 1
  {
    match FirstEmpty(g, start)
    case None => if IsComplete(g) then [g] else []
    case Some(p) => Branches(g, p, Candidates(g, p % 9, p / 9))
  }

  /** The loop over the candidates `cs` of the empty cell `p`: the solutions of
      each placement in turn, each solved from position 0. */
  function Branches(g: Board, p: nat, cs: seq<char>): (r: seq<Board>)
    requires p < 81 && !IsDigit(g[p])
    requires forall c :: c in cs ==> IsDigit(c)
    ensures forall s :: s in r ==> IsComplete(s) && Extends(s, g) && s[p] in cs
    decreases EmptyCount(g), 0, |cs|
  {
    if cs == [] then []
    else
      PlaceDigitCount(g, p, cs[0]);
      Solve(g[p := cs[0]], 0) + Branches(g, p, cs[1..])
  }

  /** The digit a solution puts in an empty cell is one of that cell's candidates. */
  lemma SolutionDigitIsCandidate(g: Board, s: Board, p: nat)
    requires IsComplete(s) && Extends(s, g)
    requires p < 81 && !IsDigit(g[p])
    ensures s[p] in Candidates(g, p % 9, p / 9)
  {
    CompleteIsFilled(s);
    CompleteUnitsAreDistinct(s, p % 9, p / 9);
    NotInRow(g, s, p);
    NotInCol(g, s, p);
    NotInSquare(g, s, p);
  }

  lemma NotInRow(g: Board, s: Board, p: nat)
    requires p < 81 && !IsDigit(g[p]) && IsDigit(s[p]) && Extends(s, g)
    requires Distinct(Row(s, p / 9))
    ensures s[p] !in Row(g, p / 9)
  {
    var y := p / 9;
    CellInItsUnits(s, p);
    NotInUnit(g, s, p, Row(g, y), Row(s, y), seq(9, j requires 0 <= j < 9 => 9 * y + j), p % 9);
  }

  lemma NotInCol(g: Board, s: Board, p: nat)
    requires p < 81 && !IsDigit(g[p]) && IsDigit(s[p]) && Extends(s, g)
    requires Distinct(Col(s, p % 9))
    ensures s[p] !in Col(g, p % 9)
  {
    var x := p % 9;
    CellInItsUnits(s, p);
    NotInUnit(g, s, p, Col(g, x), Col(s, x), seq(9, k requires 0 <= k < 9 => 9 * k + x), p / 9);
  }

  lemma NotInSquare(g: Board, s: Board, p: nat)
    requires p < 81 && !IsDigit(g[p]) && IsDigit(s[p]) && Extends(s, g)
    requires Distinct(Square(s, p % 9, p / 9))
    ensures s[p] !in Square(g, p % 9, p / 9)
  {
    var x, y := p % 9, p / 9;
    CellInItsUnits(s, p);
    NotInUnit(g, s, p, Square(g, x, y), Square(s, x, y),
      seq(9, k requires 0 <= k < 9 => SquareCell(x, y, k)), 3 * (y % 3) + x % 3);
  }

  /** A unit of a solution repeats no digit, so the digit at `p` is absent from
      the same unit of `g`. */
  lemma NotInUnit(g: Board, s: Board, p: nat, ug: seq<char>, us: seq<char>, cells: seq<int>, i: nat)
    requires |ug| == |us| == |cells| && i < |cells| && cells[i] == p
    requires forall j :: 0 <= j < |cells| ==> 0 <= cells[j] < 81 && ug[j] == g[cells[j]] && us[j] == s[cells[j]]
    requires Distinct(us) && Extends(s, g)
    requires p < 81 && !IsDigit(g[p]) && IsDigit(s[p])
    ensures s[p] !in ug
  {
    forall j | 0 <= j < |ug| ensures ug[j] != s[p] {
      if cells[j] != p && IsDigit(g[cells[j]]) {
        assert ug[j] == us[j] && j != i;
      }
    }
  }

  /** If the candidates of some empty cell run out, no completion exists at all:
      the pruning of `solve` never discards a solution. */
  lemma DeadEndHasNoSolution(g: Board, p: nat, s: Board)
    requires p < 81 && !IsDigit(g[p])
    requires Candidates(g, p % 9, p / 9) == []
    ensures !(IsComplete(s) && Extends(s, g))
  {
    if IsComplete(s) && Extends(s, g) {
      SolutionDigitIsCandidate(g, s, p);
    }
  }

  /** When every cell before `start` holds a digit, the scan from `start`
      finds the same cell as a scan from 0, so `start` does not matter. */
  lemma StartSkipsFilledCells(g: Board, start: nat)
    requires forall i :: 0 <= i < start && i < 81 ==> IsDigit(g[i])
    ensures Solve(g, start) == Solve(g, 0)
  {
    assert FirstEmpty(g, start) == FirstEmpty(g, 0) by {
      match FirstEmpty(g, 0)
      case None =>
      case Some(p) =>
    }
  }

  /** A completion of the placement is found among the branches of a candidate list holding that digit. */
  lemma {:induction false} BranchesContain(g: Board, p: nat, cs: seq<char>, c: char, s: Board)
    requires p < 81 && !IsDigit(g[p])
    requires forall d :: d in cs ==> IsDigit(d)
    requires c in cs && s in Solve(g[p := c], 0)
    ensures s in Branches(g, p, cs)
    decreases |cs|
  {
    if cs[0] != c {
      BranchesContain(g, p, cs[1..], c, s);
    }
  }

  /** Completeness: every complete board that keeps the digits of `g` is yielded. */
  lemma {:induction false} SolveFindsEverySolution(g: Board, s: Board)
    requires IsComplete(s) && Extends(s, g)
    ensures s in Solve(g, 0)
    decreases EmptyCount(g)
  {
    CompleteIsFilled(s);
    match FirstEmpty(g, 0)
    case None =>
      assert s == g;
    case Some(p) =>
      var c := s[p];
      SolutionDigitIsCandidate(g, s, p);
      PlaceDigitCount(g, p, c);
      SolveFindsEverySolution(g[p := c], s);
      BranchesContain(g, p, Candidates(g, p % 9, p / 9), c, s);
  }

  /** Each solution is yielded once: `solve` never repeats a board. */
  lemma {:induction false} SolveDistinct(g: Board, start: nat)
    ensures Distinct(Solve(g, start))
    decreases EmptyCount(g), 1
  {
    match FirstEmpty(g, start)
    case None =>
    case Some(p) =>
      BranchesDistinct(g, p, Candidates(g, p % 9, p / 9));
  }

  /** The branches over distinct candidates yield distinct boards: boards from
      different branches differ at `p`. */
  lemma {:induction false} BranchesDistinct(g: Board, p: nat, cs: seq<char>)
    requires p < 81 && !IsDigit(g[p])
    requires forall c :: c in cs ==> IsDigit(c)
    requires Increasing(cs)
    ensures Distinct(Branches(g, p, cs))
    decreases EmptyCount(g), 0, |cs|
  {
    if cs != [] {
      var g' := g[p := cs[0]];
      PlaceDigitCount(g, p, cs[0]);
      SolveDistinct(g', 0);
      assert Increasing(cs[1..]) by {
        forall i, j | 0 <= i < j < |cs| - 1 ensures cs[1..][i] < cs[1..][j] {
          assert cs[1..][i] == cs[i + 1] && cs[1..][j] == cs[j + 1];
        }
      }
      BranchesDistinct(g, p, cs[1..]);
      forall s | s in Solve(g', 0) ensures s !in Branches(g, p, cs[1..]) {
        assert s[p] == cs[0];
        forall k | 0 <= k < |cs| - 1 ensures cs[1..][k] != cs[0] {
          assert cs[1..][k] == cs[k + 1];
        }
      }
      DistinctConcat(Solve(g', 0), Branches(g, p, cs[1..]));
    }
  }

  /** `solve` enumerates exactly the completions of `g`, each once, provided the
      scan does not start past an empty cell. */
  lemma SolveEnumeratesCompletions(g: Board, start: nat)
    requires forall i :: 0 <= i < start && i < 81 ==> IsDigit(g[i])
    ensures Distinct(Solve(g, start))
    ensures forall s: Board :: s in Solve(g, start) <==> IsComplete(s) && Extends(s, g)
  {
    SolveDistinct(g, start);
    StartSkipsFilledCells(g, start);
    forall s: Board | IsComplete(s) && Extends(s, g) ensures s in Solve(g, start) {
      SolveFindsEverySolution(g, s);
    }
  }
}
