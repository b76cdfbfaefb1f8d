/** The iterative enumerator `solve_iter`: the same search driven by an explicit
    last-in-first-out stack of `(board, start)` frames, where each child frame
    resumes its scan at the position just filled. */
module IterativeSolver {
  import opened Seqs
  import opened Grid
  import opened Validate
  import opened CandidateEngine
  import opened Solver

  /** One entry of the work stack: a board and the position its scan starts at. */
  datatype Frame = Frame(board: Board, start: nat)

  /** Every cell the scan of a frame skips over holds a digit. */
  predicate ScannedFilled(b: Board, start: nat) {
    forall i :: 0 <= i < start && i < 81 ==> IsDigit(b[i])
  }

  /** What processing a frame to exhaustion yields: the solutions of `solve` in
      reverse order, or nothing when an empty cell lies before its start. */
  function FrameOutput(f: Frame): seq<Board> {
    if ScannedFilled(f.board, f.start) then Reversed(Solve(f.board, f.start)) else []
  }

  /** A frame that does not start past an empty cell yields every completion of
      its board exactly once; one that does yields nothing. */
  lemma FrameOutputEnumerates(b: Board, start: nat)
    ensures Distinct(FrameOutput(Frame(b, start)))
    ensures forall s: Board :: s in FrameOutput(Frame(b, start)) <==>
      ScannedFilled(b, start) && IsComplete(s) && Extends(s, b)
  {
    if ScannedFilled(b, start) {
      SolveEnumeratesCompletions(b, start);
      ReversedElems(Solve(b, start));
      ReversedDistinct(Solve(b, start));
    }
  }

  /** What a whole stack yields, its top (last) frame first. */
  function StackOutput(stack: seq<Frame>): seq<Board> {
    if stack == [] then []
    else FrameOutput(stack[|stack| - 1]) + StackOutput(stack[..|stack| - 1])
  }

  /** The frames pushed for the candidates `cs` of the empty cell `p`, in order. */
  function Children(b: Board, p: nat, cs: seq<char>): (r: seq<Frame>)
    requires p < 81
    ensures |r| == |cs|
    ensures forall j :: 0 <= j < |cs| ==> r[j] == Frame(b[p := cs[j]], p)
  {
    seq(|cs|, j requires 0 <= j < |cs| => Frame(b[p := cs[j]], p))
  }

  function Pow10(n: nat): (r: nat)
    ensures r >= 1
  {
    if n == 0 then 1 else 10 * Pow10(n - 1)
  }

  /** Termination measure of the main loop: a frame with `k` empty cells weighs
      `10^k`, and it is replaced by at most nine frames with `k - 1`. */
  function StackWeight(stack: seq<Frame>): nat {
    if stack == [] then 0
    else StackWeight(stack[..|stack| - 1]) + Pow10(EmptyCount(stack[|stack| - 1].board))
  }

  /** Pushing `f` puts what it yields in front and adds its weight. */
  lemma PushTop(s: seq<Frame>, f: Frame)
    ensures StackOutput(s + [f]) == FrameOutput(f) + StackOutput(s)
    ensures StackWeight(s + [f]) == StackWeight(s) + Pow10(EmptyCount(f.board))
  {
    assert (s + [f])[..|s|] == s;
  }

  /** Stacking `b` on top of `a`: what `b` yields comes first. */
  lemma {:induction false} StackAppend(a: seq<Frame>, b: seq<Frame>)
    ensures StackOutput(a + b) == StackOutput(b) + StackOutput(a)
    ensures StackWeight(a + b) == StackWeight(a) + StackWeight(b)
    decreases |b|
  {
    if b == [] {
      assert a + b == a;
    } else {
      var b', f := b[..|b| - 1], b[|b| - 1];
      assert b == b' + [f];
      assert a + b == (a + b') + [f];
      StackAppend(a, b');
      PushTop(a + b', f);
      PushTop(b', f);
      Assoc(FrameOutput(f), StackOutput(b'), StackOutput(a));
    }
  }

  /** `n` copies of `w` added up. */
  function Repeat(n: nat, w: nat): nat {
    if n == 0 then 0 else Repeat(n - 1, w) + w
  }

  /** `n` copies of `w` add up to `n * w`, less than `10 * w` when `n` is below ten. */
  lemma {:induction false} RepeatBelowTen(n: nat, w: nat)
    requires n < 10 && w >= 1
    ensures Repeat(n, w) == n * w
    ensures Repeat(n, w) < 10 * w
    decreases n
  {
    if n > 0 {
      RepeatBelowTen(n - 1, w);
      assert n * w == (n - 1) * w + w;
    }
    assert 10 * w == n * w + (10 - n) * w;
    assert (10 - n) * w >= w;
  }

  /** Dropping the last candidate drops the last child frame. */
  lemma ChildrenPrefix(b: Board, p: nat, cs: seq<char>)
    requires p < 81 && cs != []
    ensures Children(b, p, cs)[..|cs| - 1] == Children(b, p, cs[..|cs| - 1])
    ensures Children(b, p, cs)[|cs| - 1] == Frame(b[p := cs[|cs| - 1]], p)
  {
  }

  /** Each child of an empty cell with `k` empty cells weighs `10^(k-1)`. */
  lemma {:induction false} ChildrenWeight(b: Board, p: nat, cs: seq<char>, w: nat)
    requires p < 81 && !IsDigit(b[p])
    requires forall c :: c in cs ==> IsDigit(c)
    requires EmptyCount(b) >= 1 && w == Pow10(EmptyCount(b) - 1)
    ensures StackWeight(Children(b, p, cs)) == Repeat(|cs|, w)
    decreases |cs|
  {
    if cs != [] {
      var n := |cs|;
      var kids := Children(b, p, cs);
      ChildrenPrefix(b, p, cs);
      ChildrenWeight(b, p, cs[..n - 1], w);
      PlaceDigitCount(b, p, cs[n - 1]);
      assert StackWeight(kids) == StackWeight(kids[..n - 1]) + w;
    }
  }

  /** Reading the children of the empty cell `p` off the stack yields the
      branches of `solve` backwards. */
  lemma {:induction false} ChildrenOutput(b: Board, p: nat, cs: seq<char>)
    requires p < 81 && !IsDigit(b[p]) && ScannedFilled(b, p)
    requires forall c :: c in cs ==> IsDigit(c)
    ensures StackOutput(Children(b, p, cs)) == Reversed(Branches(b, p, cs))
    decreases |cs|
  {
    if cs != [] {
      var child := b[p := cs[0]];
      ChildrenCons(b, p, cs);
      StackAppend([Frame(child, p)], Children(b, p, cs[1..]));
      ChildrenOutput(b, p, cs[1..]);
      ChildOutput(b, p, cs[0]);
      ReversedConcat(Solve(child, 0), Branches(b, p, cs[1..]));
    }
  }

  /** The first candidate's frame sits at the bottom of the children. */
  lemma ChildrenCons(b: Board, p: nat, cs: seq<char>)
    requires p < 81 && cs != []
    ensures Children(b, p, cs) == [Frame(b[p := cs[0]], p)] + Children(b, p, cs[1..])
  {
  }

  /** A child frame, resuming at the cell just filled, yields what `solve`
      yields for the child board from position 0, backwards. */
  lemma ChildOutput(b: Board, p: nat, c: char)
    requires p < 81 && ScannedFilled(b, p)
    ensures StackOutput([Frame(b[p := c], p)]) == Reversed(Solve(b[p := c], 0))
  {
    var child := b[p := c];
    assert ScannedFilled(child, p);
    StartSkipsFilledCells(child, p);
    assert [Frame(child, p)][..0] == [];
  }

  /** Children of a frame that starts past an empty cell never yield anything. */
  lemma {:induction false} StrandedChildrenOutput(b: Board, start: nat, p: nat, cs: seq<char>)
    requires start <= p < 81 && !ScannedFilled(b, start)
    ensures StackOutput(Children(b, p, cs)) == []
    decreases |cs|
  {
    if cs != [] {
      var n := |cs|;
      assert Children(b, p, cs)[..n - 1] == Children(b, p, cs[..n - 1]);
      StrandedChildrenOutput(b, start, p, cs[..n - 1]);
      var i :| 0 <= i < start && i < 81 && !IsDigit(b[i]);
      assert !IsDigit(b[p := cs[n - 1]][i]);
    }
  }

  /** What a popped frame yields at once: its board, when complete. */
  function Leaf(f: Frame): seq<Board> {
    if IsComplete(f.board) then [f.board] else []
  }

  /** Popping `f` and pushing `pushed` loses nothing and gains nothing: what `f`
      yields at once followed by what `pushed` yields is what `f` stands for,
      and `pushed` weighs less than `f`. */
  predicate ProcessedAs(f: Frame, pushed: seq<Frame>) {
    && Leaf(f) + StackOutput(pushed) == FrameOutput(f)
    && StackWeight(pushed) < Pow10(EmptyCount(f.board))
  }

  /** A frame whose scan finds no empty cell yields its board iff it is
      complete, and pushes nothing. */
  lemma LeafOutput(b: Board, start: nat)
    requires FirstEmpty(b, start).None?
    ensures ProcessedAs(Frame(b, start), [])
  {
    if !ScannedFilled(b, start) {
      var i :| 0 <= i < start && i < 81 && !IsDigit(b[i]);
      EmptyCellIsNotComplete(b, i);
    }
  }

  /** A frame whose scan stops at the empty cell `p` yields nothing itself, and
      the children it pushes together yield what the frame stands for. */
  lemma BranchOutput(b: Board, start: nat, p: nat)
    requires FirstEmpty(b, start) == Some(p)
    ensures !IsComplete(b)
    ensures ProcessedAs(Frame(b, start), Children(b, p, Candidates(b, p % 9, p / 9)))
  {
    var cs := Candidates(b, p % 9, p / 9);
    EmptyCellIsNotComplete(b, p);
    BranchYield(b, start, p);
    BranchWeight(b, p, cs);
  }

  /** The children of the frame's first empty cell yield what the frame stands for. */
  lemma BranchYield(b: Board, start: nat, p: nat)
    requires FirstEmpty(b, start) == Some(p)
    ensures StackOutput(Children(b, p, Candidates(b, p % 9, p / 9))) == FrameOutput(Frame(b, start))
  {
    var cs := Candidates(b, p % 9, p / 9);
    if ScannedFilled(b, start) {
      assert Solve(b, start) == Branches(b, p, cs);
      ChildrenOutput(b, p, cs);
    } else {
      StrandedChildrenOutput(b, start, p, cs);
    }
  }

  /** The children of an empty cell weigh less than their parent. */
  lemma BranchWeight(b: Board, p: nat, cs: seq<char>)
    requires p < 81 && !IsDigit(b[p])
    requires forall c :: c in cs ==> IsDigit(c)
    requires |cs| <= 9
    ensures StackWeight(Children(b, p, cs)) < Pow10(EmptyCount(b))
  {
    PlaceDigitCount(b, p, '1');
    var w := Pow10(EmptyCount(b) - 1);
    ChildrenWeight(b, p, cs, w);
    RepeatBelowTen(|cs|, w);
  }

  /** Popping the top frame off a non-empty stack splits what it yields and
      what it weighs into the top frame's and the rest's. */
  lemma PopTop(stack: seq<Frame>)
    requires stack != []
    ensures StackOutput(stack) == FrameOutput(stack[|stack| - 1]) + StackOutput(stack[..|stack| - 1])
    ensures StackWeight(stack) == StackWeight(stack[..|stack| - 1]) + Pow10(EmptyCount(stack[|stack| - 1].board))
  {
  }

  /** Replacing the top frame by what it pushes, and emitting its leaf, keeps
      the total output and lowers the weight. */
  lemma StackStep(out: seq<Board>, rest: seq<Frame>, f: Frame, pushed: seq<Frame>, goal: seq<Board>)
    requires out + (FrameOutput(f) + StackOutput(rest)) == goal
    requires ProcessedAs(f, pushed)
    ensures (out + Leaf(f)) + StackOutput(rest + pushed) == goal
    ensures StackWeight(rest + pushed) < StackWeight(rest) + Pow10(EmptyCount(f.board))
  {
    StackAppend(rest, pushed);
    Regroup(out, Leaf(f), StackOutput(pushed), StackOutput(rest));
  }

  /** The scan loop of one frame: the first empty cell at or after `start`, or
      81 when there is none. */
  method Scan(b: Board, start: nat) returns (position: nat)
    ensures position == match FirstEmpty(b, start) case None => 81 case Some(p) => p
  {
    position := start;
    while position < 81 && IsDigit(b[position])
      invariant start <= position
      invariant FirstEmpty(b, position) == FirstEmpty(b, start)
      decreases 81 - position
    {
      position := position + 1;
    }
    if position >= 81 {
      position := 81;
    }
  }

  /** Pushes one frame per candidate, in candidate order. */
  method PushChildren(state: seq<Frame>, b: Board, p: nat, cs: seq<char>) returns (r: seq<Frame>)
    requires p < 81
    ensures r == state + Children(b, p, cs)
  {
    r := state;
    for k := 0 to |cs|
      invariant r == state + Children(b, p, cs[..k])
    {
      assert cs[..k + 1] == cs[..k] + [cs[k]];
      r := r + [Frame(b[p := cs[k]], p)];
    }
    assert cs[..|cs|] == cs;
  }

  /** `solve_iter(game, start)`: yields exactly the boards `solve` yields, in
      reverse order, unless an empty cell lies before `start`, in which case it
      yields nothing. */
  method SolveIter(game: Board, startAt: nat) returns (out: seq<Board>)
    ensures out == if ScannedFilled(game, startAt) then Reversed(Solve(game, startAt)) else []
    ensures Distinct(out)
    ensures forall s: Board :: s in out <==>
      ScannedFilled(game, startAt) && IsComplete(s) && Extends(s, game)
  {
    var state := [Frame(game, startAt)];
    out := [];
    ghost var goal := FrameOutput(Frame(game, startAt));
    PopTop(state);
    while |state| > 0
      invariant out + StackOutput(state) == goal
      decreases StackWeight(state)
    {
      PopTop(state);
      var frame := state[|state| - 1];
      state := state[..|state| - 1];
      ghost var pushed: seq<Frame> := [];
      var b := frame.board;
      var position := Scan(b, frame.start);
      if position < 81 {
        var candidates := Candidates(b, position % 9, position / 9);
        BranchOutput(b, frame.start, position);
        pushed := Children(b, position, candidates);
        StackStep(out, state, frame, pushed, goal);
        state := PushChildren(state, b, position, candidates);
      } else {
        LeafOutput(b, frame.start);
        StackStep(out, state, frame, pushed, goal);
        assert state + pushed == state;
      }
      assert out + Leaf(frame) + StackOutput(state) == goal;
      if IsComplete(b) {
        out := out + [b];
      } else {
        assert out + Leaf(frame) == out;
      }
      assert out + StackOutput(state) == goal;
    }
    FrameOutputEnumerates(game, startAt);
  }
}
