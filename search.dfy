/** The unpruned minimax search (`evaluate_moves_first`, `evaluate_moves`).
    White (the maximiser) moves each of its pieces in ascending cell order,
    Black (the minimiser) likewise through the mirrored board; a node is a
    leaf at depth 0 or when its estimate is exactly +-100, and every leaf
    scored is appended to one shared log. */
module Search {
  import opened SeqIndex
  import opened Board
  import opened MoveGenerator
  import opened Estimator

  /** A position with its estimate (`BlackMove` in MiniMaxBlack, `Move` in
      MiniMaxImproved), as an immutable value. */
  datatype Move = Move(position: seq<Cell>, estimate: int)

  /** The `moves` list shared by the whole search: every scored leaf is
      appended to it. */
  class MoveLog {
    var entries: seq<Move>

    constructor ()
      ensures entries == []
    {
      entries := [];
    }

    method Add(m: Move)
      modifies this
      ensures entries == old(entries) + [m]
    {
      entries := entries + [m];
    }
  }

  /** `Integer.MIN_VALUE` and `Integer.MAX_VALUE`, the sentinels of the
      inner nodes. */
  const IntMin := -0x8000_0000
  const IntMax := 0x7fff_ffff

  /** The cell holds a piece of the side to move (White when `max`). */
  predicate IsOwn(c: Cell, max: bool) {
    if max then IsWhite(c) else IsBlack(c)
  }

  /** `a` is strictly better than `b` for the side to move. */
  predicate Better(a: int, b: int, max: bool) {
    if max then a > b else a < b
  }

  /** The position after the side to move has moved its piece on `i`. */
  function Child(p: seq<Cell>, i: int, max: bool): (r: seq<Cell>)
    requires IsBoard(p) && 0 <= i < 16
    ensures IsBoard(r)
  {
    if max then Moved(p, i) else BlackMoved(p, i)
  }

  /** The cells below `n` holding a piece of the side to move, ascending. */
  function Movers(p: seq<Cell>, max: bool, n: int): (ms: seq<int>)
    requires 0 <= n <= |p|
    ensures |ms| <= n
  {
    if n == 0 then [] else Movers(p, max, n - 1) + if IsOwn(p[n - 1], max) then [n - 1] else []
  }

  /** `Movers` lists exactly the cells below `n` holding a piece of the side
      to move, each once, in ascending order. */
  lemma {:induction false} MoversSpec(p: seq<Cell>, max: bool, n: int)
    requires 0 <= n <= |p|
    ensures var ms := Movers(p, max, n);
      (forall k, l :: 0 <= k < l < |ms| ==> ms[k] < ms[l]) &&
      (forall j :: j in ms <==> 0 <= j < n && IsOwn(p[j], max))
  {
    if n > 0 {
      MoversSpec(p, max, n - 1);
      var ms, ms' := Movers(p, max, n - 1), Movers(p, max, n);
      assert forall k :: 0 <= k < |ms| ==> ms[k] < n - 1 by {
        forall k | 0 <= k < |ms|
          ensures ms[k] < n - 1
        {
          assert ms[k] in ms;
        }
      }
      assert forall k :: 0 <= k < |ms| ==> ms'[k] == ms[k];
    }
  }

  /** The search stops at depth 0 and at a position scored exactly +-100. */
  predicate IsLeaf(v: Variant, p: seq<Cell>, depth: nat)
    requires IsBoard(p)
  {
    depth == 0 || Estimate(v, p) == 100 || Estimate(v, p) == -100
  }

  /** The best of the values for the side to move, the earliest one winning
      a tie. */
  function Extreme(s: seq<int>, max: bool): (r: int)
    requires |s| > 0
  {
    if |s| == 1 then s[0]
    else
      var e := Extreme(s[..|s| - 1], max);
      if Better(s[|s| - 1], e, max) then s[|s| - 1] else e
  }

  /** `Extreme` is one of the values and no value is strictly better. */
  lemma {:induction false} ExtremeSpec(s: seq<int>, max: bool)
    requires |s| > 0
    ensures Extreme(s, max) in s
    ensures forall k :: 0 <= k < |s| ==> !Better(s[k], Extreme(s, max), max)
  {
    if |s| > 1 {
      var t := s[..|s| - 1];
      ExtremeSpec(t, max);
      assert s == t + [s[|s| - 1]];
    }
  }

  /** The estimates of `rs`, in order. */
  function Estimates(rs: seq<Move>): (es: seq<int>)
  {
    seq(|rs|, k requires 0 <= k < |rs| => rs[k].estimate)
  }

  /** The minimax value of a node. */
  function Value(v: Variant, p: seq<Cell>, depth: nat, max: bool): int
    requires IsBoard(p)
    decreases depth, 0, 0
  {
    if IsLeaf(v, p, depth) then Estimate(v, p)
    else
      NonLeafHasMover(v, p, depth, max);
      Extreme(Estimates(Children(v, p, depth - 1, max, 16)), max)
  }

  /** What the search returns for each move of a piece on a cell below `n`,
      in ascending cell order. */
  function Children(v: Variant, p: seq<Cell>, d: nat, max: bool, n: int): (rs: seq<Move>)
    requires IsBoard(p) && 0 <= n <= 16
    ensures |rs| == |Movers(p, max, n)|
    decreases d, 1, n
  {
    if n == 0 then []
    else if IsOwn(p[n - 1], max) then
      var c := Child(p, n - 1, max);
      Children(v, p, d, max, n - 1) + [Move(c, Value(v, c, d, !max))]
    else Children(v, p, d, max, n - 1)
  }

  /** The leaves the search scores below a node, in the order it scores
      them. */
  function Leaves(v: Variant, p: seq<Cell>, depth: nat, max: bool): seq<Move>
    requires IsBoard(p)
    decreases depth, 0, 0
  {
    if IsLeaf(v, p, depth) then [Move(p, Estimate(v, p))]
    else ChildLeaves(v, p, depth - 1, max, 16)
  }

  /** The leaves scored below each move of a piece on a cell below `n`,
      concatenated. */
  function ChildLeaves(v: Variant, p: seq<Cell>, d: nat, max: bool, n: int): seq<Move>
    requires IsBoard(p) && 0 <= n <= 16
    decreases d, 1, n
  {
    if n == 0 then []
    else if IsOwn(p[n - 1], max) then
      ChildLeaves(v, p, d, max, n - 1) + Leaves(v, Child(p, n - 1, max), d, !max)
    else ChildLeaves(v, p, d, max, n - 1)
  }

  /** The root's side: Black (minimiser) in MiniMaxBlack, White (maximiser)
      in MiniMaxImproved. */
  predicate RootMaximises(v: Variant) {
    v == Improved
  }

  /** The result of the root call: the first child with the best value, as
      that child's own result. */
  function RootResult(v: Variant, p: seq<Cell>, depth: nat): Move
    requires IsBoard(p)
  {
    if IsLeaf(v, p, depth) then Move(p, Estimate(v, p))
    else
      var max := RootMaximises(v);
      NonLeafHasMover(v, p, depth, max);
      var rs := Children(v, p, depth - 1, max, 16);
      var es := Estimates(rs);
      ExtremeSpec(es, max);
      rs[FirstIndexOf(es, Extreme(es, max))]
  }

  /** A node that is not a leaf has a piece to move, for either side: both
      kings are on the board. */
  lemma NonLeafHasMover(v: Variant, p: seq<Cell>, depth: nat, max: bool)
    requires IsBoard(p) && !IsLeaf(v, p, depth)
    ensures |Movers(p, max, 16)| > 0
  {
    KingsPresent(v, p);
    var king := if max then WhiteKing else BlackKing;
    var j :| 0 <= j < 16 && p[j] == king;
    assert IsOwn(p[j], max);
    MoversSpec(p, max, 16);
    assert j in Movers(p, max, 16);
  }

  // ---------------------------------------------------------------------
  // Steps of the search loop, each stated on its own so that the loop's
  // proof only has to combine them.

  /** A cell without a piece of the side to move adds no child and no
      leaf. */
  lemma SkipStep(v: Variant, p: seq<Cell>, d: nat, max: bool, i: int)
    requires IsBoard(p) && 0 <= i < 16 && !IsOwn(p[i], max)
    ensures Children(v, p, d, max, i + 1) == Children(v, p, d, max, i)
    ensures ChildLeaves(v, p, d, max, i + 1) == ChildLeaves(v, p, d, max, i)
  {
  }

  /** A run of cells without a piece of the side to move adds no child and
      no leaf. */
  lemma {:induction false} SkipRange(v: Variant, p: seq<Cell>, d: nat, max: bool, m: int, n: int)
    requires IsBoard(p) && 0 <= m <= n <= 16
    requires forall k :: m <= k < n ==> !IsOwn(p[k], max)
    ensures Children(v, p, d, max, n) == Children(v, p, d, max, m)
    ensures ChildLeaves(v, p, d, max, n) == ChildLeaves(v, p, d, max, m)
    decreases n
  {
    if m < n {
      SkipRange(v, p, d, max, m, n - 1);
      SkipStep(v, p, d, max, n - 1);
    }
  }

  /** Moving the piece on `i` appends that child's result. */
  lemma ChildrenStep(v: Variant, p: seq<Cell>, d: nat, max: bool, i: int)
    requires IsBoard(p) && 0 <= i < 16 && IsOwn(p[i], max)
    ensures var c := Child(p, i, max);
      Children(v, p, d, max, i + 1) == Children(v, p, d, max, i) + [Move(c, Value(v, c, d, !max))]
  {
  }

  lemma ChildLeavesStep(v: Variant, p: seq<Cell>, d: nat, max: bool, i: int)
    requires IsBoard(p) && 0 <= i < 16 && IsOwn(p[i], max)
    ensures ChildLeaves(v, p, d, max, i + 1) ==
            ChildLeaves(v, p, d, max, i) + Leaves(v, Child(p, i, max), d, !max)
  {
  }

  lemma AppendAssoc<T>(a: seq<T>, b: seq<T>, c: seq<T>)
    ensures (a + b) + c == a + (b + c)
  {
  }

  /** Moving the piece on `i` appends that child's leaves to the log. */
  lemma LogStep(v: Variant, p: seq<Cell>, d: nat, max: bool, i: int, log0: seq<Move>)
    requires IsBoard(p) && 0 <= i < 16 && IsOwn(p[i], max)
    ensures (log0 + ChildLeaves(v, p, d, max, i)) + Leaves(v, Child(p, i, max), d, !max) ==
            log0 + ChildLeaves(v, p, d, max, i + 1)
  {
    ChildLeavesStep(v, p, d, max, i);
    AppendAssoc(log0, ChildLeaves(v, p, d, max, i), Leaves(v, Child(p, i, max), d, !max));
  }

  lemma EstimatesSnoc(rs: seq<Move>, m: Move)
    ensures Estimates(rs + [m]) == Estimates(rs) + [m.estimate]
  {
  }

  lemma EstimatesAppend(rs: seq<Move>, ts: seq<Move>)
    ensures Estimates(rs + ts) == Estimates(rs) + Estimates(ts)
  {
  }


  /** The loop's selection state after the values `es`: nothing chosen yet
      (the sentinel and index 0), or the best value and the first index
      that attains it. */
  predicate Selected(es: seq<int>, max: bool, sentinel: int, best: int, idx: int) {
    if es == [] then best == sentinel && idx == 0
    else best == Extreme(es, max) && idx == FirstIndexOf(es, best)
  }

  /** The loop's strict comparison keeps the selection state, provided the
      sentinel is worse than every value the search can return. */
  lemma SelectUpdate(es: seq<int>, x: int, max: bool, sentinel: int, best: int, idx: int)
    requires Selected(es, max, sentinel, best, idx)
    requires -Bound <= x <= Bound
    requires if max then sentinel < -Bound else sentinel > Bound
    ensures Better(x, best, max) ==> Selected(es + [x], max, sentinel, x, |es|)
    ensures !Better(x, best, max) ==> Selected(es + [x], max, sentinel, best, idx)
  {
    var t := es + [x];
    if es == [] {
      assert t == [x];
    } else {
      assert t[..|t| - 1] == es;
      ExtremeSpec(es, max);
      FirstIndexOfAppend(es, x, Extreme(t, max));
      if Better(x, best, max) {
        assert x !in es by {
          forall k | 0 <= k < |es|
            ensures es[k] != x
          {
          }
        }
      }
    }
  }

  /** Once a value has been seen, the selection is the first best one. */
  lemma SelectedChoice(es: seq<int>, max: bool, sentinel: int, best: int, idx: int)
    requires Selected(es, max, sentinel, best, idx) && |es| > 0
    ensures 0 <= idx < |es| && es[idx] == Extreme(es, max)
    ensures idx == FirstIndexOf(es, Extreme(es, max))
  {
    ExtremeSpec(es, max);
  }

  /** An inner node's value and leaves, in terms of its children. */
  lemma InnerNode(v: Variant, p: seq<Cell>, depth: nat, max: bool)
    requires IsBoard(p) && !IsLeaf(v, p, depth)
    ensures |Children(v, p, depth - 1, max, 16)| > 0
    ensures Value(v, p, depth, max) == Extreme(Estimates(Children(v, p, depth - 1, max, 16)), max)
    ensures Leaves(v, p, depth, max) == ChildLeaves(v, p, depth - 1, max, 16)
  {
    NonLeafHasMover(v, p, depth, max);
  }

  /** The root's result when it is not a leaf: the child result at the first
      index of the best child value. */
  lemma InnerRoot(v: Variant, p: seq<Cell>, depth: nat)
    requires IsBoard(p) && !IsLeaf(v, p, depth)
    ensures var rs := Children(v, p, depth - 1, RootMaximises(v), 16);
      var es := Estimates(rs);
      |rs| > 0 && 0 <= FirstIndexOf(es, Extreme(es, RootMaximises(v))) < |rs| &&
      RootResult(v, p, depth) == rs[FirstIndexOf(es, Extreme(es, RootMaximises(v)))]
  {
    var max := RootMaximises(v);
    NonLeafHasMover(v, p, depth, max);
    ExtremeSpec(Estimates(Children(v, p, depth - 1, max, 16)), max);
  }

  // ---------------------------------------------------------------------
  // Properties of the search.

  /** Every value the search computes is within the estimators' bound. */
  lemma {:induction false} ValueBound(v: Variant, p: seq<Cell>, depth: nat, max: bool)
    requires IsBoard(p)
    ensures -Bound <= Value(v, p, depth, max) <= Bound
    decreases depth, 0, 0
  {
    if !IsLeaf(v, p, depth) {
      InnerNode(v, p, depth, max);
      var rs := Children(v, p, depth - 1, max, 16);
      var es := Estimates(rs);
      ExtremeSpec(es, max);
      var k :| 0 <= k < |es| && es[k] == Extreme(es, max);
      ChildrenBound(v, p, depth - 1, max, 16, k);
      assert es[k] == rs[k].estimate;
    }
  }

  lemma {:induction false} ChildrenBound(v: Variant, p: seq<Cell>, d: nat, max: bool, n: int, k: int)
    requires IsBoard(p) && 0 <= n <= 16 && 0 <= k < |Children(v, p, d, max, n)|
    ensures -Bound <= Children(v, p, d, max, n)[k].estimate <= Bound
    decreases d, 1, n
  {
    if IsOwn(p[n - 1], max) && k == |Children(v, p, d, max, n - 1)| {
      ValueBound(v, Child(p, n - 1, max), d, !max);
    } else {
      ChildrenBound(v, p, d, max, n - 1, k);
    }
  }

  /** The k-th child result belongs to the k-th mover: it is that move's
      position with its value one level down for the other side. */
  lemma {:induction false} ChildrenAt(v: Variant, p: seq<Cell>, d: nat, max: bool, n: int, k: int)
    requires IsBoard(p) && 0 <= n <= 16 && 0 <= k < |Movers(p, max, n)|
    ensures 0 <= Movers(p, max, n)[k] < 16
    ensures var c := Child(p, Movers(p, max, n)[k], max);
      Children(v, p, d, max, n)[k] == Move(c, Value(v, c, d, !max))
    decreases n
  {
    var ms := Movers(p, max, n - 1);
    if IsOwn(p[n - 1], max) && k == |ms| {
    } else {
      ChildrenAt(v, p, d, max, n - 1, k);
    }
  }

  /** An inner node's value is the first strictly best of its children's
      values: no child is better, and every earlier child is strictly
      worse. */
  lemma FirstBest(v: Variant, p: seq<Cell>, depth: nat, max: bool)
    requires IsBoard(p) && !IsLeaf(v, p, depth)
    ensures var es := Estimates(Children(v, p, depth - 1, max, 16));
      var j := FirstIndexOf(es, Value(v, p, depth, max));
      0 <= j < |es| && es[j] == Value(v, p, depth, max) &&
      (forall k :: 0 <= k < |es| ==> !Better(es[k], es[j], max)) &&
      (forall k :: 0 <= k < j ==> Better(es[j], es[k], max))
  {
    InnerNode(v, p, depth, max);
    var es := Estimates(Children(v, p, depth - 1, max, 16));
    ExtremeSpec(es, max);
    FirstIndexOfIsFirst(es, Value(v, p, depth, max));
  }

  /** The root's result is the result of its first child whose value is the
      root's value. */
  lemma RootIsFirstBestChild(v: Variant, p: seq<Cell>, depth: nat)
    requires IsBoard(p) && !IsLeaf(v, p, depth)
    ensures var max := RootMaximises(v);
      var rs := Children(v, p, depth - 1, max, 16);
      var j := FirstIndexOf(Estimates(rs), Value(v, p, depth, max));
      0 <= j < |rs| && RootResult(v, p, depth) == rs[j] &&
      rs[j].estimate == Value(v, p, depth, max)
  {
    var max := RootMaximises(v);
    InnerNode(v, p, depth, max);
    InnerRoot(v, p, depth);
    var rs := Children(v, p, depth - 1, max, 16);
    var j := FirstIndexOf(Estimates(rs), Value(v, p, depth, max));
    assert Estimates(rs)[j] == rs[j].estimate;
  }

  /** 16 to the power `d`. */
  function Pow16(d: nat): (r: nat)
    ensures r >= 1
  {
    if d == 0 then 1 else 16 * Pow16(d - 1)
  }

  /** The search scores at least one leaf and at most 16^depth. */
  lemma {:induction false} LeafCount(v: Variant, p: seq<Cell>, depth: nat, max: bool)
    requires IsBoard(p)
    ensures 1 <= |Leaves(v, p, depth, max)| <= Pow16(depth)
    decreases depth, 0, 0
  {
    if !IsLeaf(v, p, depth) {
      NonLeafHasMover(v, p, depth, max);
      ChildLeafCount(v, p, depth - 1, max, 16);
    }
  }

  /** The moves of pieces on cells below `n` score at least one leaf each,
      and at most 16^d each. */
  lemma {:induction false} ChildLeafCount(v: Variant, p: seq<Cell>, d: nat, max: bool, n: int)
    requires IsBoard(p) && 0 <= n <= 16
    ensures |Movers(p, max, n)| <= |ChildLeaves(v, p, d, max, n)| <= n * Pow16(d)
    decreases d, 1, n
  {
    if n > 0 {
      ChildLeafCount(v, p, d, max, n - 1);
      assert (n - 1) * Pow16(d) + Pow16(d) == n * Pow16(d);
      if IsOwn(p[n - 1], max) {
        LeafCount(v, Child(p, n - 1, max), d, !max);
      }
    }
  }

  /** The value of a node is the estimate of one of the leaves it logs. */
  lemma {:induction false} ValueIsLoggedLeaf(v: Variant, p: seq<Cell>, depth: nat, max: bool)
    requires IsBoard(p)
    ensures Value(v, p, depth, max) in Estimates(Leaves(v, p, depth, max))
    decreases depth, 0, 0
  {
    if !IsLeaf(v, p, depth) {
      InnerNode(v, p, depth, max);
      var rs := Children(v, p, depth - 1, max, 16);
      var es := Estimates(rs);
      ExtremeSpec(es, max);
      var j :| 0 <= j < |es| && es[j] == Extreme(es, max);
      ChildrenLogged(v, p, depth - 1, max, 16, j);
    } else {
      assert Estimates(Leaves(v, p, depth, max))[0] == Value(v, p, depth, max);
    }
  }

  /** Each child's value is the estimate of one of the leaves logged below
      the moves. */
  lemma {:induction false} ChildrenLogged(v: Variant, p: seq<Cell>, d: nat, max: bool, n: int, j: int)
    requires IsBoard(p) && 0 <= n <= 16 && 0 <= j < |Children(v, p, d, max, n)|
    ensures Children(v, p, d, max, n)[j].estimate in Estimates(ChildLeaves(v, p, d, max, n))
    decreases d, 1, n
  {
    var front := ChildLeaves(v, p, d, max, n - 1);
    if IsOwn(p[n - 1], max) {
      var c := Child(p, n - 1, max);
      var rs := Children(v, p, d, max, n - 1);
      var back := Leaves(v, c, d, !max);
      ChildrenStep(v, p, d, max, n - 1);
      ChildLeavesStep(v, p, d, max, n - 1);
      EstimatesAppend(front, back);
      if j == |rs| {
        ValueIsLoggedLeaf(v, c, d, !max);
        assert Children(v, p, d, max, n)[j].estimate == Value(v, c, d, !max);
      } else {
        ChildrenLogged(v, p, d, max, n - 1, j);
        assert Children(v, p, d, max, n)[j] == rs[j];
      }
    } else {
      SkipStep(v, p, d, max, n - 1);
      ChildrenLogged(v, p, d, max, n - 1, j);
    }
  }

  // ---------------------------------------------------------------------
  // The search itself.

  /** The position a move of the piece on `i` leads to: White's rule
      directly, or for Black `flip(generate_move(flip(pos), 15 - i))`. */
  method ChildPosition(pos: array<Cell>, i: int, max: bool) returns (child: array<Cell>)
    requires pos.Length == 16 && 0 <= i < 16
    ensures fresh(child)
    ensures child[..] == Child(pos[..], i, max)
  {
    if max {
      child := GenerateMove(pos, i);
    } else {
      var mirrored := FlipPosition(pos);
      var moved := GenerateMove(mirrored, (i - 15) * -1);
      child := FlipPosition(moved);
    }
  }

  /** The loop over the board shared by `evaluate_moves` and
      `evaluate_moves_first`: every piece of the side to move is moved, the
      child is searched one level down for the other side, and the first
      child whose value is strictly better than every earlier one (and than
      the starting `sentinel`) is remembered. */
  method SearchMoves(v: Variant, pos: array<Cell>, moves: MoveLog, d: nat, max: bool, sentinel: int)
    returns (possibleMoves: seq<Move>, bestVal: int, minMax: int)
    requires pos.Length == 16
    requires if max then sentinel < -Bound else sentinel > Bound
    modifies moves
    ensures possibleMoves == Children(v, pos[..], d, max, 16)
    ensures moves.entries == old(moves.entries) + ChildLeaves(v, pos[..], d, max, 16)
    ensures Selected(Estimates(possibleMoves), max, sentinel, bestVal, minMax)
    decreases d, 1
  {
    ghost var p := pos[..];
    possibleMoves := [];
    bestVal := sentinel;
    minMax := 0;
    var index := 0;

    for i := 0 to pos.Length
      invariant pos[..] == p
      invariant possibleMoves == Children(v, p, d, max, i)
      invariant index == |possibleMoves|
      invariant moves.entries == old(moves.entries) + ChildLeaves(v, p, d, max, i)
      invariant Selected(Estimates(possibleMoves), max, sentinel, bestVal, minMax)
    {
      if (max && (pos[i] == WhiteKing || pos[i] == WhitePawn)) ||
         (!max && (pos[i] == BlackKing || pos[i] == BlackPawn))
      {
        assert IsOwn(p[i], max);
        var child := ChildPosition(pos, i, max);
        var temp := EvaluateMoves(v, child, moves, d, !max);
        ChildrenStep(v, p, d, max, i);
        LogStep(v, p, d, max, i, old(moves.entries));
        ValueBound(v, child[..], d, !max);
        SelectUpdate(Estimates(possibleMoves), temp.estimate, max, sentinel, bestVal, minMax);
        EstimatesSnoc(possibleMoves, temp);
        possibleMoves := possibleMoves + [temp];

        if (max && bestVal < temp.estimate) || (!max && bestVal > temp.estimate) {
          bestVal := temp.estimate;
          minMax := index;
        }
        index := index + 1;
      } else {
        SkipStep(v, p, d, max, i);
      }
    }
  }

  /** `evaluate_moves`: an inner node returns its own position with the best
      value of its children; a leaf returns its own estimate. The log grows
      by exactly the leaves below the node. */
  method EvaluateMoves(v: Variant, pos: array<Cell>, moves: MoveLog, depth: nat, max: bool) returns (m: Move)
    requires pos.Length == 16
    modifies moves
    ensures m == Move(pos[..], Value(v, pos[..], depth, max))
    ensures moves.entries == old(moves.entries) + Leaves(v, pos[..], depth, max)
    decreases depth, 0
  {
    if depth == 0 {
      var e := EstimatePosition(v, pos);
      m := Move(pos[..], e);
      moves.Add(m);
      return;
    }

    var estimate := EstimatePosition(v, pos);
    if estimate == 100 || estimate == -100 {
      m := Move(pos[..], estimate);
      moves.Add(m);
      return;
    }

    InnerNode(v, pos[..], depth, max);
    var sentinel := if max then IntMin else IntMax;
    var possibleMoves, bestVal, minMax := SearchMoves(v, pos, moves, depth - 1, max, sentinel);
    SelectedChoice(Estimates(possibleMoves), max, sentinel, bestVal, minMax);
    m := Move(pos[..], possibleMoves[minMax].estimate);
  }

  /** `evaluate_moves_first`: the root. MiniMaxBlack moves Black first and
      keeps the first least child value below the sentinel 1000;
      MiniMaxImproved moves White first and keeps the first greatest above
      the sentinel -1000. The root returns the chosen child's own result. */
  method EvaluateMovesFirst(v: Variant, pos: array<Cell>, moves: MoveLog, depth: nat) returns (m: Move)
    requires pos.Length == 16
    modifies moves
    ensures m == RootResult(v, pos[..], depth)
    ensures moves.entries == old(moves.entries) + Leaves(v, pos[..], depth, RootMaximises(v))
  {
    if depth == 0 {
      var e := EstimatePosition(v, pos);
      m := Move(pos[..], e);
      moves.Add(m);
      return;
    }

    var estimate := EstimatePosition(v, pos);
    if estimate == 100 || estimate == -100 {
      m := Move(pos[..], estimate);
      moves.Add(m);
      return;
    }

    var max := v == Improved;
    InnerNode(v, pos[..], depth, max);
    InnerRoot(v, pos[..], depth);
    var sentinel := if max then -1000 else 1000;
    var possibleMoves, bestVal, minMax := SearchMoves(v, pos, moves, depth - 1, max, sentinel);
    SelectedChoice(Estimates(possibleMoves), max, sentinel, bestVal, minMax);
    m := possibleMoves[minMax];
  }
}
