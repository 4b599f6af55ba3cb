/** Concrete positions, written as the sixteen-character strings of the
    game ('x' for an empty cell), with what the estimators and the search
    make of them. */
module Scenarios {
  import opened SeqIndex
  import opened Board
  import opened MoveGenerator
  import opened Estimator
  import opened Search

  /** "xxxxxxxxxxxxxxxx" */
  function EmptyBoard(): (p: seq<Cell>)
    ensures IsBoard(p) && forall k :: 0 <= k < 16 ==> p[k] == Empty
  {
    seq(16, k => Empty)
  }

  /** A board with only the two kings, White's on `w` and Black's on `b`. */
  function Kings(w: int, b: int): (p: seq<Cell>)
    requires 0 <= w < 16 && 0 <= b < 16 && w != b
    ensures IsBoard(p) && p[w] == WhiteKing && p[b] == BlackKing
  {
    EmptyBoard()[w := WhiteKing][b := BlackKing]
  }

  /** With only the kings on the board, the basic estimate is the sum of
      their indices minus 15. */
  lemma BasicKingsOnly(w: int, b: int)
    requires 0 <= w < 16 && 0 <= b < 16 && w != b
    ensures Estimate(Basic, Kings(w, b)) == w + b - 15
  {
    var p := Kings(w, b);
    FirstIndexOfAt(p, WhiteKing, w);
    FirstIndexOfAt(p, BlackKing, b);
  }

  /** With only the kings on the board, the improved estimate is five times
      their distance, counted from Black's king to White's. */
  lemma ImprovedKingsOnly(w: int, b: int)
    requires 0 <= w < 16 && 0 <= b < 16 && w != b
    ensures Estimate(Improved, Kings(w, b)) == 5 * (w - b)
  {
    var p := Kings(w, b);
    LastIndexOfAt(p, WhiteKing, w);
    LastIndexOfAt(p, BlackKing, b);
    NoWhitePawns(p);
    NoBlackPawns(p);
  }

  /** "xxxWxxxxxxxxBxxx": the basic estimate adds the king indices,
      3 + 12 - 15 = 0. */
  lemma BasicExample()
    ensures Estimate(Basic, Kings(3, 12)) == 0
  {
    BasicKingsOnly(3, 12);
  }

  /** "WxxxwxxxxxxxxxxB": five times the king index difference, 5 * (0 - 15), plus
      2 * 4 for the White pawn on cell 4. */
  lemma ImprovedExample()
    ensures Estimate(Improved, EmptyBoard()[0 := WhiteKing][15 := BlackKing][4 := WhitePawn]) == -67
  {
    var kings := EmptyBoard()[0 := WhiteKing][15 := BlackKing];
    var p := kings[4 := WhitePawn];
    LastIndexOfAt(p, WhiteKing, 0);
    LastIndexOfAt(p, BlackKing, 15);
    NoWhitePawns(kings);
    WhitePawnScoreAdd(kings, 4);
    NoBlackPawns(p);
  }

  /** "BxxxxxxxxxxxxxwW": with both kings on the board the improved estimate
      leaves the range of the terminal scores, 5 * (15 - 0) + 2 * 14 = 103. */
  lemma ImprovedAboveHundred()
    ensures Estimate(Improved, EmptyBoard()[15 := WhiteKing][0 := BlackKing][14 := WhitePawn]) == 103
  {
    var kings := EmptyBoard()[15 := WhiteKing][0 := BlackKing];
    var p := kings[14 := WhitePawn];
    LastIndexOfAt(p, WhiteKing, 15);
    LastIndexOfAt(p, BlackKing, 0);
    NoWhitePawns(kings);
    WhitePawnScoreAdd(kings, 14);
    NoBlackPawns(p);
  }

  /** "BxxxxxxxxxxxxxWw": both kings are on the board, yet the improved
      estimate is 5 * 14 + 2 * 15 = 100, the score of a lost Black king, so
      the search stops there at any depth. */
  lemma ImprovedHundredWithKings(depth: nat)
    ensures var p := EmptyBoard()[0 := BlackKing][14 := WhiteKing][15 := WhitePawn];
      WhiteKing in p && BlackKing in p && Estimate(Improved, p) == 100 &&
      IsLeaf(Improved, p, depth)
  {
    var kings := EmptyBoard()[0 := BlackKing][14 := WhiteKing];
    var p := kings[15 := WhitePawn];
    assert p[14] == WhiteKing && p[0] == BlackKing;
    LastIndexOfAt(p, WhiteKing, 14);
    LastIndexOfAt(p, BlackKing, 0);
    NoWhitePawns(kings);
    WhitePawnScoreAdd(kings, 15);
    NoBlackPawns(p);
  }

  /** "bWxxxxxxxxxxxxxB": likewise -100 with both kings on the board,
      5 * (1 - 15) - 2 * 15. */
  lemma ImprovedMinusHundredWithKings(depth: nat)
    ensures var p := EmptyBoard()[1 := WhiteKing][15 := BlackKing][0 := BlackPawn];
      WhiteKing in p && BlackKing in p && Estimate(Improved, p) == -100 &&
      IsLeaf(Improved, p, depth)
  {
    var kings := EmptyBoard()[1 := WhiteKing][15 := BlackKing];
    var p := kings[0 := BlackPawn];
    assert p[1] == WhiteKing && p[15] == BlackKing;
    LastIndexOfAt(p, WhiteKing, 1);
    LastIndexOfAt(p, BlackKing, 15);
    NoWhitePawns(p);
    NoBlackPawns(kings);
    BlackPawnScoreAdd(kings, 0);
  }

  /** White's rule on "WxxxxxxxxxxxxxxB": the king steps to the first empty
      cell, cell 1, and nothing is captured: "xWxxxxxxxxxxxxxB". */
  lemma WhiteKingStepsUp()
    ensures Moved(Kings(0, 15), 0) == Kings(1, 15)
  {
    NextEmptyAt(Kings(0, 15), 0, 1);
  }

  /** Below "WxxxxxxxxxxxxxxB" at depth 0, White has the one move of its
      king, which is a leaf scored -70 by the improved estimate. */
  lemma ImprovedChildrenExample(p: seq<Cell>)
    requires p == Kings(0, 15)
    ensures Children(Improved, p, 0, true, 16) == [Move(Kings(1, 15), -70)]
    ensures ChildLeaves(Improved, p, 0, true, 16) == [Move(Kings(1, 15), -70)]
  {
    var c := Kings(1, 15);
    WhiteKingStepsUp();
    ImprovedKingsOnly(1, 15);
    ChildrenStep(Improved, p, 0, true, 0);
    ChildLeavesStep(Improved, p, 0, true, 0);
    SkipRange(Improved, p, 0, true, 1, 16);
  }

  /** MiniMaxImproved on "WxxxxxxxxxxxxxxB" at depth 1: White's only move
      takes its king to cell 1, and the root returns "xWxxxxxxxxxxxxxB" with
      that position's estimate 5 * (1 - 15) = -70, the one leaf scored. */
  lemma ImprovedSearchExample(p: seq<Cell>)
    requires p == Kings(0, 15)
    ensures RootResult(Improved, p, 1) == Move(Kings(1, 15), -70)
    ensures Leaves(Improved, p, 1, true) == [Move(Kings(1, 15), -70)]
  {
    var c := Kings(1, 15);
    ImprovedKingsOnly(0, 15);
    ImprovedChildrenExample(p);
    InnerNode(Improved, p, 1, true);
    InnerRoot(Improved, p, 1);
    assert Estimates([Move(c, -70)]) == [-70];

  }

  /** Black's rule on "WxxxxxxxxxxxxxxB": the mirrored board is the same
      board, White's king steps from cell 0 to cell 1 on it, and mirroring
      back puts the Black king on cell 14: "WxxxxxxxxxxxxxBx". */
  lemma BlackKingStepsDown()
    ensures BlackMoved(Kings(0, 15), 15) == Kings(0, 14)
  {
    var p, m, c := Kings(0, 15), Kings(1, 15), Kings(0, 14);
    assert Flip(p) == p by {
      forall k | 0 <= k < 16
        ensures Flip(p)[k] == p[k]
      {
        FlipAt(p, k);
      }
    }
    WhiteKingStepsUp();
    assert Flip(m) == c by {
      forall k | 0 <= k < 16
        ensures Flip(m)[k] == c[k]
      {
        FlipAt(m, k);
      }
    }
  }

  /** Below "WxxxxxxxxxxxxxxB" at depth 0, Black has the one move of its
      king, which is a leaf scored -1 by the basic estimate. */
  lemma BasicChildrenExample(p: seq<Cell>)
    requires p == Kings(0, 15)
    ensures Children(Basic, p, 0, false, 16) == [Move(Kings(0, 14), -1)]
    ensures ChildLeaves(Basic, p, 0, false, 16) == [Move(Kings(0, 14), -1)]
  {
    var c := Kings(0, 14);
    BlackKingStepsDown();
    BasicKingsOnly(0, 14);
    SkipRange(Basic, p, 0, false, 0, 15);
    ChildrenStep(Basic, p, 0, false, 15);
    ChildLeavesStep(Basic, p, 0, false, 15);
  }

  /** "WxxxxxxxxxxxxxxB" is scored 0 by the basic estimate, so the search
      goes below it. */
  lemma BasicRootNotLeaf(p: seq<Cell>, depth: nat)
    requires p == Kings(0, 15) && depth > 0
    ensures Estimate(Basic, p) == 0 && !IsLeaf(Basic, p, depth)
  {
    BasicKingsOnly(0, 15);
  }

  /** MiniMaxBlack on "WxxxxxxxxxxxxxxB" at depth 1: Black's only move
      takes its king down to cell 14, "WxxxxxxxxxxxxxBx", the one leaf,
      scored 0 + 14 - 15 = -1 by the basic estimate, which is the root's
      value. */
  lemma BasicSearchExample(p: seq<Cell>, c: seq<Cell>)
    requires p == Kings(0, 15) && c == Kings(0, 14)
    ensures Value(Basic, p, 1, false) == -1
    ensures Leaves(Basic, p, 1, false) == [Move(c, -1)]
  {
    BasicRootNotLeaf(p, 1);
    BasicChildrenExample(p);
    InnerNode(Basic, p, 1, false);
    assert Estimates([Move(c, -1)]) == [-1];
  }
}
