/** The 16-cell board, its five cell symbols, and the mirror transform
    (`flip_position`) that lets Black's moves reuse White's move rule. */
module Board {

  /** 'W', 'B', 'w', 'b' and 'x' of the position string. */
  datatype Cell = WhiteKing | BlackKing | WhitePawn | BlackPawn | Empty

  /** A position is valid when it has exactly sixteen cells. */
  predicate IsBoard(p: seq<Cell>) {
    |p| == 16
  }

  predicate IsWhite(c: Cell) {
    c == WhiteKing || c == WhitePawn
  }

  predicate IsBlack(c: Cell) {
    c == BlackKing || c == BlackPawn
  }

  /** Colour swap: kings to kings, pawns to pawns, empty stays empty. */
  function Swap(c: Cell): (d: Cell)
    ensures IsWhite(c) <==> IsBlack(d)
    ensures IsBlack(c) <==> IsWhite(d)
    ensures c == Empty <==> d == Empty
  {
    match c
    case WhiteKing => BlackKing
    case WhitePawn => BlackPawn
    case BlackKing => WhiteKing
    case BlackPawn => WhitePawn
    case Empty => Empty
  }

  /** Swapping twice gives back the cell. */
  lemma SwapSwap(c: Cell)
    ensures Swap(Swap(c)) == c
  {
  }

  /** The board read from the other end, with every piece's colour swapped:
      cell k of the result is the colour-swapped cell |p|-1-k. */
  function Flip(p: seq<Cell>): (r: seq<Cell>)
    ensures |r| == |p|
  {
    seq(|p|, k requires 0 <= k < |p| => Swap(p[|p| - 1 - k]))
  }

  /** Cell k of the mirrored board is the colour-swapped cell |p|-1-k. */
  lemma FlipAt(p: seq<Cell>, k: int)
    requires 0 <= k < |p|
    ensures Flip(p)[k] == Swap(p[|p| - 1 - k])
  {
  }

  /** Read recursively: the mirror of the rest, then the first cell swapped. */
  lemma FlipCons(p: seq<Cell>)
    requires p != []
    ensures Flip(p) == Flip(p[1..]) + [Swap(p[0])]
  {
    var a, b := Flip(p), Flip(p[1..]) + [Swap(p[0])];
    forall k | 0 <= k < |p|
      ensures a[k] == b[k]
    {
      if k < |p| - 1 {
        assert b[k] == Flip(p[1..])[k];
      }
    }
  }

  /** Mirroring twice gives back the original board. */
  lemma FlipInvolution(p: seq<Cell>)
    ensures Flip(Flip(p)) == p
  {
    forall k | 0 <= k < |p|
      ensures Flip(Flip(p))[k] == p[k]
    {
      SwapSwap(p[k]);
    }
  }

  /** Mirroring commutes with a single-cell update, at the mirrored index. */
  lemma FlipUpdate(p: seq<Cell>, k: int, c: Cell)
    requires 0 <= k < |p|
    ensures Flip(p[k := c]) == Flip(p)[|p| - 1 - k := Swap(c)]
  {
    var q, r := p[k := c], Flip(p)[|p| - 1 - k := Swap(c)];
    forall t | 0 <= t < |p|
      ensures Flip(q)[t] == r[t]
    {
    }
  }

  /** The mirrored board holds as many `c` cells as the board holds cells of
      the opposite colour. */
  lemma {:induction false} FlipCount(p: seq<Cell>, c: Cell)
    ensures multiset(Flip(p))[c] == multiset(p)[Swap(c)]
  {
    if p != [] {
      var t := p[1..];
      FlipCount(t, c);
      FlipCons(p);
      assert p == [p[0]] + t;
      assert multiset(p)[Swap(c)] == multiset(t)[Swap(c)] + if p[0] == Swap(c) then 1 else 0;
      assert multiset(Flip(p))[c] == multiset(Flip(t))[c] + if Swap(p[0]) == c then 1 else 0;
      SwapSwap(c);
      SwapSwap(p[0]);
    }
  }

  /** The copy after the first `i` swaps of the reversing loop: the outer
      `i` cells at each end exchanged, the middle untouched. */
  ghost function ReversedUpTo(s: seq<Cell>, i: int): (r: seq<Cell>)
    requires 0 <= i <= |s| / 2
    ensures |r| == |s|
  {
    seq(|s|, k requires 0 <= k < |s| =>
      if i <= k < |s| - i then s[k] else s[|s| - 1 - k])
  }

  /** One exchange of the reversing loop. */
  lemma ReverseStep(s: seq<Cell>, i: int)
    requires 0 <= i < |s| / 2
    ensures ReversedUpTo(s, i)[i := s[|s| - 1 - i]][|s| - 1 - i := s[i]] == ReversedUpTo(s, i + 1)
  {
  }

  /** The reversed copy after the colour of its first `i` cells is swapped. */
  ghost function SwappedUpTo(s: seq<Cell>, i: int): (r: seq<Cell>)
    requires 0 <= i <= |s|
    ensures |r| == |s|
  {
    seq(|s|, k requires 0 <= k < |s| =>
      if k < i then Swap(s[|s| - 1 - k]) else s[|s| - 1 - k])
  }

  /** One colour swap of the second loop. */
  lemma SwapStep(s: seq<Cell>, i: int)
    requires 0 <= i < |s|
    ensures SwappedUpTo(s, i)[i := Swap(s[|s| - 1 - i])] == SwappedUpTo(s, i + 1)
  {
  }

  /** The reversing loop ends where the colour loop starts. */
  lemma ReverseDone(s: seq<Cell>)
    ensures ReversedUpTo(s, |s| / 2) == SwappedUpTo(s, 0)
  {
    var h := |s| / 2;
    assert |s| == 2 * h || |s| == 2 * h + 1;
    var a, b := ReversedUpTo(s, h), SwappedUpTo(s, 0);
    forall k | 0 <= k < |s|
      ensures a[k] == b[k]
    {
      if h <= k < |s| - h {
        assert k == |s| - 1 - k;
      }
    }
  }

  /** The colour loop ends on the mirror. */
  lemma SwapDone(s: seq<Cell>)
    ensures SwappedUpTo(s, |s|) == Flip(s)
  {
    var r := SwappedUpTo(s, |s|);
    assert forall k :: 0 <= k < |s| ==> r[k] == Flip(s)[k];
  }

  /** Boards holding the same cells, in any order, have mirrors that hold
      the same cells. */
  lemma FlipSameCounts(p: seq<Cell>, q: seq<Cell>)
    requires multiset(p) == multiset(q)
    ensures multiset(Flip(p)) == multiset(Flip(q))
  {
    forall c
      ensures multiset(Flip(p))[c] == multiset(Flip(q))[c]
    {
      FlipCount(p, c);
      FlipCount(q, c);
    }
  }

  /** `flip_position`: copy the board, reverse the copy in place, then swap
      the colour of every piece in the copy. The argument is left unchanged. */
  method FlipPosition(pos: array<Cell>) returns (reverse: array<Cell>)
    ensures fresh(reverse)
    ensures reverse[..] == Flip(pos[..])
  {
    reverse := new Cell[pos.Length](k requires 0 <= k < pos.Length reads pos => pos[k]);
    var len := reverse.Length;
    ghost var s := pos[..];
    assert reverse[..] == ReversedUpTo(s, 0);

    for i := 0 to len / 2
      invariant reverse[..] == ReversedUpTo(s, i)
    {
      ReverseStep(s, i);
      var temp := reverse[i];
      reverse[i] := reverse[len - 1 - i];
      reverse[len - 1 - i] := temp;
    }

    ReverseDone(s);
    for i := 0 to len
      invariant reverse[..] == SwappedUpTo(s, i)
    {
      SwapStep(s, i);
      if reverse[i] == WhiteKing {
        reverse[i] := BlackKing;
      } else if reverse[i] == WhitePawn {
        reverse[i] := BlackPawn;
      } else if reverse[i] == BlackKing {
        reverse[i] := WhiteKing;
      } else if reverse[i] == BlackPawn {
        reverse[i] := WhitePawn;
      }
    }
    SwapDone(s);
  }
}
