/** The move generator (`GameCalculations.generate_move`): the single,
    deterministic move of the piece on one cell toward higher indices, with
    its one capture rule; and Black's move, which runs the same rule on the
    mirrored board. */
module MoveGenerator {
  import opened SeqIndex
  import opened Board

  /** Every cell after `i` is occupied (vacuously so for the last cell): the
      piece on `i` has nowhere to go and leaves the board. */
  predicate Blocked(p: seq<Cell>, i: int)
    requires 0 <= i
  {
    forall k :: i < k < |p| ==> p[k] != Empty
  }

  /** The first empty cell after `i`, or -1 when the piece is blocked. */
  function NextEmpty(p: seq<Cell>, i: int): (j: int)
    requires 0 <= i < |p|
    ensures j == -1 <==> Blocked(p, i)
    ensures j != -1 ==> i < j < |p| && p[j] == Empty
  {
    var d := FirstIndexOf(p[i + 1..], Empty);
    assert forall k :: i < k < |p| ==> p[k] == p[i + 1..][k - i - 1];
    if d == -1 then -1 else i + 1 + d
  }

  /** The piece passes over occupied cells only. */
  lemma NextEmptyIsFirst(p: seq<Cell>, i: int)
    requires 0 <= i < |p|
    ensures forall k :: i < k < NextEmpty(p, i) ==> p[k] != Empty
  {
    var s := p[i + 1..];
    FirstIndexOfIsFirst(s, Empty);
    assert forall k :: i < k < |p| ==> p[k] == s[k - i - 1];
  }

  /** An empty cell `j` after `i` with only occupied cells between is the
      cell the piece on `i` moves to. */
  lemma NextEmptyAt(p: seq<Cell>, i: int, j: int)
    requires 0 <= i < j < |p| && p[j] == Empty
    requires forall k :: i < k < j ==> p[k] != Empty
    ensures NextEmpty(p, i) == j
  {
    NextEmptyIsFirst(p, i);
  }

  /** The board after the piece on `i` has moved. */
  function Moved(p: seq<Cell>, i: int): (r: seq<Cell>)
    requires IsBoard(p) && 0 <= i < 16
    ensures IsBoard(r)
  {
    if i == 15 then p[i := Empty]
    else
      var j := NextEmpty(p, i);
      if j == -1 then p[i := Empty]
      else Jumped(p[j := p[i]][i := Empty], i, j)
  }

  /** The capture rule, applied once the piece has gone from `i` to `j`: a
      jump of exactly two cells over a Black piece sends that piece to the
      highest-indexed empty cell, unless that cell is the one just vacated. */
  function Jumped(q: seq<Cell>, i: int, j: int): (r: seq<Cell>)
    requires IsBoard(q) && 0 <= i < j < 16 && q[i] == Empty
    ensures IsBoard(r)
  {
    if j - i == 2 && IsBlack(q[j - 1]) then
      var k := LastIndexOf(q, Empty);
      if k != j - 2 then q[k := q[j - 1]][j - 1 := Empty] else q
    else q
  }

  /** Black's move of the piece on `i`: mirror, move the mirrored piece on
      15 - i with White's rule, mirror back. */
  function BlackMoved(p: seq<Cell>, i: int): (r: seq<Cell>)
    requires IsBoard(p) && 0 <= i < 16
    ensures IsBoard(r)
  {
    Flip(Moved(Flip(p), 15 - i))
  }

  /** `generate_move`: copy the board, then update the copy in place. */
  method GenerateMove(board: array<Cell>, i: int) returns (P: array<Cell>)
    requires board.Length == 16 && 0 <= i < 16
    ensures fresh(P)
    ensures P[..] == Moved(board[..], i)
  {
    P := new Cell[board.Length](k requires 0 <= k < board.Length reads board => board[k]);
    ghost var p := board[..];
    assert P[..] == p;

    if i == 15 {
      // the piece on the last cell jumps off the board
      P[i] := Empty;
    } else {
      var j := i + 1;
      while j < P.Length
        invariant i + 1 <= j <= 15
        invariant P[..] == p
        invariant forall k :: i < k < j ==> p[k] != Empty
      {
        if j == 15 && P[j] != Empty {
          // no free cell up to the end of the board: jump off it
          P[i] := Empty;
          assert NextEmpty(p, i) == -1;
          assert P[..] == Moved(p, i);
          break;
        } else if P[j] == Empty {
          // advance to the first free cell
          P[j] := P[i];
          P[i] := Empty;
          NextEmptyAt(p, i, j);
          ghost var q := P[..];
          assert q == p[j := p[i]][i := Empty];

          if j - i == 2 && (P[j - 1] == BlackPawn || P[j - 1] == BlackKing) {
            // jumped over one Black piece: move it to the rightmost free cell
            RelocateCaptured(P, i, j);
          }
          assert P[..] == Jumped(q, i, j);
          assert P[..] == Moved(p, i);
          break;
        }
        j := j + 1;
      }
    }
  }

  /** The backward scan of `generate_move` that sends the Black piece on
      j - 1 to the highest-indexed empty cell, unless that cell is `i`. */
  method RelocateCaptured(P: array<Cell>, i: int, j: int)
    requires P.Length == 16 && 0 <= i && j == i + 2 < 16 && P[i] == Empty && IsBlack(P[j - 1])
    modifies P
    ensures P[..] == Jumped(old(P[..]), i, j)
  {
    ghost var q := P[..];
    var k := P.Length - 1;
    while k >= 0
      invariant i <= k <= 15
      invariant P[..] == q
      invariant forall t :: k < t < 16 ==> q[t] != Empty
    {
      if P[k] == Empty {
        LastIndexOfAt(q, Empty, k);
        if k != j - 2 {
          P[k] := P[j - 1];
          P[j - 1] := Empty;
        }
        break;
      }
      k := k - 1;
    }
  }

  /** Exchanging two cells keeps every symbol count. */
  lemma SwapCellsPreserves(q: seq<Cell>, a: int, b: int)
    requires 0 <= a < |q| && 0 <= b < |q| && a != b
    ensures multiset(q[a := q[b]][b := q[a]]) == multiset(q)
  {
    var r := q[a := q[b]];
    assert multiset(r) == multiset(q) - multiset{q[a]} + multiset{q[b]};
    assert r[b] == q[b];
    assert multiset(r[b := q[a]]) == multiset(r) - multiset{q[b]} + multiset{q[a]};
  }

  /** A blocked piece (one on the last cell, or one with every later cell
      occupied) leaves the board and nothing else changes. */
  lemma MoveEscapes(p: seq<Cell>, i: int)
    requires IsBoard(p) && 0 <= i < 16 && Blocked(p, i)
    ensures Moved(p, i) == p[i := Empty]
  {
  }

  /** Without a capture, the piece goes to the first empty cell after it and
      nothing else changes, the cells it passes over included. */
  lemma MoveAdvances(p: seq<Cell>, i: int, j: int)
    requires IsBoard(p) && 0 <= i < j < 16
    requires p[j] == Empty && forall k :: i < k < j ==> p[k] != Empty
    requires !(j == i + 2 && IsBlack(p[i + 1]))
    ensures Moved(p, i) == p[j := p[i]][i := Empty]
    ensures forall k :: i < k < j ==> Moved(p, i)[k] == p[k]
  {
    NextEmptyAt(p, i, j);
  }

  /** Whatever happens after the piece has left `i` for the first empty cell
      `j`, it stands on `j` and `i` is empty. */
  lemma MoveLands(p: seq<Cell>, i: int, j: int)
    requires IsBoard(p) && 0 <= i < j < 16 && p[i] != Empty
    requires p[j] == Empty && forall k :: i < k < j ==> p[k] != Empty
    ensures Moved(p, i)[j] == p[i] && Moved(p, i)[i] == Empty
  {
    NextEmptyAt(p, i, j);
    var q := p[j := p[i]][i := Empty];
    assert q[j] != Empty && q[i] == Empty;
    assert Moved(p, i) == Jumped(q, i, j);
    if j - i == 2 && IsBlack(q[j - 1]) {
      var k := LastIndexOf(q, Empty);
      assert k != j;
    }
  }

  /** The cell a move starts from is always empty afterwards. */
  lemma MoveVacates(p: seq<Cell>, i: int)
    requires IsBoard(p) && 0 <= i < 16
    ensures Moved(p, i)[i] == Empty
  {
    if i < 15 && NextEmpty(p, i) != -1 {
      var j := NextEmpty(p, i);
      var q := p[j := p[i]][i := Empty];
      assert q[i] == Empty;
    }
  }

  /** A piece that jumps over one Black piece onto an empty cell sends the
      Black piece to the highest-indexed empty cell of the board, which lies
      beyond the landing cell; when there is no empty cell beyond it, the
      Black piece stays where it was. */
  lemma MoveCaptures(p: seq<Cell>, i: int)
    requires IsBoard(p) && 0 <= i && i + 2 < 16
    requires p[i] != Empty && IsBlack(p[i + 1]) && p[i + 2] == Empty
    ensures var k := LastIndexOf(p, Empty);
      i + 2 < k ==> Moved(p, i) == p[i := Empty][i + 1 := Empty][i + 2 := p[i]][k := p[i + 1]]
    ensures (forall t :: i + 2 < t < 16 ==> p[t] != Empty) ==>
      Moved(p, i) == p[i := Empty][i + 2 := p[i]]
  {
    NextEmptyAt(p, i, i + 2);
    var q := p[i + 2 := p[i]][i := Empty];
    assert Moved(p, i) == Jumped(q, i, i + 2);
    assert q[i + 1] == p[i + 1];
    var k := LastIndexOf(p, Empty);
    if i + 2 < k {
      CaptureBeyond(p, q, i, k);
    } else {
      CaptureNoRoom(p, q, i);
    }
  }

  /** A capture with no empty cell beyond the landing cell relocates
      nothing. */
  lemma CaptureNoRoom(p: seq<Cell>, q: seq<Cell>, i: int)
    requires IsBoard(p) && 0 <= i && i + 2 < 16
    requires p[i] != Empty && IsBlack(p[i + 1]) && LastIndexOf(p, Empty) <= i + 2
    requires q == p[i + 2 := p[i]][i := Empty]
    ensures Jumped(q, i, i + 2) == p[i := Empty][i + 2 := p[i]]
  {
    LastIndexOfIsLast(p, Empty);
    assert forall t :: i < t < 16 ==> q[t] != Empty;
    LastIndexOfAt(q, Empty, i);
    assert q == p[i := Empty][i + 2 := p[i]];
  }

  /** The relocation step of a capture, when an empty cell `k` lies beyond
      the landing cell. */
  lemma CaptureBeyond(p: seq<Cell>, q: seq<Cell>, i: int, k: int)
    requires IsBoard(p) && 0 <= i && i + 2 < k < 16
    requires p[i] != Empty && IsBlack(p[i + 1]) && k == LastIndexOf(p, Empty)
    requires q == p[i + 2 := p[i]][i := Empty]
    ensures Jumped(q, i, i + 2) == p[i := Empty][i + 1 := Empty][i + 2 := p[i]][k := p[i + 1]]
  {
    assert q[k] == Empty;
    assert forall t :: k < t < 16 ==> q[t] == p[t];
    LastIndexOfIsLast(p, Empty);
    LastIndexOfAt(q, Empty, k);
    var r := q[k := q[i + 1]][i + 1 := Empty];
    var s := p[i := Empty][i + 1 := Empty][i + 2 := p[i]][k := p[i + 1]];
    assert Jumped(q, i, i + 2) == r;
    forall t | 0 <= t < 16
      ensures r[t] == s[t]
    {
    }
  }

  /** Every move keeps the pieces on the board, except that a blocked piece
      leaves it: a capture only relocates the captured piece, so only the
      mover's own symbol can lose a cell, and the number of empty cells grows
      by one exactly when a piece escapes. */
  lemma MoveConserves(p: seq<Cell>, i: int)
    requires IsBoard(p) && 0 <= i < 16
    ensures Blocked(p, i) ==> multiset(Moved(p, i)) == multiset(p) - multiset{p[i]} + multiset{Empty}
    ensures !Blocked(p, i) ==> multiset(Moved(p, i)) == multiset(p)
  {
    var r := Moved(p, i);
    if Blocked(p, i) {
      assert p[i := Empty] == r;
      assert multiset(r) == multiset(p) - multiset{p[i]} + multiset{Empty};
    } else {
      var j := NextEmpty(p, i);
      var q := p[j := p[i]][i := Empty];
      SwapCellsPreserves(p, j, i);
      assert q == p[j := p[i]][i := p[j]];
      if j - i == 2 && IsBlack(q[j - 1]) {
        assert q[i] == Empty;
        var k := LastIndexOf(q, Empty);
        if k != j - 2 {
          SwapCellsPreserves(q, k, j - 1);
          assert q[k := q[j - 1]][j - 1 := Empty] == q[k := q[j - 1]][j - 1 := q[k]];
        }
      }
    }
  }

  /** Per kind of cell: a move changes no count but the moving piece's and the
      empty cells', and those only when the piece leaves the board. */
  lemma MoveCounts(p: seq<Cell>, i: int)
    requires IsBoard(p) && 0 <= i < 16
    ensures forall c :: c != p[i] && c != Empty ==> multiset(Moved(p, i))[c] == multiset(p)[c]
    ensures multiset(Moved(p, i))[Empty] ==
            multiset(p)[Empty] + if Blocked(p, i) && p[i] != Empty then 1 else 0
  {
    MoveConserves(p, i);
  }

  /** Black's move empties the cell its piece starts from. */
  lemma BlackMoveVacates(p: seq<Cell>, i: int)
    requires IsBoard(p) && 0 <= i < 16
    ensures BlackMoved(p, i)[i] == Empty
  {
    MoveVacates(Flip(p), 15 - i);
    FlipAt(Moved(Flip(p), 15 - i), i);
  }

  /** A Black piece with an empty cell below it goes to the nearest such
      cell. */
  lemma BlackMoveLands(p: seq<Cell>, i: int, j: int)
    requires IsBoard(p) && 0 <= j < i < 16 && p[i] != Empty
    requires p[j] == Empty && forall k :: j < k < i ==> p[k] != Empty
    ensures BlackMoved(p, i)[j] == p[i]
  {
    var f := Flip(p);
    FlipOccupied(p, j, i);
    FlipAt(p, 15 - i);
    FlipAt(p, 15 - j);
    MoveLands(f, 15 - i, 15 - j);
    var m := Moved(f, 15 - i);
    assert m[15 - j] == Swap(p[i]);
    FlipAt(m, j);
    SwapSwap(p[i]);
  }

  /** The cells strictly between `a` and `b` are occupied on the mirror
      exactly where they are occupied on the board, at mirrored indices. */
  lemma FlipOccupied(p: seq<Cell>, a: int, b: int)
    requires IsBoard(p) && -1 <= a < b <= 16
    requires forall k :: a < k < b ==> p[k] != Empty
    ensures forall k :: 15 - b < k < 15 - a ==> Flip(p)[k] != Empty
  {
    forall k | 15 - b < k < 15 - a
      ensures Flip(p)[k] != Empty
    {
      FlipAt(p, k);
    }
  }

  /** A Black piece with every cell below it occupied (or on cell 0) leaves
      the board off cell 0, and nothing else changes. */
  lemma BlackMoveEscapes(p: seq<Cell>, i: int)
    requires IsBoard(p) && 0 <= i < 16
    requires forall k :: 0 <= k < i ==> p[k] != Empty
    ensures BlackMoved(p, i) == p[i := Empty]
  {
    var f := Flip(p);
    forall k | 15 - i < k < 16
      ensures f[k] != Empty
    {
      FlipAt(p, k);
    }
    MoveEscapes(f, 15 - i);
    FlipUpdate(f, 15 - i, Empty);
    FlipInvolution(p);
  }

  /** Without a capture, a Black piece goes down to the nearest empty cell
      below it and nothing else changes. */
  lemma BlackMoveAdvances(p: seq<Cell>, i: int, j: int)
    requires IsBoard(p) && 0 <= j < i < 16
    requires p[j] == Empty && forall k :: j < k < i ==> p[k] != Empty
    requires !(j == i - 2 && IsWhite(p[i - 1]))
    ensures BlackMoved(p, i) == p[j := p[i]][i := Empty]
  {
    var f := Flip(p);
    var a, b := 15 - i, 15 - j;
    FlipOccupied(p, j, i);
    FlipAt(p, b);
    assert f[b] == Empty;
    assert !(b == a + 2 && IsBlack(f[a + 1])) by {
      if b == a + 2 {
        FlipAt(p, a + 1);
      }
    }
    MoveAdvances(f, a, b);
    FlipAdvance(f, a, b);
    FlipInvolution(p);
    assert Swap(f[a]) == p[i] by {
      FlipAt(p, a);
      SwapSwap(p[i]);
    }
  }

  /** Mirroring a plain advance from `a` to `b`. */
  lemma FlipAdvance(f: seq<Cell>, a: int, b: int)
    requires |f| == 16 && 0 <= a < b < 16
    ensures Flip(f[b := f[a]][a := Empty]) == Flip(f)[15 - b := Swap(f[a])][15 - a := Empty]
  {
    var g := f[b := f[a]][a := Empty];
    var l, r := Flip(g), Flip(f)[15 - b := Swap(f[a])][15 - a := Empty];
    forall t | 0 <= t < 16
      ensures l[t] == r[t]
    {
      FlipAt(g, t);
      FlipAt(f, t);
    }
  }

  /** Mirroring a capture by a piece on `a` that relocates the jumped piece
      to `k`. */
  lemma FlipCapture(f: seq<Cell>, a: int, k: int)
    requires |f| == 16 && 0 <= a && a + 2 < k < 16
    ensures Flip(f[a := Empty][a + 1 := Empty][a + 2 := f[a]][k := f[a + 1]]) ==
            Flip(f)[15 - a := Empty][14 - a := Empty][13 - a := Swap(f[a])][15 - k := Swap(f[a + 1])]
  {
    var g := f[a := Empty][a + 1 := Empty][a + 2 := f[a]][k := f[a + 1]];
    var l := Flip(g);
    var r := Flip(f)[15 - a := Empty][14 - a := Empty][13 - a := Swap(f[a])][15 - k := Swap(f[a + 1])];
    forall t | 0 <= t < 16
      ensures l[t] == r[t]
    {
      FlipAt(g, t);
      FlipAt(f, t);
    }
  }

  /** Mirroring a capture that relocates nothing. */
  lemma FlipCaptureInPlace(f: seq<Cell>, a: int)
    requires |f| == 16 && 0 <= a && a + 2 < 16
    ensures Flip(f[a := Empty][a + 2 := f[a]]) == Flip(f)[15 - a := Empty][13 - a := Swap(f[a])]
  {
    var g := f[a := Empty][a + 2 := f[a]];
    var l, r := Flip(g), Flip(f)[15 - a := Empty][13 - a := Swap(f[a])];
    forall t | 0 <= t < 16
      ensures l[t] == r[t]
    {
      FlipAt(g, t);
      FlipAt(f, t);
    }
  }

  /** The last empty cell of the mirror is the mirror of the board's first
      empty cell. */
  lemma FlipFirstEmpty(p: seq<Cell>)
    requires Empty in p
    ensures LastIndexOf(Flip(p), Empty) == |p| - 1 - FirstIndexOf(p, Empty)
  {
    var e := FirstIndexOf(p, Empty);
    var f := Flip(p);
    var r := |p| - 1 - e;
    FirstIndexOfIsFirst(p, Empty);
    FlipAt(p, r);
    assert f[r] == Empty;
    forall k | r < k < |f|
      ensures f[k] != Empty
    {
      FlipAt(p, k);
      assert p[|p| - 1 - k] != Empty;
    }
    LastIndexOfAt(f, Empty, r);
  }

  /** A Black piece that jumps down over one White piece onto an empty cell
      sends the White piece to the lowest-indexed empty cell of the board,
      which lies below the landing cell; when there is no empty cell below
      it, the White piece stays where it was. */
  lemma BlackMoveCaptures(p: seq<Cell>, i: int)
    requires IsBoard(p) && 2 <= i < 16
    requires p[i] != Empty && IsWhite(p[i - 1]) && p[i - 2] == Empty
    ensures var e := FirstIndexOf(p, Empty);
      e < i - 2 ==> BlackMoved(p, i) == p[i := Empty][i - 1 := Empty][i - 2 := p[i]][e := p[i - 1]]
    ensures (forall t :: 0 <= t < i - 2 ==> p[t] != Empty) ==>
      BlackMoved(p, i) == p[i := Empty][i - 2 := p[i]]
  {
    var e := FirstIndexOf(p, Empty);
    if e < i - 2 {
      BlackCaptureBelow(p, i, e);
    } else {
      FirstIndexOfIsFirst(p, Empty);
      BlackCaptureNoRoom(p, i);
    }
  }

  /** The relocation step of a Black capture, when an empty cell `e` lies
      below the landing cell. */
  lemma BlackCaptureBelow(p: seq<Cell>, i: int, e: int)
    requires IsBoard(p) && 0 <= e < i - 2 && i < 16
    requires p[i] != Empty && IsWhite(p[i - 1]) && p[i - 2] == Empty
    requires e == FirstIndexOf(p, Empty)
    ensures BlackMoved(p, i) == p[i := Empty][i - 1 := Empty][i - 2 := p[i]][e := p[i - 1]]
  {
    var f := Flip(p);
    var a := 15 - i;
    FlipAt(p, a);
    FlipAt(p, a + 1);
    FlipAt(p, a + 2);
    FlipFirstEmpty(p);
    MoveCaptures(f, a);
    FlipCapture(f, a, 15 - e);
    FlipInvolution(p);
    SwapSwap(p[i]);
    SwapSwap(p[i - 1]);
  }

  /** A Black capture with no empty cell below the landing cell relocates
      nothing. */
  lemma BlackCaptureNoRoom(p: seq<Cell>, i: int)
    requires IsBoard(p) && 2 <= i < 16
    requires p[i] != Empty && IsWhite(p[i - 1]) && p[i - 2] == Empty
    requires forall t :: 0 <= t < i - 2 ==> p[t] != Empty
    ensures BlackMoved(p, i) == p[i := Empty][i - 2 := p[i]]
  {
    var f := Flip(p);
    var a := 15 - i;
    FlipAt(p, a);
    FlipAt(p, a + 1);
    FlipAt(p, a + 2);
    FlipOccupied(p, -1, i - 2);
    MoveCaptures(f, a);
    FlipCaptureInPlace(f, a);
    FlipInvolution(p);
    SwapSwap(p[i]);
  }

  /** A White move never touches the cells below its piece: the landing
      cell, the jumped cell and the cell a captured piece goes to all lie
      above it. */
  lemma MoveKeepsBelow(p: seq<Cell>, i: int)
    requires IsBoard(p) && 0 <= i < 16
    ensures forall k :: 0 <= k < i ==> Moved(p, i)[k] == p[k]
  {
    if i < 15 && NextEmpty(p, i) != -1 {
      var j := NextEmpty(p, i);
      var q := p[j := p[i]][i := Empty];
      assert q[i] == Empty;
      assert forall k :: 0 <= k < i ==> q[k] == p[k];
      assert Moved(p, i) == Jumped(q, i, j);
      if j - i == 2 && IsBlack(q[j - 1]) {
        LastIndexOfIsLast(q, Empty);
        assert i <= LastIndexOf(q, Empty);
      }
    }
  }

  /** A Black move never touches the cells above its piece. */
  lemma BlackMoveKeepsAbove(p: seq<Cell>, i: int)
    requires IsBoard(p) && 0 <= i < 16
    ensures forall k :: i < k < 16 ==> BlackMoved(p, i)[k] == p[k]
  {
    var f := Flip(p);
    MoveKeepsBelow(f, 15 - i);
    forall k | i < k < 16
      ensures BlackMoved(p, i)[k] == p[k]
    {
      FlipAt(Moved(f, 15 - i), k);
      FlipAt(p, 15 - k);
      SwapSwap(p[k]);
    }
  }

  /** Black's move keeps every symbol count unless its piece escapes off
      cell 0, in which case exactly that piece is gone. */
  lemma BlackMoveConserves(p: seq<Cell>, i: int)
    requires IsBoard(p) && 0 <= i < 16
    ensures (forall k :: 0 <= k < i ==> p[k] != Empty) ==>
      multiset(BlackMoved(p, i)) == multiset(p) - multiset{p[i]} + multiset{Empty}
    ensures (exists k :: 0 <= k < i && p[k] == Empty) ==>
      multiset(BlackMoved(p, i)) == multiset(p)
  {
    if forall k :: 0 <= k < i ==> p[k] != Empty {
      BlackMoveEscapes(p, i);
    } else {
      var k :| 0 <= k < i && p[k] == Empty;
      BlackMoveStays(p, i, k);
    }
  }

  /** A Black piece with an empty cell `k` below it stays on the board, and
      the move keeps every symbol count. */
  lemma BlackMoveStays(p: seq<Cell>, i: int, k: int)
    requires IsBoard(p) && 0 <= k < i < 16 && p[k] == Empty
    ensures multiset(BlackMoved(p, i)) == multiset(p)
  {
    var f := Flip(p);
    FlipAt(p, 15 - k);
    assert f[15 - k] == Empty;
    MoveConserves(f, 15 - i);
    var m := Moved(f, 15 - i);
    assert multiset(m) == multiset(f);
    FlipSameCounts(m, f);
    FlipInvolution(p);
  }
}
