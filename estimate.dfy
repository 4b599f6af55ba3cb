/** The two static estimators (`estimate_position`): the basic one of
    MiniMaxBlack, which adds the kings' first indices, and the improved one
    of MiniMaxImproved, which weighs the kings' last indices and adds the
    pawns' advancement. Both give +100 when the White king is missing and
    otherwise -100 when the Black king is missing. */
module Estimator {
  import opened SeqIndex
  import opened Board

  datatype Variant = Basic | Improved

  /** Largest magnitude an estimate of either variant can have. */
  const Bound := 315

  /** The basic estimate: first White king index plus first Black king index
      minus 15, once both kings are on the board. */
  function BasicEstimate(p: seq<Cell>): (r: int)
    requires IsBoard(p)
    ensures WhiteKing !in p ==> r == 100
    ensures WhiteKing in p && BlackKing !in p ==> r == -100
    ensures WhiteKing in p && BlackKing in p ==> -14 <= r <= 14
    ensures r == 100 || r == -100 <==> WhiteKing !in p || BlackKing !in p
  {
    var i := FirstIndexOf(p, WhiteKing);
    var j := FirstIndexOf(p, BlackKing);
    if i == -1 then 100
    else if j == -1 then -100
    else i + j - 15
  }

  /** Twice the index of every White pawn of `s`, summed. */
  function WhitePawnScore(s: seq<Cell>): (r: int)
    ensures 0 <= r
  {
    if s == [] then 0
    else
      var n := |s| - 1;
      WhitePawnScore(s[..n]) + if s[n] == WhitePawn then 2 * n else 0
  }

  /** A prefix of length n scores at most 2 * (0 + 1 + ... + (n - 1)). */
  lemma {:induction false} WhitePawnScoreBound(s: seq<Cell>)
    ensures WhitePawnScore(s) <= |s| * (|s| - 1)
  {
    if s != [] {
      var n := |s| - 1;
      WhitePawnScoreBound(s[..n]);
      assert n * (n - 1) + 2 * n == (n + 1) * n;
    }
  }

  /** A board without White pawns scores 0 for them. */
  lemma {:induction false} NoWhitePawns(s: seq<Cell>)
    requires WhitePawn !in s
    ensures WhitePawnScore(s) == 0
  {
    if s != [] {
      assert s[..|s| - 1] <= s;
      NoWhitePawns(s[..|s| - 1]);
    }
  }

  /** Each White pawn counts on its own: putting one on cell `j` adds 2 * j. */
  lemma {:induction false} WhitePawnScoreAdd(s: seq<Cell>, j: int)
    requires 0 <= j < |s| && s[j] != WhitePawn
    ensures WhitePawnScore(s[j := WhitePawn]) == WhitePawnScore(s) + 2 * j
  {
    var n := |s| - 1;
    var t := s[j := WhitePawn];
    if j < n {
      assert t[..n] == s[..n][j := WhitePawn];
      WhitePawnScoreAdd(s[..n], j);
    } else {
      assert t[..n] == s[..n];
    }
  }

  /** Twice the distance to cell 15 of every Black pawn of `s`, summed; `s`
      is a prefix of a board. */
  function BlackPawnScore(s: seq<Cell>): (r: int)
    requires |s| <= 16
    ensures 0 <= r
  {
    if s == [] then 0
    else
      var n := |s| - 1;
      BlackPawnScore(s[..n]) + if s[n] == BlackPawn then 2 * (15 - n) else 0
  }

  /** A prefix of length n scores at most 2 * (15 + 14 + ... + (16 - n)). */
  lemma {:induction false} BlackPawnScoreBound(s: seq<Cell>)
    requires |s| <= 16
    ensures BlackPawnScore(s) <= 30 * |s| - |s| * (|s| - 1)
  {
    if s != [] {
      var n := |s| - 1;
      BlackPawnScoreBound(s[..n]);
      assert 30 * n - n * (n - 1) + 2 * (15 - n) == 30 * (n + 1) - (n + 1) * n;
    }
  }

  /** A board without Black pawns scores 0 for them. */
  lemma {:induction false} NoBlackPawns(s: seq<Cell>)
    requires |s| <= 16 && BlackPawn !in s
    ensures BlackPawnScore(s) == 0
  {
    if s != [] {
      assert s[..|s| - 1] <= s;
      NoBlackPawns(s[..|s| - 1]);
    }
  }

  /** Each Black pawn counts on its own: putting one on cell `j` adds
      2 * (15 - j). */
  lemma {:induction false} BlackPawnScoreAdd(s: seq<Cell>, j: int)
    requires |s| <= 16 && 0 <= j < |s| && s[j] != BlackPawn
    ensures BlackPawnScore(s[j := BlackPawn]) == BlackPawnScore(s) + 2 * (15 - j)
  {
    var n := |s| - 1;
    var t := s[j := BlackPawn];
    if j < n {
      assert t[..n] == s[..n][j := BlackPawn];
      BlackPawnScoreAdd(s[..n], j);
    } else {
      assert t[..n] == s[..n];
    }
  }

  /** The improved estimate: five times the last White king's index minus
      the last Black king's index, plus the White pawn score, minus the
      Black pawn score, once both kings are on the board. */
  function ImprovedEstimate(p: seq<Cell>): (r: int)
    requires IsBoard(p)
    ensures WhiteKing !in p ==> r == 100
    ensures WhiteKing in p && BlackKing !in p ==> r == -100
    ensures -Bound <= r <= Bound
  {
    var wk := LastIndexOf(p, WhiteKing);
    var bk := LastIndexOf(p, BlackKing);
    WhitePawnScoreBound(p);
    BlackPawnScoreBound(p);
    if wk == -1 then 100
    else if bk == -1 then -100
    else 5 * (wk - bk) + WhitePawnScore(p) - BlackPawnScore(p)
  }

  /** The estimate of either variant. */
  function Estimate(v: Variant, p: seq<Cell>): (r: int)
    requires IsBoard(p)
    ensures WhiteKing !in p ==> r == 100
    ensures WhiteKing in p && BlackKing !in p ==> r == -100
    ensures -Bound <= r <= Bound
  {
    match v
    case Basic => BasicEstimate(p)
    case Improved => ImprovedEstimate(p)
  }

  /** `white_win` and `black_win`: the index of the first cell holding
      `king`, or -1. */
  method KingIndex(P: array<Cell>, king: Cell) returns (i: int)
    ensures i == FirstIndexOf(P[..], king)
  {
    for k := 0 to P.Length
      invariant forall t :: 0 <= t < k ==> P[t] != king
    {
      if P[k] == king {
        FirstIndexOfAt(P[..], king, k);
        return k;
      }
    }
    return -1;
  }

  /** Basic `estimate_position`. */
  method EstimateBasic(P: array<Cell>) returns (r: int)
    requires P.Length == 16
    ensures r == BasicEstimate(P[..])
  {
    var i := KingIndex(P, WhiteKing);
    var j := KingIndex(P, BlackKing);

    if i == -1 {
      return 100;
    } else if j == -1 {
      return -100;
    } else {
      return i + j - 15;
    }
  }

  /** Improved `estimate_position`: one pass that records the last index of
      each king and accumulates both pawn scores. */
  method EstimateImproved(P: array<Cell>) returns (r: int)
    requires P.Length == 16
    ensures r == ImprovedEstimate(P[..])
  {
    var whiteKingPos := -1;
    var blackKingPos := -1;
    var whitePawnVal := 0;
    var blackPawnVal := 0;

    for i := 0 to P.Length
      invariant whiteKingPos == LastIndexOf(P[..i], WhiteKing)
      invariant blackKingPos == LastIndexOf(P[..i], BlackKing)
      invariant whitePawnVal == WhitePawnScore(P[..i])
      invariant blackPawnVal == BlackPawnScore(P[..i])
    {
      assert P[..i + 1][..i] == P[..i];
      match P[i]
      case WhiteKing => whiteKingPos := i;
      case BlackKing => blackKingPos := i;
      case WhitePawn => whitePawnVal := whitePawnVal + i * 2;
      case BlackPawn => blackPawnVal := blackPawnVal + (15 - i) * 2;
      case Empty =>
    }
    assert P[..P.Length] == P[..];

    if whiteKingPos == -1 {
      return 100;
    }
    if blackKingPos == -1 {
      return -100;
    }

    var positionScore := (whiteKingPos - blackKingPos) * 5;
    return positionScore + (whitePawnVal - blackPawnVal);
  }

  /** Either variant's `estimate_position`. */
  method EstimatePosition(v: Variant, P: array<Cell>) returns (r: int)
    requires P.Length == 16
    ensures r == Estimate(v, P[..])
  {
    match v
    case Basic => r := EstimateBasic(P);
    case Improved => r := EstimateImproved(P);
  }

  /** A position that is not scored +-100 holds both kings. */
  lemma KingsPresent(v: Variant, p: seq<Cell>)
    requires IsBoard(p) && Estimate(v, p) != 100 && Estimate(v, p) != -100
    ensures WhiteKing in p && BlackKing in p
  {
  }
}
