/** Searching a sequence for the first and the last occurrence of a value.
    Both searches answer -1 when the value does not occur, as the scans over
    the board do. */
module SeqIndex {

  /** Index of the first occurrence of `x` in `s`, or -1 when there is none. */
  function FirstIndexOf<T(==)>(s: seq<T>, x: T): (r: int)
    ensures -1 <= r < |s|
    ensures r == -1 <==> x !in s
    ensures 0 <= r ==> s[r] == x
  {
    if s == [] then -1
    else if s[0] == x then 0
    else
      var t := FirstIndexOf(s[1..], x);
      assert s == [s[0]] + s[1..];
      if t == -1 then -1 else t + 1
  }

  /** No occurrence of `x` comes before the one `FirstIndexOf` finds. */
  lemma {:induction false} FirstIndexOfIsFirst<T>(s: seq<T>, x: T)
    ensures forall k :: 0 <= k < FirstIndexOf(s, x) ==> s[k] != x
  {
    if s != [] && s[0] != x {
      FirstIndexOfIsFirst(s[1..], x);
    }
  }

  /** Index of the last occurrence of `x` in `s`, or -1 when there is none. */
  function LastIndexOf<T(==)>(s: seq<T>, x: T): (r: int)
    ensures -1 <= r < |s|
    ensures r == -1 <==> x !in s
    ensures 0 <= r ==> s[r] == x
  {
    if s == [] then -1
    else if s[|s| - 1] == x then |s| - 1
    else
      assert s == s[..|s| - 1] + [s[|s| - 1]];
      LastIndexOf(s[..|s| - 1], x)
  }

  /** No occurrence of `x` comes after the one `LastIndexOf` finds. */
  lemma {:induction false} LastIndexOfIsLast<T>(s: seq<T>, x: T)
    ensures forall k :: LastIndexOf(s, x) < k < |s| ==> s[k] != x
  {
    if s != [] && s[|s| - 1] != x {
      LastIndexOfIsLast(s[..|s| - 1], x);
    }
  }

  /** The index a left-to-right scan stops at is `FirstIndexOf`. */
  lemma FirstIndexOfAt<T>(s: seq<T>, x: T, r: int)
    requires 0 <= r < |s| && s[r] == x
    requires forall k :: 0 <= k < r ==> s[k] != x
    ensures FirstIndexOf(s, x) == r
  {
    FirstIndexOfIsFirst(s, x);
  }

  /** The index a right-to-left scan stops at is `LastIndexOf`. */
  lemma LastIndexOfAt<T>(s: seq<T>, x: T, r: int)
    requires 0 <= r < |s| && s[r] == x
    requires forall k :: r < k < |s| ==> s[k] != x
    ensures LastIndexOf(s, x) == r
  {
    LastIndexOfIsLast(s, x);
  }

  /** Extending a sequence at the end moves its first occurrence of `x` only
      when `x` did not occur before. */
  lemma FirstIndexOfAppend<T>(s: seq<T>, y: T, x: T)
    ensures FirstIndexOf(s + [y], x) ==
            if x in s then FirstIndexOf(s, x) else if y == x then |s| else -1
  {
    var t := s + [y];
    assert forall k :: 0 <= k < |s| ==> t[k] == s[k];
    assert t[|s|] == y;
    FirstIndexOfIsFirst(s, x);
    if x in s {
      var r := FirstIndexOf(s, x);
      assert t[r] == x;
      FirstIndexOfAt(t, x, r);
    } else if y == x {
      assert x in t;
      FirstIndexOfAt(t, x, |s|);
    } else {
      assert x !in t;
    }
  }
}
