/** What several modules need and none of them is about. */
module Basics {

  datatype Option<T> = None | Some(value: T)

  function Min(a: nat, b: nat): nat { if a <= b then a else b }

  function Max(a: int, b: int): int { if a >= b then a else b }

  // ---------- sums over a sequence ----------

  ghost function Sum<T>(s: seq<T>, f: T -> nat): nat {
    if s == [] then 0 else Sum(s[..|s| - 1], f) + f(s[|s| - 1])
  }

  lemma {:induction false} SumUpdate<T>(s: seq<T>, f: T -> nat, i: nat, x: T)
    requires i < |s|
    ensures Sum(s[i := x], f) == Sum(s, f) - f(s[i]) + f(x)
  {
    var n := |s| - 1;
    if i == n {
      assert s[i := x][..n] == s[..n];
    } else {
      assert s[i := x][..n] == s[..n][i := x];
      SumUpdate(s[..n], f, i, x);
    }
  }

  // ---------- pieces put together ----------

  ghost function Joined<T>(pieces: seq<seq<T>>): seq<T> {
    if pieces == [] then [] else Joined(pieces[..|pieces| - 1]) + pieces[|pieces| - 1]
  }

  lemma {:induction false} JoinedFirst<T>(first: seq<T>, pieces: seq<seq<T>>)
    ensures Joined([first] + pieces) == first + Joined(pieces)
  {
    var all := [first] + pieces;
    if pieces != [] {
      JoinedFirst(first, pieces[..|pieces| - 1]);
      assert all[..|all| - 1] == [first] + pieces[..|pieces| - 1];
    } else {
      assert all[..0] == [];
    }
  }
}
