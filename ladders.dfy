/** Word ladders over a set of words, and the breadth-first levels of the
    word graph around a start word. */
module Ladders {
  import opened Words

  /** Last entry of a path (the empty path never occurs). */
  function Last(p: seq<string>): string {
    if |p| == 0 then "" else p[|p| - 1]
  }

  /** A word ladder over the word set `W`: a non-empty sequence whose entries
      after the first are words of `W`, each one letter away from the entry
      before it. The first entry is where the ladder starts and need not
      belong to `W`. */
  ghost predicate IsLadder(W: set<string>, p: seq<string>) {
    |p| >= 1 &&
    forall i :: 1 <= i < |p| ==> p[i] in W && OneLetterDiff(p[i - 1], p[i])
  }

  ghost predicate Reachable(W: set<string>, s: string, t: string) {
    exists p :: IsLadder(W, p) && p[0] == s && Last(p) == t
  }

  /** `p` leads from `s` to `t`, and no ladder from `s` to `t` is shorter. */
  ghost predicate IsShortestLadder(W: set<string>, p: seq<string>, s: string, t: string) {
    IsLadder(W, p) && p[0] == s && Last(p) == t &&
    forall q :: IsLadder(W, q) && q[0] == s && Last(q) == t ==> |p| <= |q|
  }

  /** Words of `W` one letter away from some word of `U`. */
  ghost function Neighbours(W: set<string>, U: set<string>): set<string> {
    set w | w in W && exists u :: u in U && OneLetterDiff(u, w)
  }

  /** The words reachable from `s` in at most `k` steps. */
  ghost function Within(W: set<string>, s: string, k: nat): set<string> {
    if k == 0 then {s} else Within(W, s, k - 1) + Neighbours(W, Within(W, s, k - 1))
  }

  lemma {:induction false} WithinMonotone(W: set<string>, s: string, j: nat, k: nat)
    requires j <= k
    ensures Within(W, s, j) <= Within(W, s, k)
  {
    if j < k {
      WithinMonotone(W, s, j, k - 1);
    }
  }

  /** The end of a ladder of `n` steps is reachable within `n` steps. */
  lemma {:induction false} LadderEndWithin(W: set<string>, p: seq<string>)
    requires IsLadder(W, p)
    ensures Last(p) in Within(W, p[0], |p| - 1)
  {
    if |p| > 1 {
      var q := p[..|p| - 1];
      assert IsLadder(W, q);
      LadderEndWithin(W, q);
      assert Last(p) in Neighbours(W, Within(W, p[0], |q| - 1));
    }
  }

  /** A ladder whose end is not reachable in fewer steps is a shortest one. */
  lemma ShortestByLevel(W: set<string>, p: seq<string>)
    requires IsLadder(W, p) && |p| >= 2
    requires Last(p) !in Within(W, p[0], |p| - 2)
    ensures IsShortestLadder(W, p, p[0], Last(p))
  {
    forall q | IsLadder(W, q) && q[0] == p[0] && Last(q) == Last(p)
      ensures |p| <= |q|
    {
      LadderEndWithin(W, q);
      if |q| < |p| {
        WithinMonotone(W, p[0], |q| - 1, |p| - 2);
      }
    }
  }

  /** A set containing the start of a ladder and closed under taking
      neighbours in `W` contains the end of the ladder. */
  lemma {:induction false} ClosedSetHoldsLadder(W: set<string>, E: set<string>, p: seq<string>)
    requires IsLadder(W, p) && p[0] in E
    requires forall u, w :: u in E && w in W && OneLetterDiff(u, w) ==> w in E
    ensures Last(p) in E
  {
    if |p| > 1 {
      var q := p[..|p| - 1];
      assert IsLadder(W, q);
      ClosedSetHoldsLadder(W, E, q);
    }
  }

  /** Dropping the first word of a shortest ladder leaves a shortest ladder
      from its second word. */
  lemma SuffixOfShortest(W: set<string>, p: seq<string>, s: string, t: string)
    requires |p| >= 2 && IsShortestLadder(W, p, s, t)
    ensures IsShortestLadder(W, p[1..], p[1], t)
  {
    var rest := p[1..];
    assert IsLadder(W, rest);
    forall q | IsLadder(W, q) && q[0] == p[1] && Last(q) == t
      ensures |rest| <= |q|
    {
      var longer := [s] + q;
      assert IsLadder(W, longer);
      assert Last(longer) == t;
    }
  }

  /** Every ladder from `s` stays among the words of `W` and `s` itself. */
  lemma LadderStaysInWords(W: set<string>, p: seq<string>)
    requires IsLadder(W, p)
    ensures Last(p) in W || Last(p) == p[0]
  {
  }
}
