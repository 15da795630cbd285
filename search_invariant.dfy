/** The invariant of the hint search and the steps that keep it. */
module SearchInvariant {
  import opened Words
  import opened Ladders

  // Invariants of the search, over the queue of paths, the visited set and
  // the ghost set E of words whose paths have been dequeued and expanded.

  /** Every queued path is a ladder from the start word `s`. */
  ghost predicate QueuedLadders(W: set<string>, s: string, queue: seq<seq<string>>) {
    forall i :: 0 <= i < |queue| ==> IsLadder(W, queue[i]) && queue[i][0] == s
  }

  /** Queued paths have lengths in [lo, lo + 1], in non-decreasing order. */
  ghost predicate Levelled(queue: seq<seq<string>>, lo: nat) {
    (forall i, j :: 0 <= i <= j < |queue| ==> |queue[i]| <= |queue[j]|) &&
    (forall i :: 0 <= i < |queue| ==> lo <= |queue[i]| <= lo + 1)
  }

  /** The end of each queued path other than `s` cannot be reached in fewer
      steps than the path takes. */
  ghost predicate QueuedShortest(W: set<string>, s: string, queue: seq<seq<string>>) {
    forall i :: 0 <= i < |queue| && 2 <= |queue[i]| && Last(queue[i]) != s ==>
      Last(queue[i]) !in Within(W, s, |queue[i]| - 2)
  }

  /** Every word within `k` steps of `s`, except `s` itself, is visited. */
  ghost predicate Frontier(W: set<string>, s: string, k: nat, visited: set<string>) {
    forall w :: w in Within(W, s, k) ==> w == s || w in visited
  }

  /** Every visited word is expanded or ends a queued path. */
  ghost predicate Tracked(visited: set<string>, E: set<string>, queue: seq<seq<string>>) {
    forall w :: w in visited ==> w in E || exists i :: 0 <= i < |queue| && Last(queue[i]) == w
  }

  /** Every neighbour of an expanded word is visited. */
  ghost predicate Closed(W: set<string>, E: set<string>, visited: set<string>) {
    forall u, w :: u in E && w in W && OneLetterDiff(u, w) ==> w in visited
  }

  /** The step from one breadth-first level to the next: when every word of
      level `k` other than `s` is visited, the expanded words have their
      neighbours visited, and the remaining visited words end queued paths of
      more than `k + 1` words, then every word of level `k + 1` is visited. */
  lemma AdvanceLevel(W: set<string>, s: string, k: nat, E: set<string>, visited: set<string>,
                     queue: seq<seq<string>>)
    requires Frontier(W, s, k, visited)
    requires s in E && Closed(W, E, visited) && Tracked(visited, E, queue)
    requires Levelled(queue, k + 2) && QueuedShortest(W, s, queue)
    ensures Frontier(W, s, k + 1, visited)
  {
    forall w | w in Within(W, s, k + 1)
      ensures w == s || w in visited
    {
      if w !in Within(W, s, k) {
        assert w in Neighbours(W, Within(W, s, k));
        var u :| u in Within(W, s, k) && OneLetterDiff(u, w);
        NeighbourOfLevel(W, s, k, E, visited, queue, u);
        assert u in E;
      }
    }
  }

  /** A word of level `k` is expanded: otherwise it is visited and ends a
      queued path of at least `k + 2` words, whose end lies outside level `k`. */
  lemma NeighbourOfLevel(W: set<string>, s: string, k: nat, E: set<string>,
                         visited: set<string>, queue: seq<seq<string>>, u: string)
    requires Frontier(W, s, k, visited)
    requires s in E && Tracked(visited, E, queue)
    requires Levelled(queue, k + 2) && QueuedShortest(W, s, queue)
    requires u in Within(W, s, k)
    ensures u in E
  {
    if u !in E {
      assert u != s && u in visited;
      var i :| 0 <= i < |queue| && Last(queue[i]) == u;
      assert k + 2 <= |queue[i]|;
      WithinMonotone(W, s, k, |queue[i]| - 2);
      assert false;
    }
  }

  /** After a path of level `|path| - 1` is expanded, the new head of the
      queue (of the same level or the next) has its frontier visited. */
  lemma NextHeadFrontier(W: set<string>, s: string, path: seq<string>, E: set<string>,
                         visited: set<string>, queue: seq<seq<string>>)
    requires |path| >= 1 && s in E
    requires Frontier(W, s, |path| - 1, visited)
    requires Closed(W, E, visited) && Tracked(visited, E, queue)
    requires Levelled(queue, |path|) && QueuedShortest(W, s, queue)
    ensures |queue| > 0 ==> Levelled(queue, |queue[0]|) && Frontier(W, s, |queue[0]| - 1, visited)
  {
    if |queue| > 0 && |queue[0]| == |path| + 1 {
      AdvanceLevel(W, s, |path| - 1, E, visited, queue);
    }
  }

  /** Appending `path + [word]` for an unvisited neighbour `word` of the
      path's end keeps the queue invariants. */
  lemma PushPath(W: set<string>, s: string, path: seq<string>, word: string,
                 queue: seq<seq<string>>, visited: set<string>, E: set<string>)
    requires IsLadder(W, path) && path[0] == s
    requires word in W && word !in visited && OneLetterDiff(Last(path), word)
    requires Frontier(W, s, |path| - 1, visited)
    requires QueuedLadders(W, s, queue) && Levelled(queue, |path|) && QueuedShortest(W, s, queue)
    requires Tracked(visited, E + {Last(path)}, queue)
    ensures var queue', visited' := queue + [path + [word]], visited + {word};
            QueuedLadders(W, s, queue') && Levelled(queue', |path|) &&
            QueuedShortest(W, s, queue') && Tracked(visited', E + {Last(path)}, queue')
  {
    var np := path + [word];
    assert Last(np) == word;
    assert IsLadder(W, np);
    PushLadder(W, s, queue, np);
    PushLevelled(queue, |path|, np);
    PushShortest(W, s, queue, np, visited);
    PushTracked(visited, E + {Last(path)}, queue, np);
  }

  lemma PushLadder(W: set<string>, s: string, queue: seq<seq<string>>, np: seq<string>)
    requires QueuedLadders(W, s, queue) && IsLadder(W, np) && np[0] == s
    ensures QueuedLadders(W, s, queue + [np])
  {
    var queue' := queue + [np];
    forall i | 0 <= i < |queue'|
      ensures IsLadder(W, queue'[i]) && queue'[i][0] == s
    {
      if i < |queue| {
        assert queue'[i] == queue[i];
      }
    }
  }

  lemma PushLevelled(queue: seq<seq<string>>, lo: nat, np: seq<string>)
    requires Levelled(queue, lo) && |np| == lo + 1
    ensures Levelled(queue + [np], lo)
  {
    var queue' := queue + [np];
    assert forall i :: 0 <= i < |queue| ==> queue'[i] == queue[i];
    assert queue'[|queue|] == np;
  }

  /** The new path ends at a word outside level `|np| - 2`: every word of that
      level other than `s` is visited, and the end is not. */
  lemma PushShortest(W: set<string>, s: string, queue: seq<seq<string>>, np: seq<string>,
                     visited: set<string>)
    requires QueuedShortest(W, s, queue) && |np| >= 2
    requires Frontier(W, s, |np| - 2, visited) && Last(np) !in visited
    ensures QueuedShortest(W, s, queue + [np])
  {
    var queue' := queue + [np];
    forall i | 0 <= i < |queue'| && 2 <= |queue'[i]| && Last(queue'[i]) != s
      ensures Last(queue'[i]) !in Within(W, s, |queue'[i]| - 2)
    {
      if i < |queue| {
        assert queue'[i] == queue[i];
      } else {
        assert queue'[i] == np;
      }
    }
  }

  lemma PushTracked(visited: set<string>, E: set<string>, queue: seq<seq<string>>,
                    np: seq<string>)
    requires Tracked(visited, E, queue) && |np| >= 1
    ensures Tracked(visited + {Last(np)}, E, queue + [np])
  {
    var queue' := queue + [np];
    forall w | w in visited + {Last(np)}
      ensures w in E || exists i :: 0 <= i < |queue'| && Last(queue'[i]) == w
    {
      if w == Last(np) {
        assert queue'[|queue|] == np;
      } else if w !in E {
        var i :| 0 <= i < |queue| && Last(queue[i]) == w;
        assert queue'[i] == queue[i];
      }
    }
  }

  /** Expanding `last` (all its neighbours now visited) keeps the expanded
      words closed. */
  lemma ClosedAfterExpansion(W: set<string>, E: set<string>, last: string,
                             visited0: set<string>, visited: set<string>)
    requires Closed(W, E, visited0) && visited0 <= visited
    requires forall w :: w in W && OneLetterDiff(last, w) ==> w in visited
    ensures Closed(W, E + {last}, visited)
  {
  }

  /** The invariant of the search loop, for start `s` and target `t`. */
  ghost predicate SearchInv(W: set<string>, s: string, t: string, queue: seq<seq<string>>,
                            visited: set<string>, E: set<string>) {
    QueuedLadders(W, s, queue) && QueuedShortest(W, s, queue) &&
    (|queue| > 0 ==> Levelled(queue, |queue[0]|) && Frontier(W, s, |queue[0]| - 1, visited)) &&
    visited <= W && Tracked(visited, E, queue) && Closed(W, E, visited) &&
    ((E == {} && queue == [[s]] && visited == {}) || s in E) &&
    t !in E
  }

  /** Dequeuing a path that does not end at the target sets up the inner loop:
      the rest of the queue satisfies its requirements, the path's end counting
      as expanded. */
  lemma BeginExpansion(W: set<string>, s: string, t: string, queue: seq<seq<string>>,
                       visited: set<string>, E: set<string>)
    requires SearchInv(W, s, t, queue, visited, E) && |queue| > 0 && Last(queue[0]) != t
    ensures var path, rest := queue[0], queue[1..];
            IsLadder(W, path) && path[0] == s &&
            QueuedLadders(W, s, rest) && QueuedShortest(W, s, rest) &&
            Levelled(rest, |path|) && Frontier(W, s, |path| - 1, visited) &&
            Tracked(visited, E + {Last(path)}, rest) &&
            (s in E || path == [s])
  {
    DequeueQueued(W, s, queue);
    DequeueTracked(visited, E, queue);
  }

  /** Removing the head of the queue keeps the per-path invariants of the rest. */
  lemma DequeueQueued(W: set<string>, s: string, queue: seq<seq<string>>)
    requires |queue| > 0 && QueuedLadders(W, s, queue) && QueuedShortest(W, s, queue)
    requires Levelled(queue, |queue[0]|)
    ensures QueuedLadders(W, s, queue[1..]) && QueuedShortest(W, s, queue[1..])
    ensures Levelled(queue[1..], |queue[0]|)
  {
    var rest := queue[1..];
    forall i | 0 <= i < |rest|
      ensures rest[i] == queue[i + 1]
    {
    }
  }

  /** A visited word that ended the dequeued path is now expanded. */
  lemma DequeueTracked(visited: set<string>, E: set<string>, queue: seq<seq<string>>)
    requires |queue| > 0 && Tracked(visited, E, queue)
    ensures Tracked(visited, E + {Last(queue[0])}, queue[1..])
  {
    var rest := queue[1..];
    forall w | w in visited
      ensures w in E + {Last(queue[0])} || exists i :: 0 <= i < |rest| && Last(rest[i]) == w
    {
      if w !in E && w != Last(queue[0]) {
        var i :| 0 <= i < |queue| && Last(queue[i]) == w;
        assert rest[i - 1] == queue[i];
      }
    }
  }

  /** After the inner loop, the search invariant holds again with the
      dequeued path's end added to the expanded words. */
  lemma FinishExpansion(W: set<string>, s: string, t: string, path: seq<string>,
                        E: set<string>, visited0: set<string>, visited: set<string>,
                        queue: seq<seq<string>>)
    requires |path| >= 1 && Last(path) != t && t !in E && (s in E || path == [s])
    requires Closed(W, E, visited0)
    requires QueuedLadders(W, s, queue) && QueuedShortest(W, s, queue)
    requires Levelled(queue, |path|) && Frontier(W, s, |path| - 1, visited)
    requires visited0 <= visited <= W
    requires Tracked(visited, E + {Last(path)}, queue)
    requires forall w :: w in W && OneLetterDiff(Last(path), w) ==> w in visited
    ensures SearchInv(W, s, t, queue, visited, E + {Last(path)})
  {
    ClosedAfterExpansion(W, E, Last(path), visited0, visited);
    NextHeadFrontier(W, s, path, E + {Last(path)}, visited, queue);
  }

  lemma SubsetCardinality(W: set<string>, a: set<string>, b: set<string>)
    requires a <= b <= W && a != b
    ensures |W - b| < |W - a|
  {
    assert !(b <= a);
    var x :| x in b && x !in a;
    assert W - a == (W - b) + (b - a);
    assert (W - b) * (b - a) == {};
    assert |b - a| >= 1;
  }

  /** The search starts from the one-word path `[s]`, with nothing visited
      and nothing expanded. */
  lemma SearchStart(W: set<string>, s: string, t: string)
    ensures SearchInv(W, s, t, [[s]], {}, {})
  {
    assert IsLadder(W, [s]);
    assert Within(W, s, 0) == {s};
  }
}
