/** The hint finder: a breadth-first search from the current word to the target
    word over the dictionary words of the current word's length, two words
    being adjacent when they are one letter apart. */
module HintFinder {
  import opened Words
  import opened Ladders
  import opened SearchInvariant

  /** Values of the session's `hint`: `null`, `undefined` (the second entry of
      a one-word path) or a string. */
  datatype Hint = Cleared | Undefined | Text(s: string)

  /** The hint shown when the search exhausts the graph. */
  const NoValidPath: string := "No valid path"

  /** What a hint request promises, for the current word `current` and target
      `target` (both compared lower-cased) over the dictionary words of the
      current word's length: `undefined` when the two coincide, the second
      word of a shortest ladder when the target can be reached, and
      'No valid path' otherwise. */
  ghost predicate IsHintFor(dict: seq<string>, current: string, target: string, h: Hint) {
    var s, t, W := ToLower(current), ToLower(target), WordsOfLength(dict, |current|);
    (s == t ==> h == Undefined) &&
    (s != t && !Reachable(W, s, t) ==> h == Text(NoValidPath)) &&
    (s != t && Reachable(W, s, t) ==>
       h.Text? && exists p :: |p| >= 2 && p[1] == h.s && IsShortestLadder(W, p, s, t))
  }

  /** The hint given when a dequeued path reaches the target. */
  lemma HintWhenFound(dict: seq<string>, current: string, target: string,
                      queue: seq<seq<string>>, visited: set<string>, E: set<string>)
    requires SearchInv(WordsOfLength(dict, |current|), ToLower(current), ToLower(target),
                       queue, visited, E)
    requires |queue| > 0 && Last(queue[0]) == ToLower(target)
    ensures |queue[0]| >= 1
    ensures IsHintFor(dict, current, target,
                      if |queue[0]| > 1 then Text(queue[0][1]) else Undefined)
  {
    var W, path := WordsOfLength(dict, |current|), queue[0];
    assert IsLadder(W, path);
    if |path| > 1 {
      ShortestByLevel(W, path);
    }
  }

  /** The hint given when the queue runs empty: the expanded words contain the
      start, not the target, and are closed under neighbours. */
  lemma HintWhenExhausted(dict: seq<string>, current: string, target: string,
                          visited: set<string>, E: set<string>)
    requires SearchInv(WordsOfLength(dict, |current|), ToLower(current), ToLower(target),
                       [], visited, E)
    ensures IsHintFor(dict, current, target, Text(NoValidPath))
  {
    var W := WordsOfLength(dict, |current|);
    forall p | IsLadder(W, p) && p[0] == ToLower(current)
      ensures Last(p) != ToLower(target)
    {
      ClosedSetHoldsLadder(W, E, p);
    }
  }

  /** One round of the search's inner loop: every candidate word one letter
      from the end of `path` that is not yet visited is marked visited and
      queued as `path + [word]`, in candidate order. */
  method ExpandPath(ghost W: set<string>, s: string, path: seq<string>,
                    filteredWords: seq<string>, queue0: seq<seq<string>>,
                    visited0: set<string>, ghost E: set<string>)
    returns (queue: seq<seq<string>>, visited: set<string>)
    requires forall w :: w in filteredWords <==> w in W
    requires IsLadder(W, path) && path[0] == s
    requires QueuedLadders(W, s, queue0) && QueuedShortest(W, s, queue0)
    requires Levelled(queue0, |path|)
    requires Frontier(W, s, |path| - 1, visited0)
    requires visited0 <= W
    requires Tracked(visited0, E + {Last(path)}, queue0)
    ensures QueuedLadders(W, s, queue) && QueuedShortest(W, s, queue)
    ensures Levelled(queue, |path|)
    ensures Frontier(W, s, |path| - 1, visited)
    ensures visited0 <= visited <= W
    ensures Tracked(visited, E + {Last(path)}, queue)
    ensures forall w :: w in W && OneLetterDiff(Last(path), w) ==> w in visited
    ensures visited == visited0 ==> queue == queue0
    ensures |visited| == |visited0| + |queue| - |queue0|
    ensures AddedPaths(queue0, queue, visited0, visited, path)
  {
    queue, visited := queue0, visited0;
    var last := path[|path| - 1];
    for k := 0 to |filteredWords|
      invariant QueuedLadders(W, s, queue) && QueuedShortest(W, s, queue)
      invariant Levelled(queue, |path|)
      invariant Frontier(W, s, |path| - 1, visited)
      invariant visited0 <= visited <= W
      invariant Tracked(visited, E + {last}, queue)
      invariant forall m :: 0 <= m < k && OneLetterDiff(last, filteredWords[m]) ==>
                  filteredWords[m] in visited
      invariant visited == visited0 ==> queue == queue0
      invariant |visited| == |visited0| + |queue| - |queue0|
      invariant AddedPaths(queue0, queue, visited0, visited, path)
    {
      var word := filteredWords[k];
      var adjacent := IsOneLetterDiff(last, word);
      if !(word in visited) && adjacent {
        PushPath(W, s, path, word, queue, visited, E);
        AppendNewPath(queue0, queue, visited0, visited, path, word);
        visited := visited + {word};
        queue := queue + [path + [word]];
      }
    }
  }

  /** What one round of the inner loop adds to the queue: the queue before the
      round stays in front; each path added behind it is `path` extended by a
      word newly visited in the round; no two added paths end at the same
      word; and every newly visited word ends an added path. */
  ghost predicate AddedPaths(queue0: seq<seq<string>>, queue: seq<seq<string>>,
                             visited0: set<string>, visited: set<string>, path: seq<string>) {
    |queue| >= |queue0| && queue[..|queue0|] == queue0 &&
    (forall i :: |queue0| <= i < |queue| ==>
       queue[i] == path + [Last(queue[i])] && Last(queue[i]) in visited - visited0) &&
    (forall i, j :: |queue0| <= i < j < |queue| ==> Last(queue[i]) != Last(queue[j])) &&
    (forall w :: w in visited - visited0 ==>
       exists i :: |queue0| <= i < |queue| && Last(queue[i]) == w)
  }

  /** Appending `path + [word]` for a word not yet visited, and visiting it,
      keeps `AddedPaths`. */
  lemma AppendNewPath(queue0: seq<seq<string>>, queue: seq<seq<string>>,
                      visited0: set<string>, visited: set<string>,
                      path: seq<string>, word: string)
    requires AddedPaths(queue0, queue, visited0, visited, path)
    requires word !in visited && visited0 <= visited
    ensures AddedPaths(queue0, queue + [path + [word]], visited0, visited + {word}, path)
  {
    var queue', visited' := queue + [path + [word]], visited + {word};
    assert queue'[..|queue0|] == queue[..|queue0|];
    assert Last(queue'[|queue|]) == word;
    forall i | |queue0| <= i < |queue'|
      ensures queue'[i] == path + [Last(queue'[i])] && Last(queue'[i]) in visited' - visited0
    {
      if i < |queue| {
        assert queue'[i] == queue[i];
      }
    }
    forall i, j | |queue0| <= i < j < |queue'|
      ensures Last(queue'[i]) != Last(queue'[j])
    {
      assert queue'[i] == queue[i];
      if j < |queue| {
        assert queue'[j] == queue[j];
      }
    }
    forall w | w in visited' - visited0
      ensures exists i :: |queue0| <= i < |queue'| && Last(queue'[i]) == w
    {
      if w == word {
        assert Last(queue'[|queue|]) == w;
      } else {
        assert w in visited - visited0;
        var i :| |queue0| <= i < |queue| && Last(queue[i]) == w;
        assert queue'[i] == queue[i];
      }
    }
  }

  /** One round of the search's outer loop, for a head path that does not end
      at the target: the path is dequeued and expanded, and its end joins the
      expanded words, all of whose neighbours are now visited. Either a word
      was newly visited or the queue shrank. */
  method ExpandHead(ghost W: set<string>, s: string, t: string, filteredWords: seq<string>,
                    queue0: seq<seq<string>>, visited0: set<string>, ghost E0: set<string>)
    returns (queue: seq<seq<string>>, visited: set<string>, ghost E: set<string>)
    requires forall w :: w in filteredWords <==> w in W
    requires SearchInv(W, s, t, queue0, visited0, E0)
    requires |queue0| > 0 && Last(queue0[0]) != t
    ensures SearchInv(W, s, t, queue, visited, E)
    ensures visited0 <= visited
    ensures |W - visited| < |W - visited0| || (visited == visited0 && |queue| < |queue0|)
    ensures E == E0 + {Last(queue0[0])}
    ensures forall w :: w in W && OneLetterDiff(Last(queue0[0]), w) ==> w in visited
    ensures AddedPaths(queue0[1..], queue, visited0, visited, queue0[0])
  {
    var path := queue0[0];
    BeginExpansion(W, s, t, queue0, visited0, E0);
    queue, visited := ExpandPath(W, s, path, filteredWords, queue0[1..], visited0, E0);
    FinishExpansion(W, s, t, path, E0, visited0, visited, queue);
    E := E0 + {Last(path)};
    if visited != visited0 {
      SubsetCardinality(W, visited0, visited);
    }
  }

  /** showHint: breadth-first search with a queue of paths and a visited set.
      The start word is not marked visited, the target test is made when a
      path is dequeued, and the candidates are the dictionary words of the
      current word's length, in dictionary order. */
  method FindHint(dict: seq<string>, current: string, target: string)
    returns (h: Hint)
    ensures IsHintFor(dict, current, target, h)
  {
    ghost var W := WordsOfLength(dict, |current|);
    var s, t := ToLower(current), ToLower(target);
    var visited: set<string> := {};
    var queue: seq<seq<string>> := [[s]];
    var filteredWords := FilterByLength(dict, |current|);
    ghost var E: set<string> := {};
    SearchStart(W, s, t);

    while |queue| > 0
      invariant SearchInv(W, s, t, queue, visited, E)
      decreases |W - visited|, |queue|
    {
      var path := queue[0];
      var last := path[|path| - 1];
      if last == t {
        HintWhenFound(dict, current, target, queue, visited, E);
        if |path| > 1 {
          h := Text(path[1]);
        } else {
          h := Undefined;
        }
        return;
      }
      queue, visited, E := ExpandHead(W, s, t, filteredWords, queue, visited, E);
    }
    HintWhenExhausted(dict, current, target, visited, E);
    h := Text(NoValidPath);
  }

  /** A hint for a reachable target is a dictionary word of the current word's
      length, one letter from the lower-cased current word, from which the
      target is one step closer: the rest of the shortest ladder is itself a
      shortest ladder. Over a well-formed dictionary it cannot be mistaken for
      'No valid path'. */
  lemma HintIsNextMove(dict: seq<string>, current: string, target: string, h: Hint)
    requires IsHintFor(dict, current, target, h)
    requires ToLower(current) != ToLower(target)
    requires Reachable(WordsOfLength(dict, |current|), ToLower(current), ToLower(target))
    ensures h.Text? && h.s in dict && |h.s| == |current|
    ensures OneLetterDiff(ToLower(current), h.s)
    ensures WellFormedDictionary(dict) ==> h != Text(NoValidPath)
    ensures exists p :: |p| >= 2 && p[1] == h.s &&
                        IsShortestLadder(WordsOfLength(dict, |current|), p, ToLower(current), ToLower(target)) &&
                        IsShortestLadder(WordsOfLength(dict, |current|), p[1..], h.s, ToLower(target))
  {
    var W, s, t := WordsOfLength(dict, |current|), ToLower(current), ToLower(target);
    var p :| |p| >= 2 && p[1] == h.s && IsShortestLadder(W, p, s, t);
    assert p[1] in W && OneLetterDiff(p[0], p[1]);
    SuffixOfShortest(W, p, s, t);
    if WellFormedDictionary(dict) {
      assert IsLower(h.s);
      assert NoValidPath[0] == 'N';
    }
  }


  /** A target whose length differs from the current word's is never
      reachable: the hint is 'No valid path'. */
  lemma NoPathAcrossLengths(dict: seq<string>, current: string, target: string, h: Hint)
    requires IsHintFor(dict, current, target, h)
    requires |target| != |current|
    ensures h == Text(NoValidPath)
  {
    var W, s, t := WordsOfLength(dict, |current|), ToLower(current), ToLower(target);
    forall p | IsLadder(W, p) && p[0] == s
      ensures Last(p) != t
    {
      LadderStaysInWords(W, p);
    }
  }
}
