/** Choice of the start and target words of a new puzzle. */
module WordPair {
  import opened Words

  /** The pair returned when fewer than two words have the requested length. */
  const FallbackPair: (string, string) := ("cold", "warm")

  /** `Math.floor(draw * n)` for a draw of `Math.random()`, which lies in [0, 1). */
  function DrawIndex(draw: real, n: nat): (i: int)
    requires 0.0 <= draw < 1.0
    ensures n > 0 ==> 0 <= i < n
  {
    assert 0.0 <= draw * (n as real) by {
      MulNonNegative(draw, n as real);
    }
    assert draw * (n as real) <= (n as real) by {
      MulNonNegative(1.0 - draw, n as real);
    }
    (draw * (n as real)).Floor
  }

  lemma MulNonNegative(x: real, y: real)
    requires 0.0 <= x && 0.0 <= y
    ensures 0.0 <= x * y
  {
  }

  /** What a new pair promises: the fallback when fewer than two words have
      length `n`, otherwise two distinct dictionary words of length `n`. */
  ghost predicate IsWordPair(dict: seq<string>, n: nat, start: string, target: string) {
    if |FilterByLength(dict, n)| < 2 then (start, target) == FallbackPair
    else start != target && start in dict && target in dict && |start| == n && |target| == n
  }

  /** getRandomWordPair: the first word is the filtered word at the drawn index;
      the redraw loop is modelled by choosing any filtered word that differs
      from the first. */
  method GetRandomWordPair(dict: seq<string>, wordLength: nat, draw: real)
    returns (first: string, second: string)
    requires NoDuplicates(dict)
    requires 0.0 <= draw < 1.0
    ensures IsWordPair(dict, wordLength, first, second)
    ensures var filtered := FilterByLength(dict, wordLength);
            |filtered| >= 2 ==> first == filtered[DrawIndex(draw, |filtered|)]
  {
    var filteredWords := FilterByLength(dict, wordLength);
    if |filteredWords| < 2 {
      return FallbackPair.0, FallbackPair.1;
    }
    var i := DrawIndex(draw, |filteredWords|);
    first := filteredWords[i];
    assert filteredWords[if i == 0 then 1 else 0] != first;
    var j :| 0 <= j < |filteredWords| && filteredWords[j] != first;
    second := filteredWords[j];
  }
}
