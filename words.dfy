/** Word rules of the word-ladder game: lower-casing, dictionary membership,
    the one-letter-difference relation, and the filter of the dictionary by
    word length. */
module Words {

  /** ASCII lower-casing of one character (JavaScript's toLowerCase restricted
      to the letters A-Z). */
  function LowerChar(c: char): char {
    if 'A' <= c <= 'Z' then (c as int - 'A' as int + 'a' as int) as char else c
  }

  /** No upper-case ASCII letter occurs in `s`. */
  predicate IsLower(s: string) {
    forall i :: 0 <= i < |s| ==> !('A' <= s[i] <= 'Z')
  }

  /** `s.toLowerCase()`: keeps the length, agrees with `s` at every position
      up to case, yields a lower-case word, and leaves a word that is already
      lower-case as it is. */
  function ToLower(s: string): (r: string)
    ensures |r| == |s|
    ensures forall i :: 0 <= i < |s| ==> LowerChar(r[i]) == LowerChar(s[i])
    ensures IsLower(r)
    ensures IsLower(s) ==> r == s
  {
    seq(|s|, i requires 0 <= i < |s| => LowerChar(s[i]))
  }

  lemma ToLowerIdempotent(s: string)
    ensures ToLower(ToLower(s)) == ToLower(s)
  {
  }

  predicate NoDuplicates(s: seq<string>) {
    forall i, j :: 0 <= i < j < |s| ==> s[i] != s[j]
  }

  /** The dictionary is the key list of a JSON object (so no word occurs twice)
      and holds canonical lower-case words. */
  predicate WellFormedDictionary(dict: seq<string>) {
    NoDuplicates(dict) && forall w :: w in dict ==> IsLower(w)
  }

  /** The dictionary words of length `n`, as a set. */
  ghost function WordsOfLength(dict: seq<string>, n: nat): set<string> {
    set w | w in dict && |w| == n
  }

  /** isValidWord: membership of the lower-cased word. Over a well-formed
      dictionary this is a case-insensitive match against some entry. */
  function IsValidWord(dict: seq<string>, word: string): (r: bool)
    ensures WellFormedDictionary(dict) ==>
              (r <==> exists d :: d in dict && ToLower(d) == ToLower(word))
  {
    ToLower(word) in dict
  }

  /** Number of positions below `n` at which `a` and `b` differ: the value of
      the `diff` counter after `n` rounds of the comparison loop. */
  function MismatchesBefore(a: string, b: string, n: nat): nat
    requires n <= |a| && n <= |b|
  {
    if n == 0 then 0
    else MismatchesBefore(a, b, n - 1) + (if a[n - 1] != b[n - 1] then 1 else 0)
  }

  /** The one-letter-difference relation: equal lengths and exactly one
      differing position (counted). */
  predicate OneLetterDiff(a: string, b: string) {
    |a| == |b| && MismatchesBefore(a, b, |a|) == 1
  }

  /** isOneLetterDiff: rejects words of different length, then counts the
      differing positions. */
  method IsOneLetterDiff(word1: string, word2: string) returns (r: bool)
    ensures r == OneLetterDiff(word1, word2)
  {
    if |word1| != |word2| {
      return false;
    }
    var diff := 0;
    for i := 0 to |word1|
      invariant diff == MismatchesBefore(word1, word2, i)
    {
      if word1[i] != word2[i] {
        diff := diff + 1;
      }
    }
    return diff == 1;
  }

  lemma {:induction false} MismatchesSymmetric(a: string, b: string, n: nat)
    requires n <= |a| && n <= |b|
    ensures MismatchesBefore(a, b, n) == MismatchesBefore(b, a, n)
  {
    if n > 0 {
      MismatchesSymmetric(a, b, n - 1);
    }
  }

  /** The relation is symmetric. */
  lemma OneLetterDiffSymmetric(a: string, b: string)
    ensures OneLetterDiff(a, b) == OneLetterDiff(b, a)
  {
    if |a| == |b| {
      MismatchesSymmetric(a, b, |a|);
    }
  }

  /** No positions differ below `n` exactly when the prefixes agree. */
  lemma {:induction false} ZeroMismatches(a: string, b: string, n: nat)
    requires n <= |a| && n <= |b|
    ensures MismatchesBefore(a, b, n) == 0 <==> forall j :: 0 <= j < n ==> a[j] == b[j]
  {
    if n > 0 {
      ZeroMismatches(a, b, n - 1);
    }
  }

  /** A word is never one letter away from itself: identical words count zero
      differences, so they are an invalid transformation. */
  lemma OneLetterDiffIrreflexive(a: string)
    ensures !OneLetterDiff(a, a)
  {
    ZeroMismatches(a, a, |a|);
  }

  /** Exactly one differing position below `n`. */
  predicate UniqueMismatch(a: string, b: string, n: nat, i: nat)
    requires n <= |a| && n <= |b|
  {
    i < n && a[i] != b[i] && forall j :: 0 <= j < n && j != i ==> a[j] == b[j]
  }

  lemma {:induction false} OneMismatch(a: string, b: string, n: nat)
    requires n <= |a| && n <= |b|
    ensures MismatchesBefore(a, b, n) == 1 <==> exists i :: UniqueMismatch(a, b, n, i)
  {
    if n > 0 {
      OneMismatch(a, b, n - 1);
      ZeroMismatches(a, b, n - 1);
      if MismatchesBefore(a, b, n) == 1 {
        if a[n - 1] != b[n - 1] {
          assert UniqueMismatch(a, b, n, n - 1);
        } else {
          var i: nat :| UniqueMismatch(a, b, n - 1, i);
          assert UniqueMismatch(a, b, n, i);
        }
      }
      if i: nat :| UniqueMismatch(a, b, n, i) {
        if i == n - 1 {
          assert forall j :: 0 <= j < n - 1 ==> a[j] == b[j];
        } else {
          assert UniqueMismatch(a, b, n - 1, i);
        }
      }
    }
  }

  /** The counting definition agrees with "equal lengths and exactly one index
      at which the characters differ". */
  lemma OneLetterDiffExactlyOne(a: string, b: string)
    ensures OneLetterDiff(a, b) <==> |a| == |b| && exists i :: UniqueMismatch(a, b, |a|, i)
  {
    if |a| == |b| {
      OneMismatch(a, b, |a|);
    }
  }

  /** `wordList.filter(word => word.length === n)`: keeps exactly the words of
      length `n`, and a list without repeats gives a list without repeats. */
  function FilterByLength(dict: seq<string>, n: nat): (r: seq<string>)
    ensures forall w :: w in r <==> w in dict && |w| == n
    ensures |r| <= |dict|
    ensures NoDuplicates(dict) ==> NoDuplicates(r)
  {
    if dict == [] then []
    else
      var rest := FilterByLength(dict[1..], n);
      assert forall w :: w in dict <==> w == dict[0] || w in dict[1..];
      if |dict[0]| == n then [dict[0]] + rest else rest
  }
}
