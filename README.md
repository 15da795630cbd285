# Word-ladder game engine

A Dafny model of the game engine of a word-ladder puzzle app. The player gets
a start word and a target word of the same length. They reach the target by
changing one letter at a time, and every intermediate word must be in the
dictionary.

The engine has four parts.

- **Word rules** (`words.dfy`, module `Words`):
  - lower-casing;
  - dictionary membership (`isValidWord`);
  - the one-letter-difference test (`isOneLetterDiff`);
  - the filter of the dictionary by word length.
- **Pair selection** (`word_pair.dfy`, module `WordPair`): `getRandomWordPair`.
  It draws two distinct words of the chosen length. When fewer than two such
  words exist, it returns the fixed pair `("cold", "warm")`.
- **Hint finder** (`ladders.dfy`, `search_invariant.dfy`, `hint_finder.dfy`):
  - `showHint` is a breadth-first search over the dictionary words of the
    current word's length, two words being adjacent when they differ in one
    letter.
  - It keeps a queue of paths and a visited set. The start word is not marked
    visited, and the target test is made when a path is dequeued.
  - The hint is the second word of the first path that reaches the target
    (`undefined` for a one-word path), or `'No valid path'`.
  - Module `Ladders` defines ladders, shortest ladders and the BFS levels
    `Within(W, s, k)`.
  - Module `SearchInvariant` holds the loop invariant of the search and the
    steps that keep it.
  - Module `HintFinder` holds the search itself.
- **Session** (`game.dfy`, module `Game`):
  - The component state is a class `Game` with the fields `startWord`,
    `targetWord`, `currentWord`, `history`, `input`, `gameStarted`,
    `wordLength` and `hint`.
  - Its handlers are methods that update those fields in place: `startGame`,
    `handleSubmit`, `handleUndo`, `handleRestart` and `showHint`.
  - The start, submit, undo and restart handlers each ensure
    `State() == F(old(State()))`. Here `F` is a function on the `Session`
    datatype (`Started`, `Submitted`, `Undone`, `Restarted`). The properties
    of those handlers are proved as lemmas about these functions.
  - The hint handler ensures that only the hint changes, and that the new
    hint satisfies `IsHintFor`.
  - The class invariant `Valid()` says:
    - the dictionary is well formed;
    - the history is not empty while a game is on;
    - there is either no history and no current word, or the history is a
      word ladder over the dictionary from the start word to the current word.

The dictionary is a sequence of strings. It holds the keys of a JSON object,
so no word occurs twice. Where a property needs it, the dictionary is assumed
to hold lower-case words (`WellFormedDictionary`).

Each alert raised by `handleSubmit` is returned as an `Outcome` value:
`InvalidWord`, `InvalidTransformation`, `Reached`, or `Accepted` when no alert
is raised. The `hint` field is the datatype `Hint`:
- `Cleared` for `null`;
- `Undefined` for the `undefined` that `path[1]` yields on a one-word path;
- `Text(s)` for a string.

Termination of the search is proved by the loop's `decreases` clause. It
decreases on the number of same-length words not yet visited, then on the
length of the queue. Each newly queued path marks one more word visited
(`ExpandPath`).

## Model

| member | source | states |
|---|---|---|
| Words.ToLower | App.js:19 | lower-casing keeps the length, agrees with the input at every position up to case, yields a word with no upper-case letter, and leaves an already lower-case word unchanged |
| Words.ToLowerIdempotent | App.js:54-55 | lower-casing twice is lower-casing once, so `isValidWord` applied to the already lower-cased input tests the same word |
| Words.IsValidWord | App.js:18-20 | over a well-formed dictionary, a word is valid iff some dictionary entry equals it case-insensitively |
| Words.IsOneLetterDiff | App.js:22-29 | the counting loop returns exactly the relation `OneLetterDiff`: equal lengths and one counted mismatch |
| Words.OneLetterDiffExactlyOne | App.js:22-29 | `OneLetterDiff` holds iff the lengths are equal and there is exactly one index at which the characters differ |
| Words.OneLetterDiffSymmetric | App.js:22-29 | the relation is symmetric |
| Words.OneLetterDiffIrreflexive | App.js:22-29 | a word is never one letter away from itself |
| Words.FilterByLength | App.js:32 | the filter keeps exactly the dictionary words of the given length, is no longer than the dictionary, and keeps a list without repeats without repeats |
| WordPair.DrawIndex | App.js:34 | `floor(draw * n)` of a draw in [0, 1) is a valid index into a non-empty list |
| WordPair.GetRandomWordPair | App.js:31-40 | with fewer than two words of the length the pair is `("cold", "warm")`; otherwise two distinct dictionary words of that length, the first being the filtered word at the drawn index |
| Ladders.ShortestByLevel | App.js:95-101 | a ladder whose end is not reachable in fewer steps than it takes is a shortest ladder |
| Ladders.SuffixOfShortest | App.js:99 | dropping the first word of a shortest ladder leaves a shortest ladder from its second word to the same target |
| Ladders.ClosedSetHoldsLadder | App.js:95-109 | a word set that contains the start of a ladder and is closed under one-letter steps contains the ladder's end |
| SearchInvariant.SearchStart | App.js:91-92 | the initial queue `[[start]]` with nothing visited satisfies the search invariant |
| SearchInvariant.BeginExpansion | App.js:96-97 | dequeuing a path that does not end at the target leaves the rest of the queue ready for the expansion of that path |
| SearchInvariant.PushPath | App.js:103-105 | queuing `path + [word]` for an unvisited neighbour keeps the queued paths ladders from the start, ordered by length within one level, ending at words not reachable in fewer steps, and every visited word tracked |
| SearchInvariant.AdvanceLevel | App.js:95-107 | once a level's words are visited and expanded, every word of the next level is visited |
| SearchInvariant.FinishExpansion | App.js:102-107 | after a path's neighbours are all visited, the search invariant holds with the path's end counted as expanded |
| HintFinder.ExpandPath | App.js:102-107 | the inner loop visits every neighbour of the path's end and keeps the queue invariants; the old queue stays at the front; each path added behind it is `path` extended by a word newly visited in the loop; no two added paths end at the same word, and every newly visited word ends one of them (`AddedPaths`) |
| HintFinder.AppendNewPath | App.js:103-105 | pushing `path + [word]` for an unvisited word and visiting it keeps `AddedPaths`: earlier queue as prefix, added paths as extensions of `path` by newly visited words, one added path per newly visited word |
| HintFinder.ExpandHead | App.js:95-107 | one round of the outer loop removes the head path, keeps the rest of the queue in front of the paths it adds (`AddedPaths`: each the head path extended by a distinct newly visited word, one per such word), visits every neighbour of the head path's end and adds that end to the expanded words, keeps the search invariant, and either visits a new word or shortens the queue |
| HintFinder.HintWhenFound | App.js:98-100 | the first dequeued path that ends at the target is a shortest ladder, so its second word is a correct hint, or `undefined` when the current word is the target |
| HintFinder.HintWhenExhausted | App.js:108-109 | when the queue runs empty, the target is unreachable and 'No valid path' is the correct hint |
| HintFinder.FindHint | App.js:90-110 | the search terminates; its hint is `undefined` when the current word is the target, the second word of a shortest ladder when the target is reachable, and 'No valid path' otherwise |
| HintFinder.HintIsNextMove | App.js:90-110 | a hint for a reachable, different target is a same-length dictionary word one letter from the current word, from which the rest of the ladder is itself shortest, and over a well-formed dictionary it is never 'No valid path' |
| HintFinder.NoPathAcrossLengths | App.js:93 | a target whose length differs from the current word's gets 'No valid path' |
| Ladders.LadderStaysInWords | App.js:102-105 | every word a ladder reaches is one of the candidate words, or is its start |
| Game.SubmitOutcome | App.js:53-66 | the input is reported invalid iff its lower-cased form is not in the dictionary (checked first); it is accepted iff it is in the dictionary and one letter from the current word; it wins iff accepted and equal to the lower-cased target |
| Game.Submitted | App.js:53-69 | input and hint are cleared in every case; on a rejection history, current word and game flag are unchanged; on acceptance exactly the lower-cased word is appended and becomes current, and the game ends iff it equals the lower-cased target |
| Game.Undone | App.js:71-78 | with more than one entry only the last entry is removed and the new last entry becomes current; otherwise nothing changes; no other field (the hint included) changes |
| Game.Restarted | App.js:80-88 | the result is the initial session except for the chosen word length |
| Game.StartedKeepsInv | App.js:42-51 | starting a game sets the history to the start word alone and establishes the session invariant, including a non-empty history while the game is on |
| Game.SubmitKeepsInv | App.js:53-69 | every submission keeps the history a ladder of one-letter steps over the dictionary from the start word ending at the current word |
| Game.OneLetterDiffNeedsLetters | App.js:22-23 | nothing is one letter away from the empty current word, so no word is accepted before a game starts |
| Game.UndoKeepsInv | App.js:71-78 | undo keeps the session invariant |
| Game.UndoAfterSubmit | App.js:71-78 | an accepted submission followed by an undo restores the history and the current word |
| Game.RestartIdempotent | App.js:80-88 | restart establishes the invariant, and restarting twice equals restarting once |
| Game.LadderKeepsLength | App.js:23 | all words of a ladder have the length of its first word |
| Game.WinCompletesLadder | App.js:59-66 | a winning submission ends the game with a ladder of dictionary words, all of the start word's length, from the start word to the lower-cased target |
| Game.Game.constructor | App.js:9-16 | the session starts with empty words and history, no game, word length 4 and a null hint |
| Game.Game.SetInput | App.js:13 | the input field is set and nothing else changes |
| Game.Game.SetWordLength | App.js:15 | the word length is set and nothing else changes |
| Game.Game.StartGame | App.js:42-51 | the fields become `Started` of the old state with the drawn pair, which satisfies the pair-selection contract, the start word being the filtered word at the drawn index; the invariant holds |
| Game.Game.HandleSubmit | App.js:53-69 | the outcome is `SubmitOutcome` and the new state is `Submitted` of the old one; the invariant holds |
| Game.Game.HandleUndo | App.js:71-78 | the new state is `Undone` of the old one; the invariant holds |
| Game.Game.HandleRestart | App.js:80-88 | the new state is `Restarted` of the old one; the invariant holds |
| Game.Game.ShowHint | App.js:90-110 | only the hint changes, and it satisfies `IsHintFor` for the current and target words |

## Left out

- The user interface (App.js:112-163): rendering, buttons, the list of past
  words, and the disabling of Undo when the history has one entry. The
  handlers are modelled as callable in any state, which covers every state
  the interface allows.
- `Alert.alert`: each alert becomes the `Outcome` returned by `HandleSubmit`.
- Loading the dictionary from a JSON file: the dictionary is a constructor
  parameter.
- `Math.random`: the first draw is a parameter `draw` in [0, 1).
- WordPair.GetRandomWordPair: the do-while redraw loop, which terminates only
  with probability 1, is modelled as the choice of any filtered word that
  differs from the first, with no distribution.
- Words.ToLower: full Unicode lower-casing is not modelled; only the ASCII
  letters A-Z are mapped.
- The fixed list of word lengths 3-8 offered by the picker: `wordLength` is
  any natural number.
- The `maxLength` limit of the text field: the input is any string.
- React's batching of state updates inside a handler is not modelled. Each
  handler reads the values the fields had when it started, and the model's
  imperative updates keep that order.
- Game.Undone: handleUndo does not touch the hint, so a hint shown before an
  undo stays shown.
- Words.IsOneLetterDiff: JavaScript measures `.length` and indexes `word[i]`
  in UTF-16 code units, while a Dafny string is a sequence of Unicode scalar
  values. The two agree on words made of characters of the Basic
  Multilingual Plane (every lower-case English word). A character outside it
  counts as two positions in the app and as one in the model, so the
  one-letter test and the length filters (Words.FilterByLength,
  Words.WordsOfLength) may differ on such words.
