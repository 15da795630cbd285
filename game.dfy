/** The game session: the state held by the app component and the handlers
    that change it (start, submit, undo, restart, hint). `Session` and the
    functions on it give each handler's effect on the whole state; the class
    `Game` holds the same state in fields and updates them in place. */
module Game {
  import opened Words
  import opened WordPair
  import opened HintFinder
  import opened Ladders

  /** The session fields. */
  datatype Session = Session(
    startWord: string,
    targetWord: string,
    currentWord: string,
    history: seq<string>,
    input: string,
    gameStarted: bool,
    wordLength: nat,
    hint: Hint)

  /** Which alert, if any, a submission raises. */
  datatype Outcome = InvalidWord | InvalidTransformation | Accepted | Reached {
    predicate Rejected() {
      this == InvalidWord || this == InvalidTransformation
    }
  }

  const DefaultWordLength: nat := 4

  /** The initial values of the session fields. */
  function Initial(): Session {
    Session("", "", "", [], "", false, DefaultWordLength, Cleared)
  }

  /** Every word of the dictionary, as a set. */
  ghost function DictionaryWords(dict: seq<string>): set<string> {
    set w | w in dict
  }

  /** The session invariant: while a game is on the history is not empty;
      before a game (and after a restart) there is no history and no current
      word; during and after a game the history is a word ladder over the
      dictionary from the start word to the current word. */
  ghost predicate Inv(dict: seq<string>, st: Session) {
    (st.gameStarted ==> st.history != []) &&
    ((st.history == [] && st.currentWord == "") ||
     (IsLadder(DictionaryWords(dict), st.history) &&
      st.history[0] == st.startWord && st.currentWord == Last(st.history)))
  }

  /** startGame, given the pair drawn for the session. */
  function Started(st: Session, start: string, target: string): Session {
    st.(startWord := start, targetWord := target, currentWord := start,
        history := [start], gameStarted := true, hint := Cleared, input := "")
  }

  /** The alert a submission raises. The dictionary test comes first: a word
      that is not in the dictionary is reported as such whatever its distance
      from the current word. */
  function SubmitOutcome(dict: seq<string>, st: Session): (o: Outcome)
    ensures o == InvalidWord <==> ToLower(st.input) !in dict
    ensures !o.Rejected() <==>
              ToLower(st.input) in dict && OneLetterDiff(st.currentWord, ToLower(st.input))
    ensures o == Reached <==> !o.Rejected() && ToLower(st.input) == ToLower(st.targetWord)
  {
    var word := ToLower(st.input);
    if !IsValidWord(dict, word) then InvalidWord
    else if !OneLetterDiff(st.currentWord, word) then InvalidTransformation
    else if word == ToLower(st.targetWord) then Reached
    else Accepted
  }

  /** handleSubmit's effect. A rejected word leaves the history, the current
      word and the game flag alone; an accepted one is appended and becomes
      the current word, and the game ends exactly when it is the target word
      lower-cased. The input and the hint are cleared in every case. */
  function Submitted(dict: seq<string>, st: Session): (r: Session)
    ensures r.input == "" && r.hint == Cleared
    ensures r.startWord == st.startWord && r.targetWord == st.targetWord
    ensures r.wordLength == st.wordLength
    ensures SubmitOutcome(dict, st).Rejected() ==>
              r.history == st.history && r.currentWord == st.currentWord &&
              r.gameStarted == st.gameStarted
    ensures !SubmitOutcome(dict, st).Rejected() ==>
              r.history == st.history + [ToLower(st.input)] &&
              r.currentWord == ToLower(st.input) &&
              (r.gameStarted <==> st.gameStarted && ToLower(st.input) != ToLower(st.targetWord))
  {
    var word := ToLower(st.input);
    var cleared := st.(input := "", hint := Cleared);
    match SubmitOutcome(dict, st)
    case InvalidWord => cleared
    case InvalidTransformation => cleared
    case Accepted => cleared.(currentWord := word, history := st.history + [word])
    case Reached => cleared.(currentWord := word, history := st.history + [word], gameStarted := false)
  }

  /** handleUndo's effect: with more than one entry, the last entry is dropped
      and the new last entry becomes the current word; otherwise nothing
      changes. The hint is left as it is. */
  function Undone(st: Session): (r: Session)
    ensures |st.history| > 1 ==>
              r.history == st.history[..|st.history| - 1] && r.currentWord == Last(r.history)
    ensures |st.history| <= 1 ==> r == st
    ensures r.(history := st.history, currentWord := st.currentWord) == st
  {
    if |st.history| > 1 then
      var newHistory := st.history[..|st.history| - 1];
      st.(currentWord := newHistory[|newHistory| - 1], history := newHistory)
    else st
  }

  /** handleRestart's effect: every game field is emptied and the game flag
      cleared; only the chosen word length survives. */
  function Restarted(st: Session): (r: Session)
    ensures r == Initial().(wordLength := st.wordLength)
  {
    st.(gameStarted := false, input := "", hint := Cleared, history := [],
        currentWord := "", startWord := "", targetWord := "")
  }

  /** Starting a game establishes the invariant, with the start word as the
      whole history. */
  lemma StartedKeepsInv(dict: seq<string>, st: Session, start: string, target: string)
    ensures Inv(dict, Started(st, start, target))
    ensures Started(st, start, target).history == [start]
  {
  }

  /** An accepted word extends the ladder, so every submission keeps the
      invariant. */
  lemma SubmitKeepsInv(dict: seq<string>, st: Session)
    requires Inv(dict, st)
    ensures Inv(dict, Submitted(dict, st))
  {
    var o := SubmitOutcome(dict, st);
    if !o.Rejected() {
      var word := ToLower(st.input);
      var r := Submitted(dict, st);
      if st.history == [] {
        OneLetterDiffNeedsLetters(word);
        assert false;
      }
      assert OneLetterDiff(Last(st.history), word);
      assert IsLadder(DictionaryWords(dict), r.history);
    }
  }

  /** The empty word is one letter away from nothing, so nothing can be
      submitted before a game has started. */
  lemma OneLetterDiffNeedsLetters(w: string)
    ensures !OneLetterDiff("", w)
  {
  }

  /** Undo keeps the invariant: a prefix of a ladder is a ladder. */
  lemma UndoKeepsInv(dict: seq<string>, st: Session)
    requires Inv(dict, st)
    ensures Inv(dict, Undone(st))
  {
    if |st.history| > 1 {
      assert IsLadder(DictionaryWords(dict), Undone(st).history);
    }
  }

  /** Restart keeps the invariant and is idempotent. */
  lemma RestartIdempotent(dict: seq<string>, st: Session)
    ensures Inv(dict, Restarted(st))
    ensures Restarted(Restarted(st)) == Restarted(st)
  {
  }

  /** Undo is the inverse of an accepted submission: it restores the history
      and the current word. */
  lemma UndoAfterSubmit(dict: seq<string>, st: Session)
    requires Inv(dict, st)
    requires !SubmitOutcome(dict, st).Rejected()
    ensures Undone(Submitted(dict, st)).history == st.history
    ensures Undone(Submitted(dict, st)).currentWord == st.currentWord
  {
    if st.history == [] {
      OneLetterDiffNeedsLetters(ToLower(st.input));
      assert false;
    }
    var r := Submitted(dict, st);
    assert r.history[..|r.history| - 1] == st.history;
  }

  /** All words of a ladder have the length of its first word. */
  lemma {:induction false} LadderKeepsLength(W: set<string>, p: seq<string>, i: nat)
    requires IsLadder(W, p) && i < |p|
    ensures |p[i]| == |p[0]|
  {
    if i > 0 {
      LadderKeepsLength(W, p, i - 1);
      assert OneLetterDiff(p[i - 1], p[i]);
    }
  }

  /** A winning submission completes a ladder of dictionary words from the
      start word to the lower-cased target, all of the start word's length. */
  lemma WinCompletesLadder(dict: seq<string>, st: Session)
    requires Inv(dict, st)
    requires SubmitOutcome(dict, st) == Reached
    ensures var r := Submitted(dict, st);
            IsLadder(DictionaryWords(dict), r.history) &&
            r.history[0] == st.startWord && Last(r.history) == ToLower(st.targetWord) &&
            !r.gameStarted &&
            forall i :: 0 <= i < |r.history| ==> |r.history[i]| == |st.startWord|
  {
    SubmitKeepsInv(dict, st);
    var r := Submitted(dict, st);
    if st.history == [] {
      OneLetterDiffNeedsLetters(ToLower(st.input));
      assert false;
    }
    forall i | 0 <= i < |r.history|
      ensures |r.history[i]| == |st.startWord|
    {
      LadderKeepsLength(DictionaryWords(dict), r.history, i);
    }
  }

  /** The app component's state, updated in place by its handlers. The
      dictionary is the fixed word list all handlers consult. */
  class Game {
    const dict: seq<string>
    var startWord: string
    var targetWord: string
    var currentWord: string
    var history: seq<string>
    var input: string
    var gameStarted: bool
    var wordLength: nat
    var hint: Hint

    ghost function State(): Session
      reads this
    {
      Session(startWord, targetWord, currentWord, history, input, gameStarted, wordLength, hint)
    }

    ghost predicate Valid()
      reads this
    {
      WellFormedDictionary(dict) && Inv(dict, State())
    }

    constructor (dict: seq<string>)
      requires WellFormedDictionary(dict)
      ensures Valid() && this.dict == dict && State() == Initial()
    {
      this.dict := dict;
      startWord, targetWord, currentWord := "", "", "";
      history := [];
      input := "";
      gameStarted := false;
      wordLength := DefaultWordLength;
      hint := Cleared;
    }

    /** The text field's change handler. */
    method SetInput(text: string)
      requires Valid()
      modifies this
      ensures Valid() && State() == old(State()).(input := text)
    {
      input := text;
    }

    /** The word-length picker's change handler. */
    method SetWordLength(n: nat)
      requires Valid()
      modifies this
      ensures Valid() && State() == old(State()).(wordLength := n)
    {
      wordLength := n;
    }

    /** startGame: draws a pair for the chosen length and starts from its
        first word. */
    method StartGame(draw: real)
      requires Valid() && 0.0 <= draw < 1.0
      modifies this
      ensures Valid()
      ensures IsWordPair(dict, wordLength, startWord, targetWord)
      ensures var filtered := FilterByLength(dict, wordLength);
              |filtered| >= 2 ==> startWord == filtered[DrawIndex(draw, |filtered|)]
      ensures State() == Started(old(State()), startWord, targetWord)
    {
      var start, target := GetRandomWordPair(dict, wordLength, draw);
      startWord := start;
      targetWord := target;
      currentWord := start;
      history := [start];
      gameStarted := true;
      hint := Cleared;
      input := "";
      assert startWord == start && targetWord == target && wordLength == old(wordLength);
      StartedKeepsInv(dict, old(State()), start, target);
    }

    /** handleSubmit; the outcome names the alert raised, if any. */
    method HandleSubmit() returns (outcome: Outcome)
      requires Valid()
      modifies this
      ensures Valid()
      ensures outcome == SubmitOutcome(dict, old(State()))
      ensures State() == Submitted(dict, old(State()))
    {
      var word := ToLower(input);
      if !IsValidWord(dict, word) {
        outcome := InvalidWord;
      } else {
        var oneLetter := IsOneLetterDiff(currentWord, word);
        if !oneLetter {
          outcome := InvalidTransformation;
        } else {
          currentWord := word;
          history := history + [word];
          if word == ToLower(targetWord) {
            gameStarted := false;
            outcome := Reached;
          } else {
            outcome := Accepted;
          }
        }
      }
      input := "";
      hint := Cleared;
      SubmitKeepsInv(dict, old(State()));
    }

    /** handleUndo. */
    method HandleUndo()
      requires Valid()
      modifies this
      ensures Valid() && State() == Undone(old(State()))
    {
      if |history| > 1 {
        var newHistory := history[..|history| - 1];
        currentWord := newHistory[|newHistory| - 1];
        history := newHistory;
      }
      UndoKeepsInv(dict, old(State()));
    }

    /** handleRestart. */
    method HandleRestart()
      requires Valid()
      modifies this
      ensures Valid() && State() == Restarted(old(State()))
    {
      gameStarted := false;
      input := "";
      hint := Cleared;
      history := [];
      currentWord := "";
      startWord := "";
      targetWord := "";
    }

    /** showHint: runs the search from the current word and stores its
        result; nothing else changes. */
    method ShowHint()
      requires Valid()
      modifies this
      ensures Valid() && State() == old(State()).(hint := hint)
      ensures IsHintFor(dict, currentWord, targetWord, hint)
    {
      var h := FindHint(dict, currentWord, targetWord);
      hint := h;
    }
  }
}
