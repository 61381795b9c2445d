/** The game's state machine (script.js): the globals `currentWord`, `currentRow`,
    `gameOver` and `targetWord`, changed by `handleKeyPress`, the end of `checkWord` and
    `resetGame`. */
module Wordle {
  import opened Wrappers
  import opened Config
  import opened Evaluation
  import Dictionary

  /** A key handed to `handleKeyPress`: backspace ('⌫'), Enter, or one letter. */
  datatype Key = Backspace | Enter | Letter(c: char)

  /** How a submission ended: rejected as not a word, won, lost on the last row, or
      moved on to the next row. */
  datatype Verdict = NotAWord | Won | Lost | NextRow

  /** What the board and the keyboard display after an evaluated guess. */
  datatype Feedback = Feedback(tiles: seq<Hint>, keys: map<char, Hint>)

  /** The game globals: the letters typed on the current row, the row, whether the game
      is over, and the target word. */
  datatype State = State(word: string, row: nat, over: bool, target: string)

  /** The state every reachable game keeps, for a given word list: the buffer holds at
      most five letters, the row stays on the board, and the target is a listed word. */
  predicate Inv(s: State, words: seq<string>)
  {
    Dictionary.IsWordList(words) && |s.word| <= WORD_LENGTH && s.row < TRIES && s.target in words
  }

  /** A fresh game on the word at index `choice` (the random pick). */
  function Start(words: seq<string>, choice: nat): (s: State)
    requires Dictionary.IsWordList(words) && choice < |words|
    ensures Inv(s, words) && !s.over && s.word == [] && s.row == 0 && s.target in words
  {
    State([], 0, false, words[choice])
  }

  /** The outcome of submitting the full buffer. */
  function Judge(s: State, words: seq<string>): (r: Verdict)
    requires Inv(s, words) && |s.word| == WORD_LENGTH
    ensures r == NotAWord <==> s.word !in words
    ensures r == Won <==> s.word in words && s.word == s.target
    ensures r == Lost <==> s.word in words && s.word != s.target && s.row == TRIES - 1
  {
    AllMatchIffEqual(s.word, s.target);
    if s.word !in words then NotAWord
    else if MatchesIn(s.word, s.target, WORD_LENGTH) == WORD_LENGTH then Won
    else if s.row == TRIES - 1 then Lost
    else NextRow
  }

  /** The state after submitting the full buffer. */
  function Submit(s: State, words: seq<string>): (r: State)
    requires Inv(s, words) && |s.word| == WORD_LENGTH
    ensures Inv(r, words) && r.target == s.target
  {
    match Judge(s, words)
    case NotAWord => s
    case Won => s.(over := true)
    case Lost => s.(over := true)
    case NextRow => s.(row := s.row + 1, word := [])
  }

  /** The state after one key press. */
  function Press(s: State, key: Key, words: seq<string>): (r: State)
    requires Inv(s, words)
    ensures Inv(r, words) && r.target == s.target
  {
    if s.over then s
    else
      match key
      case Backspace => if |s.word| > 0 then s.(word := s.word[..|s.word| - 1]) else s
      case Enter => if |s.word| == WORD_LENGTH then Submit(s, words) else s
      case Letter(c) => if |s.word| < WORD_LENGTH then s.(word := s.word + [c]) else s
  }

  /** The state after a sequence of key presses. */
  function PressAll(s: State, keys: seq<Key>, words: seq<string>): (r: State)
    requires Inv(s, words)
    ensures Inv(r, words) && r.target == s.target
    decreases |keys|
  {
    if keys == [] then s else PressAll(Press(s, keys[0], words), keys[1..], words)
  }

  // ---------------------------------------------------------------------------
  // Properties of the state machine
  // ---------------------------------------------------------------------------

  /** Once the game is over, no sequence of key presses changes anything. */
  lemma {:induction false} OverIsFinal(s: State, keys: seq<Key>, words: seq<string>)
    requires Inv(s, words) && s.over
    ensures PressAll(s, keys, words) == s
  {
    if keys != [] {
      OverIsFinal(Press(s, keys[0], words), keys[1..], words);
    }
  }

  /** Typing a letter into a buffer with room and deleting it again restores the state. */
  lemma LetterThenBackspace(s: State, c: char, words: seq<string>)
    requires Inv(s, words) && |s.word| < WORD_LENGTH
    ensures Press(Press(s, Letter(c), words), Backspace, words) == s
  {
    if !s.over {
      assert (s.word + [c])[..|s.word|] == s.word;
    }
  }

  /** The input buffer: letters are appended only below five, backspace removes the last
      letter only from a non-empty buffer, and Enter does anything only at five letters. */
  lemma BufferRules(s: State, key: Key, words: seq<string>)
    requires Inv(s, words) && !s.over
    ensures key.Letter? ==>
              Press(s, key, words).word == (if |s.word| < WORD_LENGTH then s.word + [key.c] else s.word)
    ensures key.Backspace? ==>
              Press(s, key, words).word == (if s.word == [] then [] else s.word[..|s.word| - 1])
    ensures key.Enter? && |s.word| < WORD_LENGTH ==> Press(s, key, words) == s
    ensures !key.Enter? ==> Press(s, key, words).row == s.row && !Press(s, key, words).over
  {
  }

  /** A word not in the list is rejected and nothing changes. */
  lemma RejectLeavesState(s: State, words: seq<string>)
    requires Inv(s, words) && |s.word| == WORD_LENGTH && s.word !in words
    ensures Judge(s, words) == NotAWord && Submit(s, words) == s
  {
  }

  /** The game is won exactly when the submitted word is a listed word equal to the
      target; winning ends the game on the same row. */
  lemma WonIffTarget(s: State, words: seq<string>)
    requires Inv(s, words) && |s.word| == WORD_LENGTH
    ensures Judge(s, words) == Won <==> s.word in words && s.word == s.target
    ensures Judge(s, words) == Won ==> Submit(s, words) == s.(over := true)
  {
    AllMatchIffEqual(s.word, s.target);
  }

  /** The game is lost exactly when a listed word other than the target is submitted on
      the last row; otherwise a listed wrong word moves to the next row with an empty buffer. */
  lemma LostOrNextRow(s: State, words: seq<string>)
    requires Inv(s, words) && |s.word| == WORD_LENGTH
    ensures Judge(s, words) == Lost <==> s.word in words && s.word != s.target && s.row == TRIES - 1
    ensures Judge(s, words) == NextRow <==> s.word in words && s.word != s.target && s.row < TRIES - 1
    ensures Judge(s, words) == Lost ==> Submit(s, words) == s.(over := true)
    ensures Judge(s, words) == NextRow ==> Submit(s, words) == s.(row := s.row + 1, word := [])
  {
    AllMatchIffEqual(s.word, s.target);
  }

  /** Every accepted submission either ends the game or uses up a row, so a game that is
      not over has had at most `row` accepted wrong guesses before the current one. */
  lemma AcceptedGuessProgresses(s: State, words: seq<string>)
    requires Inv(s, words) && |s.word| == WORD_LENGTH && !s.over && s.word in words
    ensures Submit(s, words).over || Submit(s, words).row == s.row + 1
    ensures Submit(s, words).over <==> s.word == s.target || s.row == TRIES - 1
  {
    AllMatchIffEqual(s.word, s.target);
  }

  // ---------------------------------------------------------------------------
  // The globals and the handlers that change them
  // ---------------------------------------------------------------------------

  class Game {
    var words: seq<string>
    var currentWord: string
    var currentRow: nat
    var gameOver: bool
    var targetWord: string

    function Snapshot(): State
      reads this
    {
      State(currentWord, currentRow, gameOver, targetWord)
    }

    predicate Valid()
      reads this
    {
      Inv(Snapshot(), words)
    }

    /** The initial globals, followed by `loadDictionary` with the download's lines
        (None when it throws) and the random pick `choice`. */
    constructor (fetched: Option<seq<string>>, choice: nat)
      requires choice < |Dictionary.LoadDictionary(fetched)|
      ensures Valid()
      ensures words == Dictionary.LoadDictionary(fetched)
      ensures Snapshot() == Start(words, choice)
    {
      words := Dictionary.LoadDictionary(fetched);
      currentWord := [];
      currentRow := 0;
      gameOver := false;
      targetWord := Dictionary.LoadDictionary(fetched)[choice];
    }

    /** `handleKeyPress`. */
    method HandleKeyPress(key: Key)
      requires Valid()
      modifies this
      ensures Valid() && words == old(words)
      ensures Snapshot() == Press(old(Snapshot()), key, words)
    {
      if gameOver {
        return;
      }
      match key
      case Backspace =>
        if |currentWord| > 0 {
          currentWord := currentWord[..|currentWord| - 1];
        }
      case Enter =>
        if |currentWord| == WORD_LENGTH {
          var _, _ := CheckWord();
        }
      case Letter(c) =>
        if |currentWord| < WORD_LENGTH {
          currentWord := currentWord + [c];
        }
    }

    /** `checkWord`: rejects a word not in the list; otherwise evaluates it against the
        target and wins, loses on the last row, or moves to the next row. */
    method CheckWord() returns (verdict: Verdict, feedback: Option<Feedback>)
      requires Valid() && |currentWord| == WORD_LENGTH
      modifies this
      ensures Valid() && words == old(words)
      ensures verdict == Judge(old(Snapshot()), words)
      ensures Snapshot() == Submit(old(Snapshot()), words)
      ensures feedback == if verdict == NotAWord then None
                          else var hints := Score(old(currentWord), targetWord);
                               Some(Feedback(hints, KeyHints(old(currentWord), hints)))
    {
      if currentWord !in words {
        return NotAWord, None;
      }
      var hints, correct, letterStates := Evaluate(currentWord, targetWord);
      feedback := Some(Feedback(hints, letterStates));
      if correct == WORD_LENGTH {
        gameOver := true;
        return Won, feedback;
      }
      if currentRow == TRIES - 1 {
        gameOver := true;
        return Lost, feedback;
      }
      currentRow := currentRow + 1;
      currentWord := [];
      verdict := NextRow;
    }

    /** `resetGame`: an empty buffer on the first row, the game running again, and the
        word at index `choice` as the new target. */
    method ResetGame(choice: nat)
      requires Valid() && choice < |words|
      modifies this
      ensures Valid() && words == old(words)
      ensures Snapshot() == Start(words, choice)
    {
      currentWord := [];
      currentRow := 0;
      gameOver := false;
      targetWord := words[choice];
    }
  }
}
