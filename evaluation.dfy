/** The two-pass evaluation of a guess against the target word, as `checkWord` does it
    (script.js, lines 124-167): a table of the target's letter counts, a first pass that
    marks exact matches, and a second pass that hands out the remaining letters, left to
    right, as "present" hints. */
module Evaluation {
  import opened Wrappers
  import opened Config

  /** The class a tile receives. */
  datatype Hint = Correct | Present | Absent

  /** A tile's class list during the evaluation: not yet classified, or classified. */
  datatype Tile = Blank | Marked(hint: Hint)

  /** The order of hints: Correct beats Present beats Absent. */
  function Rank(h: Hint): nat
  {
    match h
    case Correct => 2
    case Present => 1
    case Absent => 0
  }

  /** The better of the hint seen so far for a letter (if any) and a new one. */
  function Join(seen: Option<Hint>, h: Hint): (r: Hint)
    ensures Rank(h) <= Rank(r)
    ensures seen.Some? ==> Rank(seen.value) <= Rank(r)
    ensures r == h || seen == Some(r)
  {
    match seen
    case None => h
    case Some(b) => if Rank(b) < Rank(h) then h else b
  }

  function Min(a: int, b: int): int
  {
    if a <= b then a else b
  }

  // ---------------------------------------------------------------------------
  // Counting over prefixes
  // ---------------------------------------------------------------------------

  /** Occurrences of `c` among the first `n` letters of `s`. */
  function CountIn(s: seq<char>, c: char, n: nat): nat
    requires n <= |s|
  {
    if n == 0 then 0 else CountIn(s, c, n - 1) + (if s[n - 1] == c then 1 else 0)
  }

  /** Occurrences of `c` in `s`. */
  function Occurrences(s: seq<char>, c: char): nat
  {
    CountIn(s, c, |s|)
  }

  /** Positions below `n` where guess and target agree. */
  function MatchesIn(guess: seq<char>, target: seq<char>, n: nat): nat
    requires n <= |guess| && n <= |target|
  {
    if n == 0 then 0
    else MatchesIn(guess, target, n - 1) + (if guess[n - 1] == target[n - 1] then 1 else 0)
  }

  /** Positions below `n` where both guess and target hold `c` (exact matches of `c`). */
  function ExactIn(guess: seq<char>, target: seq<char>, c: char, n: nat): nat
    requires n <= |guess| && n <= |target|
  {
    if n == 0 then 0
    else ExactIn(guess, target, c, n - 1) + (if guess[n - 1] == c && target[n - 1] == c then 1 else 0)
  }

  /** Positions below `n` where the guess holds `c` but the target does not. */
  function MisplacedIn(guess: seq<char>, target: seq<char>, c: char, n: nat): nat
    requires n <= |guess| && n <= |target|
  {
    if n == 0 then 0
    else MisplacedIn(guess, target, c, n - 1) + (if guess[n - 1] == c && target[n - 1] != c then 1 else 0)
  }

  /** Positions below `n` that hold `c` in the guess and were not classified Absent. */
  function KeptIn(guess: seq<char>, hints: seq<Hint>, c: char, n: nat): nat
    requires n <= |guess| && n <= |hints|
  {
    if n == 0 then 0
    else KeptIn(guess, hints, c, n - 1) + (if guess[n - 1] == c && hints[n - 1] != Absent then 1 else 0)
  }

  lemma {:induction false} CountWithinLength(s: seq<char>, c: char, m: nat, n: nat)
    requires m <= n <= |s|
    ensures CountIn(s, c, m) <= CountIn(s, c, n)
    ensures CountIn(s, c, n) - CountIn(s, c, m) <= n - m
    decreases n
  {
    if m < n {
      CountWithinLength(s, c, m, n - 1);
    }
  }

  /** An exact match of `c` uses up one of the target's occurrences of `c`,
      so there are never more exact matches of `c` than occurrences. */
  lemma {:induction false} ExactWithinTarget(guess: seq<char>, target: seq<char>, c: char, n: nat)
    requires n <= |guess| && n <= |target|
    ensures ExactIn(guess, target, c, n) <= CountIn(target, c, n)
    ensures ExactIn(guess, target, c, n) <= Occurrences(target, c)
  {
    if n > 0 {
      ExactWithinTarget(guess, target, c, n - 1);
    }
    CountWithinLength(target, c, n, |target|);
  }

  /** Every occurrence of `c` in the guess is either an exact match or misplaced. */
  lemma {:induction false} ExactPlusMisplaced(guess: seq<char>, target: seq<char>, c: char, n: nat)
    requires n <= |guess| && n <= |target|
    ensures ExactIn(guess, target, c, n) + MisplacedIn(guess, target, c, n) == CountIn(guess, c, n)
  {
    if n > 0 {
      ExactPlusMisplaced(guess, target, c, n - 1);
    }
  }

  /** An exact match at position `i` makes the count of exact matches of its letter positive. */
  lemma {:induction false} ExactAtPosition(guess: seq<char>, target: seq<char>, i: nat, n: nat)
    requires i < n <= |guess| && n <= |target| && guess[i] == target[i]
    ensures ExactIn(guess, target, guess[i], n) > 0
  {
    if i < n - 1 {
      ExactAtPosition(guess, target, i, n - 1);
    }
  }

  /** A letter absent from the first `n` letters has count zero there. */
  lemma {:induction false} CountPositive(s: seq<char>, c: char, n: nat)
    requires n <= |s|
    ensures CountIn(s, c, n) > 0 <==> exists j :: 0 <= j < n && s[j] == c
  {
    if n > 0 {
      CountPositive(s, c, n - 1);
    }
  }

  // ---------------------------------------------------------------------------
  // The specification of the evaluation
  // ---------------------------------------------------------------------------

  /** The target's occurrences of `c` that exact matches leave for "present" hints. */
  function Spare(guess: seq<char>, target: seq<char>, c: char): nat
    requires |guess| == |target|
  {
    ExactWithinTarget(guess, target, c, |guess|);
    Occurrences(target, c) - ExactIn(guess, target, c, |guess|)
  }

  /** The hint of position `i`: Correct on an exact match; otherwise Present when fewer
      misplaced occurrences of the same letter precede it than the target has spare. */
  function HintAt(guess: seq<char>, target: seq<char>, i: nat): (r: Hint)
    requires |guess| == |target| && i < |guess|
    ensures r == Correct <==> guess[i] == target[i]
    ensures r != Absent ==> Occurrences(target, guess[i]) > 0
  {
    if guess[i] == target[i] then
      CountPositive(target, guess[i], |target|);
      assert target[i] == guess[i];
      Correct
    else if MisplacedIn(guess, target, guess[i], i) < Spare(guess, target, guess[i]) then Present
    else Absent
  }

  /** The hints of a whole guess, one per position. */
  function Score(guess: seq<char>, target: seq<char>): (r: seq<Hint>)
    requires |guess| == |target|
    ensures |r| == |guess|
  {
    seq(|guess|, i requires 0 <= i < |guess| => HintAt(guess, target, i))
  }

  /** The best hint among the first `n` positions holding `c`; None when there are none. */
  function BestSeen(guess: seq<char>, hints: seq<Hint>, c: char, n: nat): (r: Option<Hint>)
    requires |hints| == |guess| && n <= |guess|
    ensures r.Some? <==> exists j :: 0 <= j < n && guess[j] == c
  {
    if n == 0 then None
    else
      var b := BestSeen(guess, hints, c, n - 1);
      if guess[n - 1] == c then Some(Join(b, hints[n - 1])) else b
  }

  /** The per-letter keyboard hints of one guess: every letter of the guess with its best hint. */
  function KeyHints(guess: seq<char>, hints: seq<Hint>): (r: map<char, Hint>)
    requires |hints| == |guess|
    ensures forall c :: c in r <==> c in guess
  {
    map c | c in guess :: BestSeen(guess, hints, c, |guess|).value
  }

  // ---------------------------------------------------------------------------
  // Properties of the specification
  // ---------------------------------------------------------------------------

  /** The number of positions of `c` kept (Correct or Present) among the first `n`:
      all exact matches, plus misplaced ones until the spare occurrences run out. */
  lemma {:induction false} KeptSplit(guess: seq<char>, target: seq<char>, c: char, n: nat)
    requires |guess| == |target| && n <= |guess|
    ensures KeptIn(guess, Score(guess, target), c, n)
         == ExactIn(guess, target, c, n) + Min(MisplacedIn(guess, target, c, n), Spare(guess, target, c))
  {
    if n > 0 {
      KeptSplit(guess, target, c, n - 1);
    }
  }

  /** Duplicate letters: for every letter, the positions holding it that are marked Correct
      or Present number exactly min(occurrences in the guess, occurrences in the target);
      any further occurrences in the guess are Absent. */
  lemma ScoreKeepsMin(guess: seq<char>, target: seq<char>, c: char)
    requires |guess| == |target|
    ensures KeptIn(guess, Score(guess, target), c, |guess|) == Min(Occurrences(guess, c), Occurrences(target, c))
  {
    KeptSplit(guess, target, c, |guess|);
    ExactPlusMisplaced(guess, target, c, |guess|);
    ExactWithinTarget(guess, target, c, |guess|);
  }

  /** A letter that does not occur in the target is always Absent; equivalently, a
      Correct or Present hint is only ever given to a letter of the target. */
  lemma KeptOnlyIfInTarget(guess: seq<char>, target: seq<char>, i: nat)
    requires |guess| == |target| && i < |guess|
    ensures Score(guess, target)[i] != Absent ==> guess[i] in target
  {
    var c := guess[i];
    if Score(guess, target)[i] == Present {
      assert Spare(guess, target, c) > 0;
      CountPositive(target, c, |target|);
    }
  }

  /** A guess sharing no letter with the target is Absent everywhere. */
  lemma DisjointAllAbsent(guess: seq<char>, target: seq<char>)
    requires |guess| == |target|
    requires forall i :: 0 <= i < |guess| ==> guess[i] !in target
    ensures forall i :: 0 <= i < |guess| ==> Score(guess, target)[i] == Absent
  {
    forall i | 0 <= i < |guess|
      ensures Score(guess, target)[i] == Absent
    {
      KeptOnlyIfInTarget(guess, target, i);
    }
  }

  /** All positions match exactly when the guess is the target. */
  lemma {:induction false} MatchesPrefix(guess: seq<char>, target: seq<char>, n: nat)
    requires n <= |guess| && n <= |target|
    ensures MatchesIn(guess, target, n) <= n
    ensures MatchesIn(guess, target, n) == n <==> forall j :: 0 <= j < n ==> guess[j] == target[j]
  {
    if n > 0 {
      MatchesPrefix(guess, target, n - 1);
    }
  }

  /** The count of Correct hints reaches the word length exactly when guess == target. */
  lemma AllMatchIffEqual(guess: seq<char>, target: seq<char>)
    requires |guess| == |target|
    ensures MatchesIn(guess, target, |guess|) == |guess| <==> guess == target
  {
    MatchesPrefix(guess, target, |guess|);
    if MatchesIn(guess, target, |guess|) == |guess| {
      assert forall j :: 0 <= j < |guess| ==> guess[j] == target[j];
    }
  }

  /** The best hint is one that some position holding `c` received, and no position
      holding `c` received a better one: a later position never downgrades it. */
  lemma {:induction false} BestSeenIsBest(guess: seq<char>, hints: seq<Hint>, c: char, n: nat)
    requires |hints| == |guess| && n <= |guess|
    ensures BestSeen(guess, hints, c, n).Some? ==>
              exists j :: 0 <= j < n && guess[j] == c && hints[j] == BestSeen(guess, hints, c, n).value
    ensures BestSeen(guess, hints, c, n).Some? ==>
              forall j :: 0 <= j < n && guess[j] == c ==> Rank(hints[j]) <= Rank(BestSeen(guess, hints, c, n).value)
  {
    if n > 0 {
      BestSeenIsBest(guess, hints, c, n - 1);
    }
  }

  /** The keyboard hints of one guess hold, for each letter of the guess and no other,
      the best hint among the positions holding it. */
  lemma KeyHintsAreBest(guess: seq<char>, hints: seq<Hint>, c: char)
    requires |hints| == |guess|
    ensures c in KeyHints(guess, hints) <==> c in guess
    ensures c in KeyHints(guess, hints) ==>
              (exists j :: 0 <= j < |guess| && guess[j] == c && hints[j] == KeyHints(guess, hints)[c])
              && forall j :: 0 <= j < |guess| && guess[j] == c ==> Rank(hints[j]) <= Rank(KeyHints(guess, hints)[c])
  {
    BestSeenIsBest(guess, hints, c, |guess|);
  }

  /** Once a position holding `c` is Correct, the best hint for `c` is Correct. */
  lemma CorrectDominates(guess: seq<char>, hints: seq<Hint>, c: char, n: nat, i: nat)
    requires |hints| == |guess| && i < n <= |guess|
    requires guess[i] == c && hints[i] == Correct
    ensures BestSeen(guess, hints, c, n) == Some(Correct)
  {
    BestSeenIsBest(guess, hints, c, n);
    var j :| 0 <= j < n && guess[j] == c && hints[j] == BestSeen(guess, hints, c, n).value;
    assert Rank(hints[i]) <= Rank(hints[j]);
  }

  /** Without an exact match of `c`, no position holding `c` is Correct. */
  lemma {:induction false} NoCorrectWithoutExact(guess: seq<char>, target: seq<char>, c: char, n: nat)
    requires |guess| == |target| && n <= |guess|
    requires ExactIn(guess, target, c, |guess|) == 0
    ensures BestSeen(guess, Score(guess, target), c, n) != Some(Correct)
  {
    if n > 0 {
      NoCorrectWithoutExact(guess, target, c, n - 1);
      if guess[n - 1] == c && guess[n - 1] == target[n - 1] {
        ExactAtPosition(guess, target, n - 1, |guess|);
      }
    }
  }

  /** Worked example: target ALLOY, guess LLAMA. */
  lemma ScoreAlloyLlama()
    ensures Score("LLAMA", "ALLOY") == [Present, Correct, Present, Absent, Absent]
  {
    var guess, target := "LLAMA", "ALLOY";
    assert CountIn(target, 'L', 1) == 0 && CountIn(target, 'L', 2) == 1;
    assert CountIn(target, 'L', 3) == 2 && CountIn(target, 'L', 4) == 2 && Occurrences(target, 'L') == 2;
    assert ExactIn(guess, target, 'L', 2) == 1 && ExactIn(guess, target, 'L', 4) == 1;
    assert ExactIn(guess, target, 'L', 5) == 1;
    assert CountIn(target, 'A', 3) == 1 && Occurrences(target, 'A') == 1;
    assert ExactIn(guess, target, 'A', 3) == 0 && ExactIn(guess, target, 'A', 5) == 0;
    assert CountIn(target, 'M', 3) == 0 && Occurrences(target, 'M') == 0;
    assert MisplacedIn(guess, target, 'A', 3) == 1 && MisplacedIn(guess, target, 'A', 4) == 1;
  }

  /** Worked example: target SPEED, guess ERASE. No position matches exactly (position 4
      holds E against D), so both E's of the guess are Present, using up both E's of SPEED. */
  lemma ScoreSpeedErase()
    ensures Score("ERASE", "SPEED") == [Present, Absent, Absent, Present, Present]
  {
    var guess, target := "ERASE", "SPEED";
    assert CountIn(target, 'E', 3) == 1 && CountIn(target, 'E', 4) == 2 && Occurrences(target, 'E') == 2;
    assert ExactIn(guess, target, 'E', 3) == 0 && ExactIn(guess, target, 'E', 5) == 0;
    assert CountIn(target, 'S', 3) == 1 && Occurrences(target, 'S') == 1;
    assert ExactIn(guess, target, 'S', 3) == 0 && ExactIn(guess, target, 'S', 5) == 0;
    assert CountIn(target, 'R', 3) == 0 && Occurrences(target, 'R') == 0;
    assert CountIn(target, 'A', 3) == 0 && Occurrences(target, 'A') == 0;
    assert MisplacedIn(guess, target, 'E', 3) == 1 && MisplacedIn(guess, target, 'E', 4) == 1;
    assert MisplacedIn(guess, target, 'S', 3) == 0;
  }

  // ---------------------------------------------------------------------------
  // The evaluation as checkWord performs it
  // ---------------------------------------------------------------------------

  /** A letter's remaining count in the table, where a letter with no entry reads as 0
      (JavaScript's falsy `undefined`). */
  function Remaining(counts: map<char, int>, c: char): int
  {
    if c in counts then counts[c] else 0
  }

  function Lookup(states: map<char, Hint>, c: char): Option<Hint>
  {
    if c in states then Some(states[c]) else None
  }

  /** The hints shown by a row of classified tiles. */
  function Shown(row: seq<Tile>): (r: seq<Hint>)
    requires forall j :: 0 <= j < |row| ==> row[j].Marked?
    ensures |r| == |row| && forall j :: 0 <= j < |row| ==> row[j] == Marked(r[j])
  {
    seq(|row|, j requires 0 <= j < |row| => row[j].hint)
  }

  /** Builds the remaining-letters table: each letter of the target with its number of occurrences. */
  method CountLetters(target: string) returns (counts: map<char, int>)
    ensures forall c :: Remaining(counts, c) == Occurrences(target, c)
    ensures forall c :: c in counts <==> c in target
  {
    counts := map[];
    for k := 0 to |target|
      invariant forall c :: Remaining(counts, c) == CountIn(target, c, k)
      invariant forall c :: c in counts <==> c in target[..k]
    {
      var letter := target[k];
      assert target[..k + 1] == target[..k] + [letter];
      counts := counts[letter := Remaining(counts, letter) + 1];
    }
    assert target[..|target|] == target;
  }

  /** Evaluates a guess against the target: the tiles' hints, the number of Correct tiles
      and the per-letter keyboard hints. */
  method Evaluate(guess: string, target: string) returns (hints: seq<Hint>, correct: nat, letterStates: map<char, Hint>)
    requires |guess| == WORD_LENGTH && |target| == WORD_LENGTH
    ensures hints == Score(guess, target)
    ensures correct == MatchesIn(guess, target, WORD_LENGTH)
    ensures letterStates == KeyHints(guess, hints)
  {
    var tiles := new Tile[|guess|](_ => Blank);
    var remaining := CountLetters(target);
    remaining, correct, letterStates := MarkExact(tiles, guess, target, remaining);
    letterStates := MarkRest(tiles, guess, target, remaining, letterStates);
    hints := Shown(tiles[..]);
    assert hints == Score(guess, target);
    SecondPassStatesAreKeyHints(guess, target);
    SameLookupSameMap(letterStates, KeyHints(guess, hints));
  }

  /** After both passes the letter-state map holds the keyboard hints of the guess. */
  lemma SecondPassStatesAreKeyHints(guess: seq<char>, target: seq<char>)
    requires |guess| == |target|
    ensures forall c :: StatesAfter(guess, target, c, |guess|) == Lookup(KeyHints(guess, Score(guess, target)), c)
  {
    var score := Score(guess, target);
    forall c
      ensures StatesAfter(guess, target, c, |guess|) == Lookup(KeyHints(guess, score), c)
    {
      if ExactIn(guess, target, c, |guess|) > 0 {
        ExactPositionExists(guess, target, c, |guess|);
        var j :| 0 <= j < |guess| && guess[j] == c && target[j] == c;
        CorrectDominates(guess, score, c, |guess|, j);
      }
    }
  }

  lemma SameLookupSameMap(m: map<char, Hint>, m': map<char, Hint>)
    requires forall c :: Lookup(m, c) == Lookup(m', c)
    ensures m == m'
  {
    forall c
      ensures c in m <==> c in m'
      ensures c in m ==> m[c] == m'[c]
    {
      assert Lookup(m, c) == Lookup(m', c);
    }
    assert m.Keys == m'.Keys;
  }

  /** The first pass: marks every exact match Correct. */
  method MarkExact(tiles: array<Tile>, guess: string, target: string, counts: map<char, int>)
    returns (remaining: map<char, int>, correct: nat, letterStates: map<char, Hint>)
    requires tiles.Length == |guess| == |target|
    requires forall j :: 0 <= j < tiles.Length ==> tiles[j] == Blank
    requires forall c :: Remaining(counts, c) == Occurrences(target, c)
    modifies tiles
    ensures forall j :: 0 <= j < tiles.Length ==>
              tiles[j] == if guess[j] == target[j] then Marked(Correct) else Blank
    ensures forall c :: Remaining(remaining, c) == Spare(guess, target, c)
    ensures correct == MatchesIn(guess, target, |guess|)
    ensures forall c :: Lookup(letterStates, c) == if ExactIn(guess, target, c, |guess|) > 0 then Some(Correct) else None
  {
    remaining, correct, letterStates := counts, 0, map[];
    for i := 0 to tiles.Length
      invariant forall j :: 0 <= j < i ==> tiles[j] == if guess[j] == target[j] then Marked(Correct) else Blank
      invariant forall j :: i <= j < tiles.Length ==> tiles[j] == Blank
      invariant forall c :: Remaining(remaining, c) == Occurrences(target, c) - ExactIn(guess, target, c, i)
      invariant correct == MatchesIn(guess, target, i)
      invariant forall c :: Lookup(letterStates, c) == if ExactIn(guess, target, c, i) > 0 then Some(Correct) else None
    {
      remaining, correct, letterStates := MarkIfExact(tiles, i, guess, target, remaining, correct, letterStates);
    }
  }

  /** One step of the first pass, on tile `i`: on an exact match the tile is marked
      Correct, one occurrence of its letter is taken off the remaining count (which never
      goes below zero), the letter is recorded as Correct, and the match is counted. */
  method MarkIfExact(tiles: array<Tile>, i: nat, guess: string, target: string,
                     counts: map<char, int>, matched: nat, states: map<char, Hint>)
    returns (remaining: map<char, int>, correct: nat, letterStates: map<char, Hint>)
    requires tiles.Length == |guess| == |target| && i < tiles.Length && tiles[i] == Blank
    requires forall c :: Remaining(counts, c) == Occurrences(target, c) - ExactIn(guess, target, c, i)
    requires matched == MatchesIn(guess, target, i)
    requires forall c :: Lookup(states, c) == if ExactIn(guess, target, c, i) > 0 then Some(Correct) else None
    modifies tiles
    ensures tiles[i] == if guess[i] == target[i] then Marked(Correct) else Blank
    ensures forall j :: 0 <= j < tiles.Length && j != i ==> tiles[j] == old(tiles[j])
    ensures forall c :: Remaining(remaining, c) == Occurrences(target, c) - ExactIn(guess, target, c, i + 1)
    ensures forall c :: Remaining(remaining, c) >= 0
    ensures correct == MatchesIn(guess, target, i + 1)
    ensures forall c :: Lookup(letterStates, c) == if ExactIn(guess, target, c, i + 1) > 0 then Some(Correct) else None
  {
    remaining, correct, letterStates := counts, matched, states;
    var letter := guess[i];
    if letter == target[i] {
      ExactWithinTarget(guess, target, letter, i + 1);
      tiles[i] := Marked(Correct);
      remaining := remaining[letter := remaining[letter] - 1];
      letterStates := letterStates[letter := Correct];
      correct := correct + 1;
    }
    forall c
      ensures Remaining(remaining, c) >= 0
    {
      ExactWithinTarget(guess, target, c, i + 1);
    }
  }

  /** What the remaining-letters table holds for `c` once the second pass has handled the
      first `i` positions: the spare occurrences not yet handed out as Present. */
  function RemainingAfter(guess: seq<char>, target: seq<char>, c: char, i: nat): nat
    requires |guess| == |target| && i <= |guess|
  {
    Spare(guess, target, c) - Min(MisplacedIn(guess, target, c, i), Spare(guess, target, c))
  }

  /** What the letter-state map holds for `c` once the second pass has handled the first
      `i` positions: Correct after any exact match, else the best hint seen so far. */
  function StatesAfter(guess: seq<char>, target: seq<char>, c: char, i: nat): Option<Hint>
    requires |guess| == |target| && i <= |guess|
  {
    if ExactIn(guess, target, c, |guess|) > 0 then Some(Correct) else BestSeen(guess, Score(guess, target), c, i)
  }

  /** One step of the second pass on the remaining count: a misplaced letter is Present
      exactly when its count is positive, and then uses one up. */
  lemma RemainingStep(guess: seq<char>, target: seq<char>, c: char, i: nat)
    requires |guess| == |target| && i < |guess|
    ensures c != guess[i] || guess[i] == target[i] ==> RemainingAfter(guess, target, c, i + 1) == RemainingAfter(guess, target, c, i)
    ensures c == guess[i] && guess[i] != target[i] ==>
              if RemainingAfter(guess, target, c, i) > 0
              then Score(guess, target)[i] == Present && RemainingAfter(guess, target, c, i + 1) == RemainingAfter(guess, target, c, i) - 1
              else Score(guess, target)[i] == Absent && RemainingAfter(guess, target, c, i + 1) == RemainingAfter(guess, target, c, i)
  {
  }

  /** One step of the second pass on the letter-state map: the state of the letter at
      position `i` is joined with its hint, and no other letter's state changes. */
  lemma StatesStep(guess: seq<char>, target: seq<char>, c: char, i: nat)
    requires |guess| == |target| && i < |guess|
    ensures c != guess[i] ==> StatesAfter(guess, target, c, i + 1) == StatesAfter(guess, target, c, i)
    ensures c == guess[i] ==>
              StatesAfter(guess, target, c, i + 1) == Some(Join(StatesAfter(guess, target, c, i), Score(guess, target)[i]))
    ensures c == guess[i] && guess[i] == target[i] ==> StatesAfter(guess, target, c, i) == Some(Correct)
  {
    if c == guess[i] {
      if guess[i] == target[i] {
        ExactAtPosition(guess, target, i, |guess|);
      } else if ExactIn(guess, target, c, |guess|) == 0 {
        NoCorrectWithoutExact(guess, target, c, i);
      }
    }
  }

  /** The second pass: classifies every tile not marked Correct. */
  method MarkRest(tiles: array<Tile>, guess: string, target: string, counts: map<char, int>, states: map<char, Hint>)
    returns (letterStates: map<char, Hint>)
    requires tiles.Length == |guess| == |target|
    requires forall j :: 0 <= j < tiles.Length ==>
               tiles[j] == if guess[j] == target[j] then Marked(Correct) else Blank
    requires forall c :: Remaining(counts, c) == Spare(guess, target, c)
    requires forall c :: Lookup(states, c) == if ExactIn(guess, target, c, |guess|) > 0 then Some(Correct) else None
    modifies tiles
    ensures forall j :: 0 <= j < tiles.Length ==> tiles[j] == Marked(Score(guess, target)[j])
    ensures forall c :: Lookup(letterStates, c) == StatesAfter(guess, target, c, |guess|)
  {
    ghost var score := Score(guess, target);
    var remaining := counts;
    letterStates := states;
    for i := 0 to tiles.Length
      invariant forall j :: 0 <= j < i ==> tiles[j] == Marked(score[j])
      invariant forall j :: i <= j < tiles.Length ==>
                  tiles[j] == if guess[j] == target[j] then Marked(Correct) else Blank
      invariant forall c :: Remaining(remaining, c) == RemainingAfter(guess, target, c, i)
      invariant forall c :: Lookup(letterStates, c) == StatesAfter(guess, target, c, i)
    {
      remaining, letterStates := ClassifyTile(tiles, i, guess, target, remaining, letterStates);
    }
  }

  /** One step of the second pass, on tile `i`: a tile not marked Correct becomes Present
      while its letter has a remaining count above zero (taking one off it), and Absent
      otherwise; the letter's keyboard state is raised to Present unless it is Correct,
      and set to Absent only if it has none yet. */
  method ClassifyTile(tiles: array<Tile>, i: nat, guess: string, target: string,
                      counts: map<char, int>, states: map<char, Hint>)
    returns (remaining: map<char, int>, letterStates: map<char, Hint>)
    requires tiles.Length == |guess| == |target| && i < tiles.Length
    requires tiles[i] == if guess[i] == target[i] then Marked(Correct) else Blank
    requires forall c :: Remaining(counts, c) == RemainingAfter(guess, target, c, i)
    requires forall c :: Lookup(states, c) == StatesAfter(guess, target, c, i)
    modifies tiles
    ensures tiles[i] == Marked(Score(guess, target)[i])
    ensures forall j :: 0 <= j < tiles.Length && j != i ==> tiles[j] == old(tiles[j])
    ensures forall c :: Remaining(remaining, c) == RemainingAfter(guess, target, c, i + 1)
    ensures forall c :: Lookup(letterStates, c) == StatesAfter(guess, target, c, i + 1)
  {
    remaining, letterStates := counts, states;
    var letter := guess[i];
    RemainingStep(guess, target, letter, i);
    StatesStep(guess, target, letter, i);
    assert Remaining(remaining, letter) == RemainingAfter(guess, target, letter, i);
    ghost var seen := Lookup(letterStates, letter);
    assert seen == StatesAfter(guess, target, letter, i);
    if tiles[i] != Marked(Correct) {
      if letter in remaining && remaining[letter] > 0 {
        tiles[i] := Marked(Present);
        remaining := remaining[letter := remaining[letter] - 1];
        if letter !in letterStates || letterStates[letter] != Correct {
          letterStates := letterStates[letter := Present];
        }
        assert Lookup(letterStates, letter) == Some(Join(seen, Present));
      } else {
        tiles[i] := Marked(Absent);
        if letter !in letterStates {
          letterStates := letterStates[letter := Absent];
        }
        assert Lookup(letterStates, letter) == Some(Join(seen, Absent));
      }
    }
    forall c
      ensures Remaining(remaining, c) == RemainingAfter(guess, target, c, i + 1)
      ensures Lookup(letterStates, c) == StatesAfter(guess, target, c, i + 1)
    {
      RemainingStep(guess, target, c, i);
      StatesStep(guess, target, c, i);
      if c != letter {
        assert Remaining(remaining, c) == Remaining(counts, c);
        assert Lookup(letterStates, c) == Lookup(states, c);
      }
    }
  }

  /** A positive count of exact matches of `c` is witnessed by a position. */
  lemma {:induction false} ExactPositionExists(guess: seq<char>, target: seq<char>, c: char, n: nat)
    requires n <= |guess| && n <= |target|
    requires ExactIn(guess, target, c, n) > 0
    ensures exists j :: 0 <= j < n && guess[j] == c && target[j] == c
  {
    if guess[n - 1] != c || target[n - 1] != c {
      ExactPositionExists(guess, target, c, n - 1);
    }
  }
}
