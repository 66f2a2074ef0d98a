/**
 * The server's per-request game logic over one client's record: letter
 * guesses while a round is on (status 2 or 3), the replay question while it
 * is not (status 0 or 1), and the shutdown of a disconnecting client.
 */
module Game {
  import opened Hangman

  /** The ten gallows stages, indexed by the number of wrong guesses. */
  const FailureDrawing: seq<string> := [
    "\n\n\n\n\n\n",
    "\n\n\n\n\n/\n",
    "\n\n\n\n\n/ \\\n",
    "\n\n\n\n |\n/ \\\n",
    "\n\n\n |\n |\n/ \\\n",
    "\n\n /\n |\n |\n/ \\\n",
    "\n  /\n /\n |\n |\n/ \\\n",
    "   __\n  /\n /   \n |\n |\n/ \\\n",
    "   __\n  /  |\n /\n |\n |\n/ \\\n",
    "   __\n  /  |\n /   O\n |  /|\\\n |  / \\\n/ \\\n"
  ]

  const InvalidGuessInfo: string := "Invalid input."
  const AlreadyGuessedInfo: string := "Already guessed."
  const NoMoreWordsInfo: string := "No more words"
  const QuitInfo: string := "Quit game"
  const InvalidReplyInfo: string := "Invalid input"
  const ShutdownInfo: string := "Client shutdown"

  /** The progress a player should see: each position of the secret whose
      letter has been guessed shows it, every other position shows '_'. */
  function Mask(secret: string, guessed: seq<char>): string
  {
    seq(|secret|, i requires 0 <= i < |secret| => if secret[i] in guessed then secret[i] else '_')
  }

  /** The progress after revealing: positions whose secret letter is among
      the guessed slots take that letter, the others keep what they show. */
  function Reveal(secret: string, guessed: seq<char>, progress: string): string
    requires |progress| == |secret|
  {
    seq(|secret|, i requires 0 <= i < |secret| => if secret[i] in guessed then secret[i] else progress[i])
  }

  /** Compares every position of the secret with every guessed slot and
      copies the secret's letter on a match. */
  method ClearWord(secret: string, guessed: seq<char>, progress: string) returns (word: string)
    requires |progress| == |secret|
    ensures word == Reveal(secret, guessed, progress)
  {
    word := progress;
    var i := 0;
    while i < |secret|
      invariant i <= |secret| == |word|
      invariant forall p :: 0 <= p < i ==> word[p] == (if secret[p] in guessed then secret[p] else progress[p])
      invariant forall p :: i <= p < |word| ==> word[p] == progress[p]
    {
      var j := 0;
      while j < |guessed|
        invariant j <= |guessed| && |word| == |secret|
        invariant forall p :: 0 <= p < i ==> word[p] == (if secret[p] in guessed then secret[p] else progress[p])
        invariant forall p :: i < p < |word| ==> word[p] == progress[p]
        invariant word[i] == if secret[i] in guessed[..j] then secret[i] else progress[i]
      {
        assert guessed[..j + 1] == guessed[..j] + [guessed[j]];
        if secret[i] == guessed[j] {
          word := word[i := secret[i]];
        }
        j := j + 1;
      }
      assert guessed[..j] == guessed;
      i := i + 1;
    }
  }

  /** A guessed slot that holds a letter the secret does not contain. */
  predicate IsMiss(secret: string, c: char)
  {
    c != '_' && c !in secret
  }

  /** How many guessed slots hold a letter absent from the secret. */
  function Misses(secret: string, guessed: seq<char>): nat
  {
    if guessed == [] then 0
    else Misses(secret, guessed[..|guessed| - 1]) + (if IsMiss(secret, guessed[|guessed| - 1]) then 1 else 0)
  }

  /** 26 slots, each '_' or its own letter. */
  ghost predicate WellFormedGuessed(g: seq<char>)
  {
    |g| == AlphabetSize && forall j :: 0 <= j < |g| ==> g[j] == '_' || g[j] == LetterAt(j)
  }

  /** A round in progress: the word exists, fewer than nine wrong guesses,
      the progress is exactly what the guessed letters reveal, and the
      wrong-guess count is the number of guessed letters not in the word. */
  ghost predicate InRound(e: Entry, words: seq<string>)
  {
    && 0 <= e.index < |words|
    && e.wrongGuesses < MaxWrongGuesses
    && e.word == Mask(words[e.index], e.guessed)
    && e.wrongGuesses == Misses(words[e.index], e.guessed)
  }

  /** The invariant every record keeps between requests. Besides the shape
      of the fields, every finished round was tallied exactly once: in a
      round the tallies count the rounds before it, out of one they count
      every round started so far. */
  ghost predicate Valid(e: Entry, words: seq<string>)
  {
    && WellFormedGuessed(e.guessed)
    && 0 <= e.wrongGuesses <= MaxWrongGuesses
    && 0 <= e.wins && 0 <= e.losses
    && -1 <= e.index <= |words|
    && -1 <= e.status <= 3
    && (e.status == 0 || e.status == 1 ==> e.wins + e.losses == e.index + 1 && e.index < |words|)
    && (e.status == 2 || e.status == 3 ==> e.wins + e.losses == e.index && InRound(e, words))
  }

  /** A request while a round is on. */
  function GuessStep(e: Entry, send: char, secret: string): (r: Entry)
    requires |e.guessed| == AlphabetSize && |e.word| == |secret|
    requires 0 <= e.wrongGuesses < MaxWrongGuesses
    ensures r.id == e.id && r.index == e.index
    ensures r.status == 0 || r.status == 2 || r.status == 3
    ensures r.status == 3 ==> r.guessed == e.guessed && r.word == e.word && r.wrongGuesses == e.wrongGuesses
    ensures r.status != 3 ==> IsUpper(send) && r.guessed == e.guessed[LetterIndex(send) := send] != e.guessed
    ensures e.wrongGuesses <= r.wrongGuesses <= e.wrongGuesses + 1 && |r.word| == |secret|
  {
    if send < 'A' || send > 'Z' then e.(status := 3, info := InvalidGuessInfo)
    else if send !in e.guessed then
      var guessed := e.guessed[LetterIndex(send) := send];
      assert guessed[LetterIndex(send)] != e.guessed[LetterIndex(send)];
      var hit := send in secret;
      var word := if hit then Reveal(secret, guessed, e.word) else e.word;
      var wrong := if hit then e.wrongGuesses else e.wrongGuesses + 1;
      var next := e.(guessed := guessed, word := word, wrongGuesses := wrong,
                     info := FailureDrawing[wrong], status := 2);
      if wrong == MaxWrongGuesses then next.(status := 0, losses := e.losses + 1, word := secret)
      else if '_' !in word then next.(status := 0, wins := e.wins + 1)
      else next
    else e.(status := 3, info := AlreadyGuessedInfo)
  }

  /** A request while no round is on: 'Y' moves to the next word, 'N' quits,
      anything else is rejected. */
  function MenuStep(e: Entry, send: char, words: seq<string>): (r: Entry)
    requires e.index >= -1
    ensures r.id == e.id && r.wins == e.wins && r.losses == e.losses
    ensures r.status == -1 || r.status == 1 || r.status == 2
    ensures r.status == 2 <==> send == 'Y' && e.index + 1 < |words|
    ensures r.status == 2 ==> r.index == e.index + 1 && |r.word| == |words[r.index]| && r.wrongGuesses == 0
  {
    if send == 'Y' then
      var index := e.index + 1;
      if index < |words| then
        e.(status := 2, index := index, word := Blank(|words[index]|), wrongGuesses := 0,
           info := FailureDrawing[0], guessed := Unguessed())
      else e.(status := -1, index := index, info := NoMoreWordsInfo)
    else if send == 'N' then e.(status := -1, info := QuitInfo)
    else e.(status := 1, info := InvalidReplyInfo)
  }

  /** One request from a connected client. */
  function Step(e: Entry, send: char, words: seq<string>): (r: Entry)
    requires Valid(e, words)
    ensures r.id == e.id && r.wins >= e.wins && r.losses >= e.losses
    ensures e.status >= 2 ==> r.status != -1 && r.status != 1
    ensures 0 <= e.status <= 1 ==> r.status != 0 && r.status != 3
  {
    if e.status > 1 then GuessStep(e, send, words[e.index])
    else if e.status >= 0 then MenuStep(e, send, words)
    else e
  }

  /** The record of a client that announced its shutdown. */
  function Disconnect(e: Entry): (r: Entry)
    ensures r.status == -1 && r.info == ShutdownInfo && r.id == e.id
    ensures r.guessed == e.guessed && r.word == e.word && r.wrongGuesses == e.wrongGuesses
    ensures r.index == e.index && r.wins == e.wins && r.losses == e.losses
  {
    e.(status := -1, info := ShutdownInfo)
  }

  /** The request handling of the server loop, field by field. */
  method Transition(e: Entry, send: char, words: seq<string>) returns (next: Entry)
    requires Valid(e, words)
    ensures next == Step(e, send, words)
  {
    next := e;
    if next.status > 1 {
      var index := next.index;
      if send < 'A' || send > 'Z' {
        next := next.(status := 3, info := InvalidGuessInfo);
      } else if send !in next.guessed {
        next := next.(guessed := next.guessed[LetterIndex(send) := send]);
        if send in words[index] {
          var word := ClearWord(words[index], next.guessed, next.word);
          next := next.(word := word);
        } else {
          next := next.(wrongGuesses := next.wrongGuesses + 1);
        }
        next := next.(info := FailureDrawing[next.wrongGuesses], status := 2);
        if next.wrongGuesses == MaxWrongGuesses {
          next := next.(status := 0, losses := next.losses + 1, word := words[index]);
        } else if '_' !in next.word {
          next := next.(status := 0, wins := next.wins + 1);
        }
      } else {
        next := next.(status := 3, info := AlreadyGuessedInfo);
      }
    } else if next.status >= 0 {
      if send == 'Y' {
        next := next.(status := 2, index := next.index + 1);
        if next.index < |words| {
          next := next.(word := Blank(|words[next.index]|), wrongGuesses := 0,
                        info := FailureDrawing[0], guessed := Unguessed());
        } else {
          next := next.(status := -1, info := NoMoreWordsInfo);
        }
      } else if send == 'N' {
        next := next.(status := -1, info := QuitInfo);
      } else {
        next := next.(status := 1, info := InvalidReplyInfo);
      }
    }
  }

  // Lemmas about the progress mask and the miss count.

  /** Filling in a slot that was '_' adds one miss exactly when the new
      letter is not in the secret. */
  lemma {:induction false} MissesUpdate(secret: string, g: seq<char>, k: nat, c: char)
    requires k < |g| && g[k] == '_'
    ensures Misses(secret, g[k := c]) == Misses(secret, g) + (if IsMiss(secret, c) then 1 else 0)
  {
    var n := |g|;
    var g' := g[k := c];
    if k == n - 1 {
      assert g'[..n - 1] == g[..n - 1];
    } else {
      assert g'[..n - 1] == g[..n - 1][k := c];
      MissesUpdate(secret, g[..n - 1], k, c);
    }
  }

  /** Slots holding only '_' count no misses. */
  lemma {:induction false} MissesNone(secret: string, g: seq<char>)
    requires forall j :: 0 <= j < |g| ==> g[j] == '_'
    ensures Misses(secret, g) == 0
  {
    if g != [] {
      MissesNone(secret, g[..|g| - 1]);
    }
  }

  /** An upper-case letter is among well-formed slots exactly when its own
      slot holds it. */
  lemma GuessedSlot(g: seq<char>, c: char)
    requires WellFormedGuessed(g) && IsUpper(c)
    ensures c in g <==> g[LetterIndex(c)] == c
  {
    if c in g {
      var j :| 0 <= j < |g| && g[j] == c;
      assert LetterAt(j) == c;
    }
  }

  /** Revealing with more guessed letters turns the old mask into the new. */
  lemma RevealMask(secret: string, g: seq<char>, g': seq<char>)
    requires forall c :: c in g && c != '_' ==> c in g'
    ensures Reveal(secret, g', Mask(secret, g)) == Mask(secret, g')
  {
  }

  /** A letter that is not in the secret reveals nothing. */
  lemma MaskAfterMiss(secret: string, g: seq<char>, k: nat, c: char)
    requires k < |g| && g[k] == '_' && c !in secret
    ensures Mask(secret, g[k := c]) == Mask(secret, g)
  {
    var g' := g[k := c];
    forall i | 0 <= i < |secret|
      ensures Mask(secret, g')[i] == Mask(secret, g)[i]
    {
      if secret[i] != '_' {
        if secret[i] in g {
          var j :| 0 <= j < |g| && g[j] == secret[i];
          assert g'[j] == secret[i];
        }
        if secret[i] in g' {
          var j :| 0 <= j < |g'| && g'[j] == secret[i];
          assert g[j] == secret[i];
        }
      }
    }
  }

  /** A mask without '_' is the secret itself. */
  lemma MaskComplete(secret: string, g: seq<char>)
    requires '_' !in Mask(secret, g)
    ensures Mask(secret, g) == secret
  {
    var m := Mask(secret, g);
    forall i | 0 <= i < |secret|
      ensures m[i] == secret[i]
    {
      assert m[i] != '_';
    }
  }

  // Lemmas about one request.

  /** A new letter in a round: it fills its slot; the wrong-guess count grows
      by one exactly when the secret lacks it; the ninth miss loses the round
      and shows the whole word; otherwise the progress is the mask of the
      guessed letters, and the round is won exactly when no '_' is left. */
  lemma NewLetter(e: Entry, letter: char, words: seq<string>)
    requires Valid(e, words) && e.status >= 2
    requires IsUpper(letter) && letter !in e.guessed
    ensures
      var secret := words[e.index];
      var r := Step(e, letter, words);
      var g := e.guessed[LetterIndex(letter) := letter];
      && r.guessed == g && r.id == e.id && r.index == e.index
      && r.wrongGuesses == e.wrongGuesses + (if letter in secret then 0 else 1)
      && r.info == FailureDrawing[r.wrongGuesses]
      && (r.wrongGuesses == MaxWrongGuesses ==>
            r.status == 0 && r.losses == e.losses + 1 && r.wins == e.wins && r.word == secret)
      && (r.wrongGuesses < MaxWrongGuesses ==>
            r.word == Mask(secret, g) && r.losses == e.losses &&
            if '_' in r.word then r.status == 2 && r.wins == e.wins
            else r.status == 0 && r.wins == e.wins + 1)
  {
    var secret := words[e.index];
    var k := LetterIndex(letter);
    var g := e.guessed[k := letter];
    GuessedSlot(e.guessed, letter);
    if letter in secret {
      forall c | c in e.guessed && c != '_'
        ensures c in g
      {
        var j :| 0 <= j < |e.guessed| && e.guessed[j] == c;
        assert j != k;
        assert g[j] == c;
      }
      RevealMask(secret, e.guessed, g);
    } else {
      MaskAfterMiss(secret, e.guessed, k, letter);
    }
  }

  /** In a round, a request outside 'A'..'Z' or a letter already guessed is
      rejected with status 3 and its message; nothing else changes. */
  lemma RejectedGuess(e: Entry, send: char, words: seq<string>)
    requires Valid(e, words) && e.status >= 2
    requires !IsUpper(send) || send in e.guessed
    ensures Step(e, send, words) ==
      e.(status := 3, info := if IsUpper(send) then AlreadyGuessedInfo else InvalidGuessInfo)
  {
  }

  /** Every request keeps the record invariant. */
  lemma StepKeepsValid(e: Entry, send: char, words: seq<string>)
    requires Valid(e, words)
    ensures Valid(Step(e, send, words), words)
  {
    var r := Step(e, send, words);
    if e.status >= 2 && IsUpper(send) && send !in e.guessed {
      var secret := words[e.index];
      var k := LetterIndex(send);
      NewLetter(e, send, words);
      GuessedSlot(e.guessed, send);
      MissesUpdate(secret, e.guessed, k, send);
      assert r.guessed == e.guessed[k := send];
      assert WellFormedGuessed(r.guessed) by {
        assert LetterAt(k) == send;
      }
    } else if 0 <= e.status <= 1 && send == 'Y' && e.index + 1 < |words| {
      MissesNone(words[e.index + 1], Unguessed());
      assert Blank(|words[e.index + 1]|) == Mask(words[e.index + 1], Unguessed());
    }
  }

  /** A request that ends a round tallies exactly one result, a loss exactly
      when the ninth wrong guess was reached, and shows the whole word. */
  lemma RoundEnd(e: Entry, send: char, words: seq<string>)
    requires Valid(e, words) && e.status >= 2
    requires Step(e, send, words).status == 0
    ensures
      var r := Step(e, send, words);
      && r.word == words[e.index]
      && r.wins + r.losses == e.wins + e.losses + 1
      && (r.losses == e.losses + 1 <==> r.wrongGuesses == MaxWrongGuesses)
      && (r.wins == e.wins + 1 <==> r.wrongGuesses < MaxWrongGuesses)
  {
    var r := Step(e, send, words);
    NewLetter(e, send, words);
    if r.wrongGuesses < MaxWrongGuesses {
      MaskComplete(words[e.index], r.guessed);
    }
  }

  /** Out of a round: 'Y' starts the next word with everything hidden, no
      wrong guesses and no letters guessed, or ends the session when the
      list is exhausted; 'N' ends the session; anything else is rejected. */
  lemma Replay(e: Entry, send: char, words: seq<string>)
    requires Valid(e, words) && 0 <= e.status <= 1
    ensures
      var r := Step(e, send, words);
      && r.status == (if send == 'Y' then (if e.index + 1 < |words| then 2 else -1)
                      else if send == 'N' then -1 else 1)
      && r.wins == e.wins && r.losses == e.losses
      && (send == 'Y' ==> r.index == e.index + 1)
      && (r.status == 2 ==>
            r.word == Mask(words[r.index], r.guessed) &&
            r.guessed == Unguessed() && r.wrongGuesses == 0)
      && (r.status == -1 ==> r.info == if send == 'Y' then NoMoreWordsInfo else QuitInfo)
      && (r.status == 1 ==> r.info == InvalidReplyInfo)
      && (r.status == 2 ==> r.info == FailureDrawing[0])
      && (send != 'Y' ==>
            r == e.(status := if send == 'N' then -1 else 1,
                    info := if send == 'N' then QuitInfo else InvalidReplyInfo))
      && (send == 'Y' && e.index + 1 >= |words| ==>
            r == e.(status := -1, index := e.index + 1, info := NoMoreWordsInfo))
  {
    if send == 'Y' && e.index + 1 < |words| {
      assert Blank(|words[e.index + 1]|) == Mask(words[e.index + 1], Unguessed());
    }
  }

  /** A round on an empty word is won by its first new letter. */
  lemma EmptyWordWon(e: Entry, letter: char, words: seq<string>)
    requires Valid(e, words) && e.status >= 2 && words[e.index] == [] && e.wrongGuesses == 0
    requires IsUpper(letter) && letter !in e.guessed
    ensures Step(e, letter, words).status == 0
    ensures Step(e, letter, words).wins == e.wins + 1
  {
    NewLetter(e, letter, words);
  }

  // Lemmas about whole rounds.

  /** The record after a sequence of requests from one client. */
  function Play(e: Entry, sends: seq<char>, words: seq<string>): (r: Entry)
    requires Valid(e, words)
    ensures Valid(r, words)
    decreases |sends|
  {
    if sends == [] then e
    else
      StepKeepsValid(e, sends[0], words);
      Play(Step(e, sends[0], words), sends[1..], words)
  }

  /** Guessing, once each, the letters of the word not yet guessed wins the
      round with the last of them, without a wrong guess, and shows the word. */
  lemma {:induction false} GuessingTheWordWins(e: Entry, letters: seq<char>, words: seq<string>)
    requires Valid(e, words) && e.status >= 2
    requires '_' !in words[e.index]
    requires |letters| >= 1
    requires forall i :: 0 <= i < |letters| ==>
      IsUpper(letters[i]) && letters[i] in words[e.index] && letters[i] !in e.guessed
    requires forall i, j :: 0 <= i < j < |letters| ==> letters[i] != letters[j]
    requires forall p :: 0 <= p < |words[e.index]| ==>
      words[e.index][p] in e.guessed || words[e.index][p] in letters
    ensures
      var r := Play(e, letters, words);
      && r.status == 0 && r.wins == e.wins + 1 && r.losses == e.losses
      && r.word == words[e.index] && r.wrongGuesses == e.wrongGuesses
    decreases |letters|
  {
    var r1 := Step(e, letters[0], words);
    WinFirst(e, letters, words);
    assert Play(e, letters, words) == Play(r1, letters[1..], words);
    if |letters| > 1 {
      GuessingTheWordWins(r1, letters[1..], words);
    }
  }

  /** The first of those letters: it fills its slot, no miss is counted,
      and either it was the last one missing and the round is won, or the
      round goes on and the remaining letters meet the same conditions. */
  lemma WinFirst(e: Entry, letters: seq<char>, words: seq<string>)
    requires Valid(e, words) && e.status >= 2
    requires '_' !in words[e.index]
    requires |letters| >= 1
    requires forall i :: 0 <= i < |letters| ==>
      IsUpper(letters[i]) && letters[i] in words[e.index] && letters[i] !in e.guessed
    requires forall i, j :: 0 <= i < j < |letters| ==> letters[i] != letters[j]
    requires forall p :: 0 <= p < |words[e.index]| ==>
      words[e.index][p] in e.guessed || words[e.index][p] in letters
    ensures
      var r1 := Step(e, letters[0], words);
      var rest := letters[1..];
      && Valid(r1, words) && r1.index == e.index && r1.losses == e.losses
      && r1.wrongGuesses == e.wrongGuesses
      && (|letters| == 1 ==> r1.status == 0 && r1.wins == e.wins + 1 && r1.word == words[e.index])
      && (|letters| > 1 ==>
            && r1.status == 2 && r1.wins == e.wins
            && (forall i :: 0 <= i < |rest| ==>
                  IsUpper(rest[i]) && rest[i] in words[e.index] && rest[i] !in r1.guessed)
            && (forall i, j :: 0 <= i < j < |rest| ==> rest[i] != rest[j])
            && (forall p :: 0 <= p < |words[e.index]| ==>
                  words[e.index][p] in r1.guessed || words[e.index][p] in rest))
  {
    var secret := words[e.index];
    var letter := letters[0];
    var r1 := Step(e, letter, words);
    NewLetter(e, letter, words);
    StepKeepsValid(e, letter, words);
    SlotFilled(e.guessed, letter);
    if |letters| == 1 {
      MaskFull(secret, r1.guessed);
    } else {
      var rest := letters[1..];
      RestFresh(e.guessed, r1.guessed, letters);
      var last := rest[|rest| - 1];
      var p :| 0 <= p < |secret| && secret[p] == last;
      MaskHides(secret, r1.guessed, p);
      CoverRest(secret, e.guessed, r1.guessed, letters);
      assert forall i :: 0 <= i < |rest| ==> rest[i] == letters[i + 1];
    }
  }

  lemma RestFresh(g: seq<char>, g': seq<char>, letters: seq<char>)
    requires |letters| >= 1
    requires forall x :: x in g' ==> x in g || x == letters[0]
    requires forall i :: 0 <= i < |letters| ==> letters[i] !in g
    requires forall i, j :: 0 <= i < j < |letters| ==> letters[i] != letters[j]
    ensures forall i :: 0 <= i < |letters| - 1 ==> letters[1..][i] !in g'
    ensures forall i, j :: 0 <= i < j < |letters| - 1 ==> letters[1..][i] != letters[1..][j]
  {
    forall i | 0 <= i < |letters| - 1
      ensures letters[1..][i] !in g'
    {
      assert letters[1..][i] == letters[i + 1] != letters[0];
    }
  }

  /** Filling the slot of a new letter adds that letter and nothing else. */
  lemma SlotFilled(g: seq<char>, c: char)
    requires WellFormedGuessed(g) && IsUpper(c)
    ensures c in g[LetterIndex(c) := c]
    ensures forall x :: x in g[LetterIndex(c) := c] ==> x in g || x == c
    ensures forall x :: x in g && x != '_' ==> x in g[LetterIndex(c) := c]
  {
    var k := LetterIndex(c);
    var g' := g[k := c];
    assert g'[k] == c;
    forall x | x in g && x != '_'
      ensures x in g'
    {
      var j :| 0 <= j < |g| && g[j] == x;
      if j != k {
        assert g'[j] == x;
      }
    }
  }

  /** Every letter of a '_'-free secret guessed: the mask is the secret. */
  lemma MaskFull(secret: string, g: seq<char>)
    requires '_' !in secret
    requires forall p :: 0 <= p < |secret| ==> secret[p] in g
    ensures Mask(secret, g) == secret
  {
  }

  /** A letter of the secret not yet guessed leaves a '_' in the mask. */
  lemma MaskHides(secret: string, g: seq<char>, p: nat)
    requires p < |secret| && secret[p] !in g
    ensures '_' in Mask(secret, g)
  {
    assert Mask(secret, g)[p] == '_';
  }

  /** After the first letter is guessed, the others still cover the rest. */
  lemma CoverRest(secret: string, g: seq<char>, g': seq<char>, letters: seq<char>)
    requires |letters| >= 1 && letters[0] in g' && '_' !in secret
    requires forall x :: x in g && x != '_' ==> x in g'
    requires forall p :: 0 <= p < |secret| ==> secret[p] in g || secret[p] in letters
    ensures forall p :: 0 <= p < |secret| ==> secret[p] in g' || secret[p] in letters[1..]
  {
    forall p | 0 <= p < |secret| && secret[p] !in g'
      ensures secret[p] in letters[1..]
    {
      var i :| 0 <= i < |letters| && letters[i] == secret[p];
      assert i > 0 && letters[1..][i - 1] == secret[p];
    }
  }

  /** Nine wrong guesses in all, with letters absent from the word, lose the
      round with the last of them and show the word. */
  lemma {:induction false} MissingNineTimesLoses(e: Entry, letters: seq<char>, words: seq<string>)
    requires Valid(e, words) && e.status >= 2
    requires '_' in e.word
    requires |letters| == MaxWrongGuesses - e.wrongGuesses
    requires forall i :: 0 <= i < |letters| ==>
      IsUpper(letters[i]) && letters[i] !in words[e.index] && letters[i] !in e.guessed
    requires forall i, j :: 0 <= i < j < |letters| ==> letters[i] != letters[j]
    ensures
      var r := Play(e, letters, words);
      && r.status == 0 && r.losses == e.losses + 1 && r.wins == e.wins
      && r.word == words[e.index] && r.wrongGuesses == MaxWrongGuesses
    decreases |letters|
  {
    var secret := words[e.index];
    var letter := letters[0];
    var r1 := Step(e, letter, words);
    NewLetter(e, letter, words);
    StepKeepsValid(e, letter, words);
    if |letters| > 1 {
      MaskAfterMiss(secret, e.guessed, LetterIndex(letter), letter);
      assert r1.word == e.word;
      assert r1.status == 2;
      var rest := letters[1..];
      assert forall c :: c in r1.guessed ==> c in e.guessed || c == letter;
      GuessingRest(letters);
      MissingNineTimesLoses(r1, rest, words);
    }
  }

  /** The letters after the first of a list without repeats differ from it. */
  lemma GuessingRest(letters: seq<char>)
    requires |letters| >= 1
    requires forall i, j :: 0 <= i < j < |letters| ==> letters[i] != letters[j]
    ensures forall i :: 0 <= i < |letters| - 1 ==> letters[1..][i] != letters[0]
  {
  }
}
