/** The game driver: plays one session against a secret word by repeatedly
    filtering the remaining candidates, picking one, and scoring it, and runs a
    challenge over several secrets. */
module Sutom {
  import opened Words
  import opened Seqs
  import opened Filter
  import opened Scoring

  /** How a session stops without finding the secret: the filter raised, the
      candidate pool ran empty (the ranking has nothing to pick from), or the
      secret has no first letter to seed the known letters with. */
  datatype SessionError =
    | FilterFailed(error: FilterError)
    | NoCandidate
    | EmptySecret

  /** The ranking that picks the next guess is left abstract: any selector
      that returns a member of a non-empty pool. */
  ghost predicate Picks(select: seq<Word> -> Word) {
    forall pool: seq<Word> :: pool != [] ==> select(pool) in pool
  }

  predicate AllWords(pool: seq<Word>) {
    forall w :: w in pool ==> IsWord(w)
  }

  /** The only known letter a session ever uses: the secret's first letter. */
  function SeedLetters(secret: Word): (known: seq<Placed>)
    requires |secret| >= 1
    ensures forall e :: e in known ==> e.pos == 1 && e.letter == secret[0]
  {
    [Placed(secret[0], 1)]
  }

  /** The state after a guess `g` that missed: `g` was picked from `pool`, has
      the secret's length and first letter, and its feedback is the current
      misplaced list and part of the forbidden set. */
  predicate AfterMiss(pool: seq<Word>, secret: Word, wrong: seq<Placed>, forbidden: set<char>, g: Word) {
    g in pool && IsWord(g) && |secret| >= 1 && |g| == |secret| && g != secret && g[0] == secret[0] &&
    Score(g, secret).wrong == wrong && Score(g, secret).forbidden <= forbidden
  }

  /** The state a round starts from: a word secret with a first letter, a
      pool of words, upper-case misplaced letters, and, after a miss, the
      state `AfterMiss` describes. */
  ghost predicate Ready(pool: seq<Word>, secret: Word, select: seq<Word> -> Word,
                        wrong: seq<Placed>, forbidden: set<char>, attempts: seq<Word>) {
    IsWord(secret) && |secret| >= 1 && AllWords(pool) && Picks(select) && LettersAreUpper(wrong) &&
    (attempts != [] ==> AfterMiss(pool, secret, wrong, forbidden, attempts[|attempts| - 1]))
  }

  /** The misplaced letters of a feedback are letters of the guess. */
  lemma FeedbackLetters(guess: Word, secret: Word)
    requires IsWord(guess) && |guess| == |secret|
    ensures LettersAreUpper(Score(guess, secret).wrong)
  {
    ScoreMisplaced(guess, secret);
    var wrong := Score(guess, secret).wrong;
    forall e | e in wrong ensures IsLetter(e.letter) {
      var k :| 0 <= k < |wrong| && wrong[k] == e;
      assert IsLetter(guess[e.pos - 1]);
    }
  }

  /** Only position 1 is claimed by the seed letters. */
  lemma SeedTaken(secret: Word)
    requires IsWord(secret) && |secret| >= 1
    ensures Taken(KnownLedger(SeedLetters(secret))) == {1}
  {
    var l := KnownLedger(SeedLetters(secret));
    assert secret[0] in l && 1 in l[secret[0]];
  }

  /** After a miss the filter cannot raise: every position is within the
      word, and the guess itself has the length and the seed letter. */
  lemma MissFilterOk(pool: seq<Word>, secret: Word, wrong: seq<Placed>, forbidden: set<char>, g: Word)
    requires IsWord(secret) && |secret| >= 1 && LettersAreUpper(wrong)
    requires g in pool && |g| == |secret| && g[0] == secret[0]
    requires forall e :: e in wrong ==> e.pos <= |secret|
    ensures LettersAreUpper(SeedLetters(secret))
    ensures PossibleWords(pool, |secret|, SeedLetters(secret), wrong, forbidden).Ok?
  {
    var known := SeedLetters(secret);
    PossibleWordsRaises(pool, |secret|, known, wrong, forbidden);
    assert HasKnownLetters(g, known);
    assert forall e :: e in known + wrong ==> e in known || e in wrong;
  }

  /** The guess that missed fails the misplaced and forbidden stage. */
  lemma MissRejected(secret: Word, forbidden: set<char>, g: Word)
    requires IsWord(secret) && IsWord(g) && |secret| >= 1 && |g| == |secret| && g != secret && g[0] == secret[0]
    requires Score(g, secret).forbidden <= forbidden
    requires LettersAreUpper(Score(g, secret).wrong)
    ensures WordPossible(g, KnownLedger(SeedLetters(secret)), Score(g, secret).wrong, forbidden) == Ok(false)
  {
    var f := Score(g, secret);
    var ledger := KnownLedger(SeedLetters(secret));
    if f.wrong == [] {
      var i :| 0 <= i < |g| && g[i] != secret[i];
      ScoreWrongLetterForbidden(g, secret, i);
      SeedTaken(secret);
      assert i + 1 !in Taken(ledger);
    } else {
      ScoreFirstMisplaced(g, secret);
    }
  }

  /** A guess that missed never survives the next round's filter: either its
      first misplaced letter sits at its own reported position, or, with no
      misplaced letters, some position it got wrong holds a letter that was
      just forbidden. So the pool strictly shrinks. */
  lemma DropOut(pool: seq<Word>, secret: Word, wrong: seq<Placed>, forbidden: set<char>, g: Word)
    requires IsWord(secret) && AllWords(pool)
    requires AfterMiss(pool, secret, wrong, forbidden, g)
    ensures LettersAreUpper(SeedLetters(secret)) && LettersAreUpper(wrong)
    ensures var r := PossibleWords(pool, |secret|, SeedLetters(secret), wrong, forbidden);
      r.Ok? && g !in r.value && |r.value| < |pool|
  {
    var known := SeedLetters(secret);
    FeedbackLetters(g, secret);
    ScoreMisplaced(g, secret);
    assert forall e :: e in wrong ==> e.pos <= |secret| by {
      forall e | e in wrong ensures e.pos <= |secret| {
        var k :| 0 <= k < |wrong| && wrong[k] == e;
      }
    }
    MissFilterOk(pool, secret, wrong, forbidden, g);
    MissRejected(secret, forbidden, g);
    PossibleWordsKeeps(pool, |secret|, known, wrong, forbidden);
    var r := PossibleWords(pool, |secret|, known, wrong, forbidden);
    SubseqShorter(r.value, pool, g);
  }

  /** A missed guess was picked from `next`, a subsequence of `pool` that,
      after an earlier miss, has lost the guess that missed last. */
  predicate Narrows(next: seq<Word>, guess: Word, pool: seq<Word>, attempts: seq<Word>) {
    guess in next && IsSubseq(next, pool) && |next| <= |pool| && (forall w :: w in next ==> w in pool) &&
    (attempts != [] ==> |next| < |pool| && attempts[|attempts| - 1] !in next)
  }

  /** What one round of a session may rely on when the filter leaves a
      non-empty pool: the picked guess is a candidate word of the secret's
      length and first letter, and after a miss the pool strictly shrank. */
  lemma Round(pool: seq<Word>, secret: Word, select: seq<Word> -> Word,
              wrong: seq<Placed>, forbidden: set<char>, attempts: seq<Word>)
    requires IsWord(secret) && |secret| >= 1 && AllWords(pool) && Picks(select)
    requires LettersAreUpper(wrong)
    requires attempts != [] ==> AfterMiss(pool, secret, wrong, forbidden, attempts[|attempts| - 1])
    requires LettersAreUpper(SeedLetters(secret))
    requires var r := PossibleWords(pool, |secret|, SeedLetters(secret), wrong, forbidden); r.Ok? && r.value != []
    ensures var next := PossibleWords(pool, |secret|, SeedLetters(secret), wrong, forbidden).value;
      var guess := select(next);
      AllWords(next) && Narrows(next, guess, pool, attempts) &&
      IsWord(guess) && |guess| == |secret| && guess[0] == secret[0] &&
      LettersAreUpper(Score(guess, secret).wrong)
  {
    var known := SeedLetters(secret);
    var next := PossibleWords(pool, |secret|, known, wrong, forbidden).value;
    PossibleWordsKeeps(pool, |secret|, known, wrong, forbidden);
    SubseqMembers(next, pool);
    var guess := select(next);
    assert Survives(guess, |secret|, known, wrong, forbidden) && HasLetterAt(guess, secret[0], 1);
    FeedbackLetters(guess, secret);
    if attempts != [] {
      DropOut(pool, secret, wrong, forbidden, attempts[|attempts| - 1]);
    }
  }

  /** The outcome of one round. */
  datatype Step =
    | Stopped(error: SessionError)
    | Found(guess: Word)
    | Missed(guess: Word, next: seq<Word>, feedback: Feedback)

  /** One round: filter the pool with the seed letters and the latest
      feedback, pick a guess from what is left, and score it. A round that
      misses leaves a state from which the next round can go on, with a pool
      no larger than before, and strictly smaller after an earlier miss. */
  function Advance(pool: seq<Word>, secret: Word, select: seq<Word> -> Word,
                   wrong: seq<Placed>, forbidden: set<char>, attempts: seq<Word>): (s: Step)
    requires Ready(pool, secret, select, wrong, forbidden, attempts)
    ensures s.Stopped? ==> s.error.FilterFailed? || s.error == NoCandidate
    ensures s.Missed? ==>
      Ready(s.next, secret, select, s.feedback.wrong, forbidden + s.feedback.forbidden, attempts + [s.guess]) &&
      |s.next| <= |pool| && (attempts != [] ==> |s.next| < |pool|)
  {
    var known := SeedLetters(secret);
    assert LettersAreUpper(known);
    var filtered := PossibleWords(pool, |secret|, known, wrong, forbidden);
    if filtered.Err? then Stopped(FilterFailed(filtered.error))
    else if filtered.value == [] then Stopped(NoCandidate)
    else
      Round(pool, secret, select, wrong, forbidden, attempts);
      var guess := select(filtered.value);
      if guess == secret then Found(guess)
      else
        assert (attempts + [guess])[|attempts|] == guess;
        Missed(guess, filtered.value, Score(guess, secret))
  }

  predicate Distinct(s: seq<Word>) {
    forall k, m :: 0 <= k < m < |s| ==> s[k] != s[m]
  }

  /** The guesses a session adds from a state: distinct words of the pool,
      ending with the secret, never the guess that missed last, and no more of
      them than the pool holds (one fewer after a miss). */
  predicate GuessesFrom(guesses: seq<Word>, pool: seq<Word>, secret: Word, attempts: seq<Word>) {
    guesses != [] && guesses[|guesses| - 1] == secret && Distinct(guesses) &&
    (forall w :: w in guesses ==> w in pool) &&
    (attempts != [] ==> attempts[|attempts| - 1] !in guesses) &&
    |guesses| <= |pool| - (if attempts == [] then 0 else 1)
  }

  /** A round that finds the secret adds it as the only guess. */
  lemma GuessesSingle(next: seq<Word>, guess: Word, pool: seq<Word>, attempts: seq<Word>)
    requires Narrows(next, guess, pool, attempts)
    ensures GuessesFrom([guess], pool, guess, attempts)
  {
    assert forall w :: w in [guess] ==> w == guess;
  }

  /** The secret is found only as a word of the pool that differs from the
      guess that missed last. */
  lemma AdvanceFound(pool: seq<Word>, secret: Word, select: seq<Word> -> Word,
                     wrong: seq<Placed>, forbidden: set<char>, attempts: seq<Word>)
    requires Ready(pool, secret, select, wrong, forbidden, attempts)
    ensures var s := Advance(pool, secret, select, wrong, forbidden, attempts);
      s.Found? ==> s.guess == secret && GuessesFrom([s.guess], pool, secret, attempts)
  {
    var known := SeedLetters(secret);
    assert LettersAreUpper(known);
    var filtered := PossibleWords(pool, |secret|, known, wrong, forbidden);
    if filtered.Ok? && filtered.value != [] {
      Round(pool, secret, select, wrong, forbidden, attempts);
      var guess := select(filtered.value);
      if guess == secret {
        GuessesSingle(filtered.value, guess, pool, attempts);
      }
    }
  }

  /** A missed guess is a word of the narrowed pool. */
  lemma AdvanceMissed(pool: seq<Word>, secret: Word, select: seq<Word> -> Word,
                      wrong: seq<Placed>, forbidden: set<char>, attempts: seq<Word>)
    requires Ready(pool, secret, select, wrong, forbidden, attempts)
    ensures var s := Advance(pool, secret, select, wrong, forbidden, attempts);
      s.Missed? ==> s.guess != secret && Narrows(s.next, s.guess, pool, attempts)
  {
    var known := SeedLetters(secret);
    assert LettersAreUpper(known);
    var filtered := PossibleWords(pool, |secret|, known, wrong, forbidden);
    if filtered.Ok? && filtered.value != [] {
      Round(pool, secret, select, wrong, forbidden, attempts);
      var guess := select(filtered.value);
      if guess != secret {
        assert Advance(pool, secret, select, wrong, forbidden, attempts).next == filtered.value;
      }
    }
  }

  /** One session from a given state: play rounds until the secret is found
      or a round stops. */
  function Play(pool: seq<Word>, secret: Word, select: seq<Word> -> Word,
                wrong: seq<Placed>, forbidden: set<char>, attempts: seq<Word>): (r: Result<seq<Word>, SessionError>)
    requires Ready(pool, secret, select, wrong, forbidden, attempts)
    decreases |pool|, if attempts == [] then 1 else 0
  {
    match Advance(pool, secret, select, wrong, forbidden, attempts)
    case Stopped(e) => Err(e)
    case Found(guess) => Ok(attempts + [guess])
    case Missed(guess, next, f) => Play(next, secret, select, f.wrong, forbidden + f.forbidden, attempts + [guess])
  }

  /** A round that missed prepends its guess to the later rounds' guesses. */
  lemma GuessesCons(guesses: seq<Word>, guess: Word, next: seq<Word>, pool: seq<Word>, secret: Word, attempts: seq<Word>)
    requires GuessesFrom(guesses, next, secret, attempts + [guess])
    requires Narrows(next, guess, pool, attempts)
    ensures GuessesFrom([guess] + guesses, pool, secret, attempts)
  {
    var s := [guess] + guesses;
    forall k, m | 0 <= k < m < |s| ensures s[k] != s[m] {
      if k == 0 {
        assert s[m] == guesses[m - 1] && guesses[m - 1] in guesses;
      } else {
        assert s[k] == guesses[k - 1] && s[m] == guesses[m - 1];
      }
    }
  }

  /** The record of a session that goes on after a miss, seen from the round
      that missed. */
  lemma ExtendsAfterMiss(record: seq<Word>, guess: Word, next: seq<Word>, pool: seq<Word>, secret: Word, attempts: seq<Word>)
    requires |attempts + [guess]| < |record| && record == (attempts + [guess]) + record[|attempts + [guess]|..]
    requires GuessesFrom(record[|attempts + [guess]|..], next, secret, attempts + [guess])
    requires Narrows(next, guess, pool, attempts)
    ensures |attempts| < |record| && record == attempts + record[|attempts|..]
    ensures GuessesFrom(record[|attempts|..], pool, secret, attempts)
  {
    var later := record[|attempts| + 1..];
    assert record == attempts + ([guess] + later);
    assert record[|attempts|..] == [guess] + later;
    GuessesCons(later, guess, next, pool, secret, attempts);
  }

  /** A finished session keeps the attempts so far and adds guesses as
      `GuessesFrom` describes. */
  lemma {:induction false} PlayGuesses(pool: seq<Word>, secret: Word, select: seq<Word> -> Word,
                                       wrong: seq<Placed>, forbidden: set<char>, attempts: seq<Word>)
    requires Ready(pool, secret, select, wrong, forbidden, attempts)
    ensures var r := Play(pool, secret, select, wrong, forbidden, attempts);
      r.Ok? ==> |attempts| < |r.value| && r.value == attempts + r.value[|attempts|..] &&
                GuessesFrom(r.value[|attempts|..], pool, secret, attempts)
    decreases |pool|, if attempts == [] then 1 else 0
  {
    AdvanceFound(pool, secret, select, wrong, forbidden, attempts);
    AdvanceMissed(pool, secret, select, wrong, forbidden, attempts);
    match Advance(pool, secret, select, wrong, forbidden, attempts)
    case Stopped(_) =>
    case Found(guess) =>
      assert (attempts + [guess])[|attempts|..] == [guess];
    case Missed(guess, next, f) =>
      PlayGuesses(next, secret, select, f.wrong, forbidden + f.forbidden, attempts + [guess]);
      var r := Play(next, secret, select, f.wrong, forbidden + f.forbidden, attempts + [guess]);
      if r.Ok? {
        ExtendsAfterMiss(r.value, guess, next, pool, secret, attempts);
      }
  }

  /** A session under way stops only because the filter raised or the pool
      ran empty. */
  lemma {:induction false} PlayStops(pool: seq<Word>, secret: Word, select: seq<Word> -> Word,
                                     wrong: seq<Placed>, forbidden: set<char>, attempts: seq<Word>)
    requires Ready(pool, secret, select, wrong, forbidden, attempts)
    ensures var r := Play(pool, secret, select, wrong, forbidden, attempts);
      r.Err? ==> r.error.FilterFailed? || r.error == NoCandidate
    decreases |pool|, if attempts == [] then 1 else 0
  {
    match Advance(pool, secret, select, wrong, forbidden, attempts)
    case Stopped(e) =>
      assert Play(pool, secret, select, wrong, forbidden, attempts) == Err(e);
    case Found(_) =>
    case Missed(guess, next, f) =>
      PlayStops(next, secret, select, f.wrong, forbidden + f.forbidden, attempts + [guess]);
      assert Play(pool, secret, select, wrong, forbidden, attempts) ==
             Play(next, secret, select, f.wrong, forbidden + f.forbidden, attempts + [guess]);
  }

  /** A finished session's guesses: distinct dictionary words, no more of them
      than the dictionary holds, the last one the secret. */
  predicate Record(guesses: seq<Word>, dict: seq<Word>, secret: Word) {
    1 <= |guesses| <= |dict| && guesses[|guesses| - 1] == secret && secret in dict &&
    (forall k :: 0 <= k < |guesses| ==> guesses[k] in dict) && Distinct(guesses)
  }

  /** The guesses of a session that started with no attempts form a record. */
  lemma GuessesRecord(guesses: seq<Word>, dict: seq<Word>, secret: Word)
    requires GuessesFrom(guesses[0..], dict, secret, [])
    ensures Record(guesses, dict, secret)
  {
    assert guesses[0..] == guesses;
    assert guesses[|guesses| - 1] in guesses;
  }

  /** A whole session: the dictionary is the first pool, the seed letter is the
      secret's first letter, and nothing is misplaced or forbidden yet. */
  function Session(dict: seq<Word>, secret: Word, select: seq<Word> -> Word): (r: Result<seq<Word>, SessionError>)
    requires IsWord(secret) && AllWords(dict) && Picks(select)
  {
    if |secret| == 0 then Err(EmptySecret)
    else Play(dict, secret, select, [], {}, [])
  }

  /** A session ends on the secret after distinct dictionary words, at most as
      many as the dictionary holds; it fails only as `EmptySecret` when the
      secret is empty. */
  lemma SessionGuesses(dict: seq<Word>, secret: Word, select: seq<Word> -> Word)
    requires IsWord(secret) && AllWords(dict) && Picks(select)
    ensures var r := Session(dict, secret, select);
      (r == Err(EmptySecret) <==> secret == []) && (r.Ok? ==> Record(r.value, dict, secret))
  {
    if |secret| >= 1 {
      PlayGuesses(dict, secret, select, [], {}, []);
      PlayStops(dict, secret, select, [], {}, []);
      var r := Play(dict, secret, select, [], {}, []);
      if r.Ok? {
        GuessesRecord(r.value, dict, secret);
      }
    }
  }

  /** The session loop: the pool is narrowed in place round after round, the
      misplaced letters are replaced by the latest feedback and the forbidden
      letters accumulate. */
  method RunSutom(dict: seq<Word>, secret: Word, select: seq<Word> -> Word)
    returns (r: Result<seq<Word>, SessionError>)
    requires IsWord(secret) && AllWords(dict) && Picks(select)
    ensures r == Session(dict, secret, select)
  {
    if |secret| == 0 {
      return Err(EmptySecret);
    }
    var possible := dict;
    var known := [Placed(secret[0], 1)];
    var wrong: seq<Placed> := [];
    var forbidden: set<char> := {};
    var attempts: seq<Word> := [];
    while true
      invariant Ready(possible, secret, select, wrong, forbidden, attempts)
      invariant Play(possible, secret, select, wrong, forbidden, attempts) == Session(dict, secret, select)
      decreases |possible|, if attempts == [] then 1 else 0
    {
      if attempts != [] {
        DropOut(possible, secret, wrong, forbidden, attempts[|attempts| - 1]);
      }
      var filtered := GetPossibleWords(possible, |secret|, known, wrong, forbidden);
      if filtered.Err? {
        return Err(FilterFailed(filtered.error));
      }
      PossibleWordsKeeps(possible, |secret|, known, wrong, forbidden);
      SubseqMembers(filtered.value, possible);
      if filtered.value == [] {
        return Err(NoCandidate);
      }
      ghost var pool, previous := possible, attempts;
      possible := filtered.value;
      var best := select(possible);
      assert Survives(best, |secret|, known, wrong, forbidden) && HasLetterAt(best, secret[0], 1);
      FeedbackLetters(best, secret);
      attempts := attempts + [best];
      var correct := GetCorrectLetters(best, secret);
      CorrectWithin(best, secret);
      var newForbidden;
      wrong, newForbidden := GetWrongPlaceAndForbiddenLetters(best, secret, correct);
      forbidden := forbidden + newForbidden;
      if best == secret {
        break;
      }
    }
    r := Ok(attempts);
  }
  /** The session lengths of a challenge, from its sessions' outcomes in
      order: the first session that stops ends the challenge with its error. */
  function Tally(outcomes: seq<Result<seq<Word>, SessionError>>): (r: Result<seq<nat>, SessionError>)
    decreases |outcomes|
  {
    if outcomes == [] then Ok([])
    else
      match Tally(outcomes[..|outcomes| - 1])
      case Err(e) => Err(e)
      case Ok(counts) =>
        match outcomes[|outcomes| - 1]
        case Err(e) => Err(e)
        case Ok(attempts) => Ok(counts + [|attempts|])
  }

  /** A tally succeeds exactly when every session does, and then lists each
      session's number of attempts; otherwise it reports the error of the
      first session that stopped. */
  lemma {:induction false} TallyCounts(outcomes: seq<Result<seq<Word>, SessionError>>)
    ensures var r := Tally(outcomes);
      (r.Ok? <==> forall i :: 0 <= i < |outcomes| ==> outcomes[i].Ok?) &&
      (r.Ok? ==> |r.value| == |outcomes| &&
                 forall i :: 0 <= i < |outcomes| ==> r.value[i] == |outcomes[i].value|) &&
      (r.Err? ==> exists i :: 0 <= i < |outcomes| && outcomes[i] == Err(r.error) &&
                              forall j :: 0 <= j < i ==> outcomes[j].Ok?)
    decreases |outcomes|
  {
    if outcomes != [] {
      var n := |outcomes| - 1;
      var init := outcomes[..n];
      TallyCounts(init);
      assert forall i :: 0 <= i < n ==> init[i] == outcomes[i];
      var prev := Tally(init);
      if prev.Err? {
        var i :| 0 <= i < n && init[i] == Err(prev.error) && forall j :: 0 <= j < i ==> init[j].Ok?;
        assert outcomes[i] == Err(prev.error);
      }
    }
  }

  /** One session per secret, each against the whole dictionary; the result
      lists the number of attempts of each session. */
  function RunChallenge(dict: seq<Word>, secrets: seq<Word>, select: seq<Word> -> Word): (r: Result<seq<nat>, SessionError>)
    requires AllWords(dict) && Picks(select) && forall w :: w in secrets ==> IsWord(w)
  {
    Tally(seq(|secrets|, i requires 0 <= i < |secrets| => Session(dict, secrets[i], select)))
  }

  /** A challenge succeeds exactly when every session does; each count is
      the length of that session, between 1 and the dictionary size. A
      challenge that fails reports the first session that stopped. */
  lemma ChallengeCounts(dict: seq<Word>, secrets: seq<Word>, select: seq<Word> -> Word)
    requires AllWords(dict) && Picks(select) && forall w :: w in secrets ==> IsWord(w)
    ensures var r := RunChallenge(dict, secrets, select);
      (r.Ok? <==> forall i :: 0 <= i < |secrets| ==> Session(dict, secrets[i], select).Ok?) &&
      (r.Ok? ==> |r.value| == |secrets| &&
                 forall i :: 0 <= i < |secrets| ==>
                   r.value[i] == |Session(dict, secrets[i], select).value| && 1 <= r.value[i] <= |dict|) &&
      (r.Err? ==> exists i :: 0 <= i < |secrets| && Session(dict, secrets[i], select) == Err(r.error) &&
                              forall j :: 0 <= j < i ==> Session(dict, secrets[j], select).Ok?)
  {
    var outcomes := seq(|secrets|, i requires 0 <= i < |secrets| => Session(dict, secrets[i], select));
    TallyCounts(outcomes);
    forall i | 0 <= i < |secrets|
      ensures outcomes[i] == Session(dict, secrets[i], select)
      ensures outcomes[i].Ok? ==> 1 <= |outcomes[i].value| <= |dict|
    {
      assert secrets[i] in secrets;
      SessionGuesses(dict, secrets[i], select);
    }
  }
}
