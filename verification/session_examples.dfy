/** A whole session that fails although its secret is in the dictionary. */
module SessionExamples {
  import opened Words
  import opened Filter
  import opened Scoring
  import opened Sutom
  import opened FilterExamples
  import opened FeedbackExamples

  /** The simplest ranking: the first candidate. */
  function First(pool: seq<Word>): Word {
    if pool == [] then "" else pool[0]
  }

  lemma FirstPicks()
    ensures Picks(First)
  {
  }

  lemma TasseWord()
    ensures TDict[0] == "TASSE" && IsWord(TDict[0])
  {
    var w := TDict[0];
    assert w[0] == 'T' && w[1] == 'A' && w[2] == 'S' && w[3] == 'S' && w[4] == 'E';
    assert IsLetter(w[0]) && IsLetter(w[1]) && IsLetter(w[2]) && IsLetter(w[3]) && IsLetter(w[4]);
  }

  lemma TasteWord()
    ensures TDict[1] == "TASTE" && IsWord(TDict[1])
  {
    var w := TDict[1];
    assert w[0] == 'T' && w[1] == 'A' && w[2] == 'S' && w[3] == 'T' && w[4] == 'E';
    assert IsLetter(w[0]) && IsLetter(w[1]) && IsLetter(w[2]) && IsLetter(w[3]) && IsLetter(w[4]);
  }

  lemma TDictWords()
    ensures TDict[0] == "TASSE" && TDict[1] == "TASTE"
    ensures AllWords(TDict) && IsWord(TDict[1])
  {
    TasseWord();
    TasteWord();
    forall w | w in TDict ensures IsWord(w) {
      assert w == TDict[0] || w == TDict[1];
    }
  }

  /** One unfolding of a session from a state that can go on: a miss hands
      over to the next round, a stop ends the session with its error. */
  lemma PlayStep(pool: seq<Word>, secret: Word, select: seq<Word> -> Word,
                 wrong: seq<Placed>, forbidden: set<char>, attempts: seq<Word>)
    ensures Ready(pool, secret, select, wrong, forbidden, attempts) ==>
      var s := Advance(pool, secret, select, wrong, forbidden, attempts);
      (s.Missed? ==> Play(pool, secret, select, wrong, forbidden, attempts) ==
                     Play(s.next, secret, select, s.feedback.wrong, forbidden + s.feedback.forbidden, attempts + [s.guess])) &&
      (s.Stopped? ==> Play(pool, secret, select, wrong, forbidden, attempts) == Err(s.error))
  {
  }

  /** A session whose first guess misses with nothing misplaced and whose
      second filter leaves nothing: it stops with no candidate. */
  lemma OneMissThenNoCandidate(dict: seq<Word>, secret: Word, select: seq<Word> -> Word)
    requires IsWord(secret) && |secret| >= 1 && AllWords(dict) && Picks(select)
    requires dict != [] && |select(dict)| == |secret| && select(dict) != secret
    requires PossibleWords(dict, |secret|, SeedLetters(secret), [], {}) == Ok(dict)
    requires Score(select(dict), secret).wrong == []
    requires PossibleWords(dict, |secret|, SeedLetters(secret), [], Score(select(dict), secret).forbidden) == Ok([])
    ensures Session(dict, secret, select) == Err(NoCandidate)
  {
    var g, f := select(dict), Score(select(dict), secret);
    assert {} + f.forbidden == f.forbidden && [] + [g] == [g];
    PlayStep(dict, secret, select, [], {}, []);
    PlayStep(dict, secret, select, f.wrong, {} + f.forbidden, [] + [g]);
  }

  /** With TASSE and TASTE as the dictionary and TASTE as the secret, the
      session stops with no candidate after one guess, although the secret is
      in the dictionary. */
  lemma TasteSession()
    ensures TDict[1] in TDict && IsWord(TDict[1]) && AllWords(TDict) && Picks(First)
    ensures Session(TDict, TDict[1], First) == Err(NoCandidate)
  {
    FirstPicks();
    TDictWords();
    assert SeedLetters(TDict[1]) == [Placed('T', 1)];
    TasteFirstRound();
    TasseForbidden();
    TasteSecondRound();
    OneMissThenNoCandidate(TDict, TDict[1], First);
  }
}
