/** Whole filter runs: filtering a filtered pool again, the misplaced and
    forbidden cases of the solver's test suite on its eight-letter Z slice, a
    secret that its own feedback excludes, two misplaced constraints
    claiming one occurrence (and rejected once both sides of the position
    comparison are 1-based), and a constraint that lets a word back in. */
module FilterExamples {
  import opened Words
  import opened Seqs
  import opened Filter

  // ---------------------------------------------------------------------------
  // Steps of the filter, for any input

  /** Words that all carry the known letter pass its filter whole. */
  lemma KnownLetterKeepsAll(words: seq<Word>, letter: char, pos: Position)
    requires forall w :: w in words ==> HasLetterAt(w, letter, pos)
    ensures KeepWordsWithKnownLetter(words, letter, pos) == Ok(words)
  {
    FilterKeepsAll(words, (w: Word) => HasLetterAt(w, letter, pos));
  }

  /** Words that carry every known letter pass the known-letter stage whole. */
  lemma KnownLettersKeepAll(words: seq<Word>, known: seq<Placed>)
    requires forall w, e :: w in words && e in known ==> HasLetterAt(w, e.letter, e.pos)
    ensures KeepWordsWithKnownLetters(words, known) == Ok(words)
  {
    KnownLettersRaise(words, known);
    FilterKeepsAll(words, (w: Word) => HasKnownLetters(w, known));
  }

  /** The filter reduced to its last stage once the first two are known. */
  lemma PossibleWordsFromStages(words: seq<Word>, wordLen: int, known: seq<Placed>, wrong: seq<Placed>,
                                forbidden: set<char>, pool: seq<Word>)
    requires LettersAreUpper(known) && LettersAreUpper(wrong)
    requires KeepWordsWithLen(words, wordLen) == Ok(words)
    requires KeepWordsWithKnownLetters(words, known) == Ok(pool) && pool != []
    ensures PossibleWords(words, wordLen, known, wrong, forbidden) ==
      KeepPossibleWords(pool, KnownLedger(known), wrong, forbidden)
  {
  }

  /** Appending a claimed position to one letter's list adds it to the taken
      positions. */
  lemma TakenAppend(ledger: Ledger, letter: char, pos: int)
    requires letter in ledger
    ensures Taken(ledger[letter := ledger[letter] + [pos]]) == Taken(ledger) + {pos}
  {
    var updated := ledger[letter := ledger[letter] + [pos]];
    assert pos in updated[letter];
    forall q | q in Taken(ledger) ensures q in Taken(updated) {
      var d: char :| d in ledger && q in ledger[d];
      assert q in updated[d];
    }
  }

  /** The verdict on a single misplaced constraint: rejected when it resolves
      to 0, and otherwise decided by the forbidden letters left outside the
      seeded positions and the resolved one. */
  lemma WordPossibleOne(word: Word, ledger: Ledger, e: Placed, forbidden: set<char>)
    requires e.letter in ledger
    ensures var position := PossiblePosition(word, ledger, e.letter, e.pos);
      WordPossible(word, ledger, [e], forbidden) ==
        if position.Err? then Err(position.error)
        else if position.value == 0 then Ok(false)
        else Ok(forall f :: f in forbidden ==> f !in Remaining(word, Taken(ledger) + {position.value}))
  {
    var position := PossiblePosition(word, ledger, e.letter, e.pos);
    assert [e][1..] == [];
    if position.Ok? && position.value > 0 {
      var claimed := ledger[e.letter := ledger[e.letter] + [position.value]];
      assert Claim(word, ledger, [e]) == Claim(word, claimed, []);
      TakenAppend(ledger, e.letter, position.value);
    }
  }

  /** A misplaced letter the word does not hold rejects it. */
  lemma AbsentRejected(word: Word, ledger: Ledger, e: Placed, forbidden: set<char>)
    requires e.letter in ledger && e.pos <= |word|
    requires forall i :: 0 <= i < |word| ==> word[i] != e.letter
    ensures WordPossible(word, ledger, [e], forbidden) == Ok(false)
  {
    WordPossibleOne(word, ledger, e, forbidden);
  }

  /** The words whose flag is set, in order. */
  function Select(words: seq<Word>, keep: seq<bool>): seq<Word>
    requires |keep| == |words|
  {
    if words == [] then []
    else Select(words[..|words| - 1], keep[..|keep| - 1]) + (if keep[|keep| - 1] then [words[|words| - 1]] else [])
  }

  /** With every verdict known, the misplaced and forbidden stage selects the
      accepted words. */
  lemma {:induction false} KeepPossibleSelect(words: seq<Word>, l: Ledger, wrong: seq<Placed>, forbidden: set<char>,
                                              keep: seq<bool>)
    requires forall e :: e in wrong ==> e.letter in l
    requires |keep| == |words|
    requires forall k :: 0 <= k < |words| ==> WordPossible(words[k], l, wrong, forbidden) == Ok(keep[k])
    ensures KeepPossibleWords(words, l, wrong, forbidden) == Ok(Select(words, keep))
    decreases |words|
  {
    if words != [] {
      var n := |words| - 1;
      var pre, flags := words[..n], keep[..n];
      forall k | 0 <= k < n ensures WordPossible(pre[k], l, wrong, forbidden) == Ok(flags[k]) {
        assert pre[k] == words[k] && flags[k] == keep[k];
      }
      KeepPossibleSelect(pre, l, wrong, forbidden, flags);
      assert WordPossible(words[n], l, wrong, forbidden) == Ok(keep[n]);
      var kept := Select(pre, flags);
      if keep[n] {
        assert Select(words, keep) == kept + [words[n]];
      } else {
        assert Select(words, keep) == kept + [];
        assert kept + [] == kept;
      }
    }
  }

  /** With nothing misplaced and nothing forbidden, the last stage keeps
      every word. */
  lemma NothingToCheck(words: seq<Word>, l: Ledger)
    ensures KeepPossibleWords(words, l, [], {}) == Ok(words)
  {
    assert forall w :: w in words ==> WordPossible(w, l, [], {}) == Ok(true);
    FilterKeepsAll(words, w => WordPossible(w, l, [], {}) == Ok(true));
  }

  /** Filtering a filtered pool again with the same constraints gives the
      same pool, unless the first filter left nothing: the length stage then
      raises. */
  lemma PossibleWordsIdempotent(words: seq<Word>, wordLen: int, known: seq<Placed>, wrong: seq<Placed>,
                                forbidden: set<char>)
    requires LettersAreUpper(known) && LettersAreUpper(wrong)
    ensures var r := PossibleWords(words, wordLen, known, wrong, forbidden);
      r.Ok? ==>
        PossibleWords(r.value, wordLen, known, wrong, forbidden) ==
          if r.value == [] then Err(NoWordOfLength(wordLen)) else r
  {
    var r := PossibleWords(words, wordLen, known, wrong, forbidden);
    if r.Ok? && r.value != [] {
      PossibleWordsKeeps(words, wordLen, known, wrong, forbidden);
      RefilterSurvivors(r.value, wordLen, known, wrong, forbidden);
    }
  }

  /** A non-empty pool of surviving words passes the filter whole. */
  lemma RefilterSurvivors(pool: seq<Word>, wordLen: int, known: seq<Placed>, wrong: seq<Placed>,
                          forbidden: set<char>)
    requires LettersAreUpper(known) && LettersAreUpper(wrong)
    requires pool != [] && forall w :: w in pool ==> Survives(w, wordLen, known, wrong, forbidden)
    ensures PossibleWords(pool, wordLen, known, wrong, forbidden) == Ok(pool)
  {
    var ledger := KnownLedger(known);
    SurvivorsPassStages(pool, wordLen, known);
    SurvivorsAccepted(pool, ledger, wrong, forbidden);
    PossibleWordsFromStages(pool, wordLen, known, wrong, forbidden, pool);
  }

  /** Words of the length with every known letter pass the first two stages whole. */
  lemma SurvivorsPassStages(pool: seq<Word>, wordLen: int, known: seq<Placed>)
    requires pool != [] && forall w :: w in pool ==> |w| == wordLen && HasKnownLetters(w, known)
    ensures KeepWordsWithLen(pool, wordLen) == Ok(pool)
    ensures KeepWordsWithKnownLetters(pool, known) == Ok(pool)
  {
    FilterKeepsAll(pool, (w: Word) => |w| == wordLen);
    KnownLettersKeepAll(pool, known);
  }

  /** Words the verdict accepts pass the last stage whole. */
  lemma SurvivorsAccepted(pool: seq<Word>, ledger: Ledger, wrong: seq<Placed>, forbidden: set<char>)
    requires forall e :: e in wrong ==> e.letter in ledger
    requires forall w :: w in pool ==> WordPossible(w, ledger, wrong, forbidden) == Ok(true)
    ensures KeepPossibleWords(pool, ledger, wrong, forbidden) == Ok(pool)
  {
    FilterKeepsAll(pool, (w: Word) => WordPossible(w, ledger, wrong, forbidden) == Ok(true));
  }

  /** When the last stage rejects every word, nothing is left. */
  lemma AllRejected(words: seq<Word>, l: Ledger, wrong: seq<Placed>, forbidden: set<char>)
    requires forall e :: e in wrong ==> e.letter in l
    requires forall w :: w in words ==> WordPossible(w, l, wrong, forbidden) == Ok(false)
    ensures KeepPossibleWords(words, l, wrong, forbidden) == Ok([])
  {
    var r := KeepPossibleWords(words, l, wrong, forbidden);
    assert r.Ok?;
    HeadIn(r.value);
  }

  /** A non-empty sequence holds its first element. */
  lemma HeadIn<T>(s: seq<T>)
    ensures s == [] || s[0] in s
  {
  }

  /** The seeded ledger takes exactly the known positions. */
  lemma SeededTaken(known: seq<Placed>)
    requires LettersAreUpper(known)
    ensures Taken(KnownLedger(known)) == set e | e in known :: e.pos
  {
    var l := KnownLedger(known);
    forall e | e in known ensures e.pos in Taken(l) {
      assert e.pos in l[e.letter];
    }
  }

  /** A letter no known constraint names has an empty list. */
  lemma SeededUnnamed(known: seq<Placed>, c: char)
    requires LettersAreUpper(known) && IsLetter(c)
    requires forall e :: e in known ==> e.letter != c
    ensures c in KnownLedger(known) && KnownLedger(known)[c] == []
  {
    HeadIn(KnownLedger(known)[c]);
  }

  // ---------------------------------------------------------------------------
  // The eight-letter Z slice, with Z and A known at positions 1 and 2

  const ZWords: seq<Word> := ["ZAIBATSU", "ZAIROISE", "ZAKOUSKI", "ZANZIBAR", "ZAPPETTE", "ZAPPEUSE", "ZARZUELA"]
  const ZKnown: seq<Placed> := [Placed('Z', 1), Placed('A', 2)]

  lemma ZShape()
    ensures forall w :: w in ZWords ==> |w| == 8 && w[0] == 'Z' && w[1] == 'A'
  {
    forall w | w in ZWords ensures |w| == 8 && w[0] == 'Z' && w[1] == 'A' {
      var k :| 0 <= k < |ZWords| && ZWords[k] == w;
    }
  }

  lemma ZLength()
    ensures KeepWordsWithLen(ZWords, 8) == Ok(ZWords)
  {
    ZShape();
    FilterKeepsAll(ZWords, (w: Word) => |w| == 8);
  }

  lemma ZKnownStage()
    ensures KeepWordsWithKnownLetters(ZWords, ZKnown) == Ok(ZWords)
  {
    ZShape();
    KnownLettersKeepAll(ZWords, ZKnown);
  }

  /** The ledger the known letters seed, as far as the examples need it. */
  predicate ZLedger(l: Ledger) {
    'I' in l && l['I'] == [] && Taken(l) == {1, 2}
  }

  lemma ZKnownPositions()
    ensures (set e | e in ZKnown :: e.pos) == {1, 2}
  {
    assert forall e :: e in ZKnown ==> e.pos == 1 || e.pos == 2;
    assert ZKnown[0] in ZKnown && ZKnown[1] in ZKnown;
  }

  lemma ZLedgerFacts()
    ensures ZLedger(KnownLedger(ZKnown))
  {
    assert IsLetter('Z') && IsLetter('A') && IsLetter('I');
    SeededTaken(ZKnown);
    ZKnownPositions();
    SeededUnnamed(ZKnown, 'I');
  }

  /** The last three words hold no I. */
  lemma ZWithoutI()
    ensures forall k, i :: 4 <= k < 7 && 0 <= i < |ZWords[k]| ==> ZWords[k][i] != 'I'
  {
  }

  lemma ZNames()
    ensures ZWords[0] == "ZAIBATSU" && ZWords[2] == "ZAKOUSKI" && ZWords[3] == "ZANZIBAR"
  {
  }

  // A misplaced I at position 3.

  lemma Zaibatsu(l: Ledger)
    requires ZLedger(l)
    ensures WordPossible(ZWords[0], l, [Placed('I', 3)], {}) == Ok(false)
  {
    WordPossibleOne(ZWords[0], l, Placed('I', 3), {});
  }

  lemma Zairoise(l: Ledger)
    requires ZLedger(l)
    ensures WordPossible(ZWords[1], l, [Placed('I', 3)], {}) == Ok(false)
  {
    WordPossibleOne(ZWords[1], l, Placed('I', 3), {});
  }

  lemma Zakouski(l: Ledger)
    requires ZLedger(l)
    ensures WordPossible(ZWords[2], l, [Placed('I', 3)], {}) == Ok(true)
  {
    WordPossibleOne(ZWords[2], l, Placed('I', 3), {});
    assert LastUnclaimed(ZWords[2], [], 'I', 8) == 7;
  }

  lemma Zanzibar(l: Ledger)
    requires ZLedger(l)
    ensures WordPossible(ZWords[3], l, [Placed('I', 3)], {}) == Ok(true)
  {
    WordPossibleOne(ZWords[3], l, Placed('I', 3), {});
    assert LastUnclaimed(ZWords[3], [], 'I', 8) == 4;
  }

  lemma ZVerdictsLow(l: Ledger)
    requires ZLedger(l)
    ensures WordPossible(ZWords[0], l, [Placed('I', 3)], {}) == Ok(false)
    ensures WordPossible(ZWords[1], l, [Placed('I', 3)], {}) == Ok(false)
    ensures WordPossible(ZWords[2], l, [Placed('I', 3)], {}) == Ok(true)
    ensures WordPossible(ZWords[3], l, [Placed('I', 3)], {}) == Ok(true)
  {
    Zaibatsu(l);
    Zairoise(l);
    Zakouski(l);
    Zanzibar(l);
  }

  lemma ZVerdictsHigh(l: Ledger)
    requires ZLedger(l)
    ensures WordPossible(ZWords[4], l, [Placed('I', 3)], {}) == Ok(false)
    ensures WordPossible(ZWords[5], l, [Placed('I', 3)], {}) == Ok(false)
    ensures WordPossible(ZWords[6], l, [Placed('I', 3)], {}) == Ok(false)
  {
    ZWithoutI();
    AbsentRejected(ZWords[4], l, Placed('I', 3), {});
    AbsentRejected(ZWords[5], l, Placed('I', 3), {});
    AbsentRejected(ZWords[6], l, Placed('I', 3), {});
  }

  lemma ZSelect()
    ensures Select(ZWords, [false, false, true, true, false, false, false]) == [ZWords[2], ZWords[3]]
  {
    var w, keep := ZWords, [false, false, true, true, false, false, false];
    assert Select(w[..1], keep[..1]) == [];
    assert w[..2][..1] == w[..1] && keep[..2][..1] == keep[..1];
    assert Select(w[..2], keep[..2]) == [];
    assert w[..3][..2] == w[..2] && keep[..3][..2] == keep[..2];
    assert Select(w[..3], keep[..3]) == [w[2]];
    assert w[..4][..3] == w[..3] && keep[..4][..3] == keep[..3];
    assert Select(w[..4], keep[..4]) == [w[2], w[3]];
    assert w[..5][..4] == w[..4] && keep[..5][..4] == keep[..4];
    assert Select(w[..5], keep[..5]) == [w[2], w[3]];
    assert w[..6][..5] == w[..5] && keep[..6][..5] == keep[..5];
    assert Select(w[..6], keep[..6]) == [w[2], w[3]];
    assert w[..7] == w && keep[..7] == keep;
    assert w[..7][..6] == w[..6] && keep[..7][..6] == keep[..6];
  }

  lemma ZKeep(l: Ledger)
    requires ZLedger(l)
    ensures KeepPossibleWords(ZWords, l, [Placed('I', 3)], {}) == Ok([ZWords[2], ZWords[3]])
  {
    ZVerdictsLow(l);
    ZVerdictsHigh(l);
    var keep := [false, false, true, true, false, false, false];
    forall k | 0 <= k < |ZWords| ensures WordPossible(ZWords[k], l, [Placed('I', 3)], {}) == Ok(keep[k]) {
      assert k == 0 || k == 1 || k == 2 || k == 3 || k == 4 || k == 5 || k == 6;
    }
    KeepPossibleSelect(ZWords, l, [Placed('I', 3)], {}, keep);
    ZSelect();
  }

  /** A misplaced I at position 3 rules out the words with an I there and the
      words without an I: ZAKOUSKI and ZANZIBAR remain. */
  lemma ZWordsMisplaced()
    ensures PossibleWords(ZWords, 8, ZKnown, [Placed('I', 3)], {}) == Ok([ZWords[2], ZWords[3]])
    ensures ZWords[2] == "ZAKOUSKI" && ZWords[3] == "ZANZIBAR"
  {
    ZLength();
    ZKnownStage();
    assert IsLetter('Z') && IsLetter('A') && IsLetter('I');
    PossibleWordsFromStages(ZWords, 8, ZKnown, [Placed('I', 3)], {}, ZWords);
    ZLedgerFacts();
    ZKeep(KnownLedger(ZKnown));
    ZNames();
  }

  // A misplaced I at position 5, with I forbidden.

  lemma Zaibatsu5(l: Ledger)
    requires ZLedger(l)
    ensures WordPossible(ZWords[0], l, [Placed('I', 5)], {'I'}) == Ok(true)
  {
    var w0 := ZWords[0];
    WordPossibleOne(w0, l, Placed('I', 5), {'I'});
    assert LastUnclaimed(w0, [], 'I', 8) == 2;
    assert forall i :: 0 <= i < 8 && w0[i] == 'I' ==> i == 2;
  }

  lemma Zairoise5(l: Ledger)
    requires ZLedger(l)
    ensures WordPossible(ZWords[1], l, [Placed('I', 5)], {'I'}) == Ok(false)
  {
    var w1 := ZWords[1];
    WordPossibleOne(w1, l, Placed('I', 5), {'I'});
    assert LastUnclaimed(w1, [], 'I', 8) == 5;
    assert w1[2] == 'I';
  }

  lemma ZVerdictsI5Mid(l: Ledger)
    requires ZLedger(l)
    ensures WordPossible(ZWords[2], l, [Placed('I', 5)], {'I'}) == Ok(true)
    ensures WordPossible(ZWords[3], l, [Placed('I', 5)], {'I'}) == Ok(false)
  {
    var w2 := ZWords[2];
    WordPossibleOne(w2, l, Placed('I', 5), {'I'});
    assert LastUnclaimed(w2, [], 'I', 8) == 7;
    assert forall i :: 0 <= i < 8 && w2[i] == 'I' ==> i == 7;
  }

  lemma ZVerdictsI5High(l: Ledger)
    requires ZLedger(l)
    ensures WordPossible(ZWords[4], l, [Placed('I', 5)], {'I'}) == Ok(false)
    ensures WordPossible(ZWords[5], l, [Placed('I', 5)], {'I'}) == Ok(false)
    ensures WordPossible(ZWords[6], l, [Placed('I', 5)], {'I'}) == Ok(false)
  {
    ZWithoutI();
    AbsentRejected(ZWords[4], l, Placed('I', 5), {'I'});
    AbsentRejected(ZWords[5], l, Placed('I', 5), {'I'});
    AbsentRejected(ZWords[6], l, Placed('I', 5), {'I'});
  }

  lemma ZSelectI5()
    ensures Select(ZWords, [true, false, true, false, false, false, false]) == [ZWords[0], ZWords[2]]
  {
    var w, keep := ZWords, [true, false, true, false, false, false, false];
    assert Select(w[..1], keep[..1]) == [w[0]];
    assert w[..2][..1] == w[..1] && keep[..2][..1] == keep[..1];
    assert Select(w[..2], keep[..2]) == [w[0]];
    assert w[..3][..2] == w[..2] && keep[..3][..2] == keep[..2];
    assert Select(w[..3], keep[..3]) == [w[0], w[2]];
    assert w[..4][..3] == w[..3] && keep[..4][..3] == keep[..3];
    assert Select(w[..4], keep[..4]) == [w[0], w[2]];
    assert w[..5][..4] == w[..4] && keep[..5][..4] == keep[..4];
    assert Select(w[..5], keep[..5]) == [w[0], w[2]];
    assert w[..6][..5] == w[..5] && keep[..6][..5] == keep[..5];
    assert Select(w[..6], keep[..6]) == [w[0], w[2]];
    assert w[..7] == w && keep[..7] == keep;
    assert w[..7][..6] == w[..6] && keep[..7][..6] == keep[..6];
  }

  lemma ZKeepI5(l: Ledger)
    requires ZLedger(l)
    ensures KeepPossibleWords(ZWords, l, [Placed('I', 5)], {'I'}) == Ok([ZWords[0], ZWords[2]])
  {
    Zaibatsu5(l);
    Zairoise5(l);
    ZVerdictsI5Mid(l);
    ZVerdictsI5High(l);
    var keep := [true, false, true, false, false, false, false];
    forall k | 0 <= k < |ZWords| ensures WordPossible(ZWords[k], l, [Placed('I', 5)], {'I'}) == Ok(keep[k]) {
      assert k == 0 || k == 1 || k == 2 || k == 3 || k == 4 || k == 5 || k == 6;
    }
    KeepPossibleSelect(ZWords, l, [Placed('I', 5)], {'I'}, keep);
    ZSelectI5();
  }

  /** A misplaced I at position 5 with I forbidden: ZANZIBAR has its I at 5,
      and ZAIROISE keeps a second I that nothing claims. ZAIBATSU and ZAKOUSKI
      remain. */
  lemma ZWordsMisplacedAndForbidden()
    ensures PossibleWords(ZWords, 8, ZKnown, [Placed('I', 5)], {'I'}) == Ok([ZWords[0], ZWords[2]])
    ensures ZWords[0] == "ZAIBATSU" && ZWords[2] == "ZAKOUSKI"
  {
    ZLength();
    ZKnownStage();
    assert IsLetter('Z') && IsLetter('A') && IsLetter('I');
    PossibleWordsFromStages(ZWords, 8, ZKnown, [Placed('I', 5)], {'I'}, ZWords);
    ZLedgerFacts();
    ZKeepI5(KnownLedger(ZKnown));
    ZNames();
  }

  // ---------------------------------------------------------------------------
  // TASTE, excluded by the feedback TASSE earns against it

  const TDict: seq<Word> := ["TASSE", "TASTE"]

  lemma TasteLedger()
    ensures 'S' in KnownLedger([Placed('T', 1)])
    ensures Taken(KnownLedger([Placed('T', 1)])) == {1}
  {
    var l := KnownLedger([Placed('T', 1)]);
    assert IsLetter('T') && IsLetter('S');
    assert 1 in l['T'];
    forall p | p in Taken(l) ensures p == 1 {
      var c :| c in l && p in l[c];
    }
  }

  lemma TasteStages()
    ensures KeepWordsWithLen(TDict, 5) == Ok(TDict)
    ensures KeepWordsWithKnownLetters(TDict, [Placed('T', 1)]) == Ok(TDict)
  {
    FilterKeepsAll(TDict, (w: Word) => |w| == 5);
    KnownLetterKeepsAll(TDict, 'T', 1);
    assert [Placed('T', 1)][..0] == [];
  }

  /** The first round keeps both words: only T is known. */
  lemma TasteFirstRound()
    ensures PossibleWords(TDict, 5, [Placed('T', 1)], [], {}) == Ok(TDict)
  {
    TasteStages();
    PossibleWordsFromStages(TDict, 5, [Placed('T', 1)], [], {}, TDict);
    NothingToCheck(TDict, KnownLedger([Placed('T', 1)]));
  }

  lemma TasteRejected(w: Word)
    requires w in TDict
    ensures WordPossible(w, KnownLedger([Placed('T', 1)]), [], {'S'}) == Ok(false)
  {
    TasteLedger();
    assert w[2] == 'S';
  }

  /** After TASSE forbids S, nothing is left, TASTE included: its S sits at a
      position no known letter claims. */
  lemma TasteSecondRound()
    ensures PossibleWords(TDict, 5, [Placed('T', 1)], [], {'S'}) == Ok([])
  {
    TasteStages();
    var l := KnownLedger([Placed('T', 1)]);
    PossibleWordsFromStages(TDict, 5, [Placed('T', 1)], [], {'S'}, TDict);
    forall w | w in TDict ensures WordPossible(w, l, [], {'S'}) == Ok(false) {
      TasteRejected(w);
    }
    AllRejected(TDict, l, [], {'S'});
  }

  // ---------------------------------------------------------------------------
  // Two misplaced E's and a single E

  /** The ledger seeded by T at position 1, as far as the example needs it. */
  predicate TLedger(l: Ledger) {
    'E' in l && l['E'] == []
  }

  /** The first misplaced E resolves to position 5, the only E of TASTE. */
  lemma FirstClaim(l: Ledger)
    requires TLedger(l)
    ensures PossiblePosition(TDict[1], l, 'E', 1) == Ok(5)
  {
    assert LastUnclaimed(TDict[1], [], 'E', 5) == 4;
  }

  /** The second misplaced E resolves to position 5 again: the listed
      position 5 does not shield index 4. */
  lemma SecondClaim(l: Ledger)
    requires TLedger(l)
    ensures PossiblePosition(TDict[1], l['E' := [5]], 'E', 2) == Ok(5)
  {
    assert LastUnclaimed(TDict[1], [5], 'E', 5) == 4;
  }

  /** Two misplaced E's are both satisfied by the single E of TASTE. */
  lemma DoubleClaim(l: Ledger)
    requires TLedger(l)
    ensures WordPossible(TDict[1], l, [Placed('E', 1), Placed('E', 2)], {}) == Ok(true)
    ensures TDict[1] == "TASTE"
  {
    var w, wrong := TDict[1], [Placed('E', 1), Placed('E', 2)];
    FirstClaim(l);
    SecondClaim(l);
    assert l['E'] + [5] == [5];
    var l1 := l['E' := [5]];
    assert wrong[1..] == [Placed('E', 2)] && [Placed('E', 2)][1..] == [];
    assert Claim(w, l, wrong) == Claim(w, l1, [Placed('E', 2)]);
    assert Claim(w, l1, [Placed('E', 2)]) == Claim(w, l1['E' := l1['E'] + [5]], []);
  }

  /** With the 1-based comparison the first misplaced E still resolves to
      position 5. */
  lemma IntendedFirstClaim(l: Ledger)
    requires TLedger(l)
    ensures IntendedPosition(TDict[1], l, 'E', 1) == Ok(5)
  {
    assert LastUnclaimedPosition(TDict[1], [], 'E', 5) == 4;
  }

  /** With the 1-based comparison the listed position 5 shields the only E, so
      the second misplaced E resolves to 0. */
  lemma IntendedSecondClaim(l: Ledger)
    requires TLedger(l)
    ensures IntendedPosition(TDict[1], l['E' := [5]], 'E', 2) == Ok(0)
  {
    assert LastUnclaimedPosition(TDict[1], [5], 'E', 5) == -1;
  }

  /** With the 1-based comparison TASTE, holding one E, is rejected by the two
      misplaced constraints E@1 and E@2 that `DoubleClaim` lets it pass. */
  lemma IntendedDoubleClaimRejected(l: Ledger)
    requires TLedger(l)
    ensures IntendedWordPossible(TDict[1], l, [Placed('E', 1), Placed('E', 2)], {}) == Ok(false)
  {
    var w, wrong := TDict[1], [Placed('E', 1), Placed('E', 2)];
    IntendedFirstClaim(l);
    IntendedSecondClaim(l);
    assert l['E'] + [5] == [5];
    var l1 := l['E' := [5]];
    assert wrong[1..] == [Placed('E', 2)];
    assert IntendedClaim(w, l, wrong) == IntendedClaim(w, l1, [Placed('E', 2)]);
    assert IntendedClaim(w, l1, [Placed('E', 2)]) == Ok(None);
  }

  /** The ledger seeded by T at position 1 is such a ledger. */
  lemma TLedgerSeeded()
    ensures TLedger(KnownLedger([Placed('T', 1)]))
  {
    var l := KnownLedger([Placed('T', 1)]);
    assert IsLetter('T') && IsLetter('E');
    assert forall p :: p !in l['E'];
    HeadIn(l['E']);
  }

  // ---------------------------------------------------------------------------
  // One more constraint can let a word back in

  /** TEA with the E forbidden and nothing misplaced: its E is at an
      unclaimed position, so it is rejected. */
  lemma TeaForbidden()
    ensures WordPossible("TEA", KnownLedger([]), [], {'E'}) == Ok(false)
  {
    SeededTaken([]);
    assert "TEA"[1] == 'E';
  }

  /** The empty seeded ledger has an empty list for E. */
  lemma EmptySeedE()
    ensures 'E' in KnownLedger([]) && KnownLedger([])['E'] == []
    ensures Taken(KnownLedger([])) == {}
  {
    var l := KnownLedger([]);
    SeededTaken([]);
    assert IsLetter('E');
    assert forall p :: p !in l['E'];
    HeadIn(l['E']);
  }

  /** The misplaced E at position 3 of TEA resolves to position 2. */
  lemma TeaPosition()
    ensures 'E' in KnownLedger([])
    ensures PossiblePosition("TEA", KnownLedger([]), 'E', 3) == Ok(2)
  {
    EmptySeedE();
    var word := "TEA";
    assert word[0] == 'T' && word[1] == 'E' && word[2] == 'A';
  }

  /** TEA with the E forbidden and E misplaced at position 3: the misplaced E
      claims position 2, the E's only place, and the forbidden check skips it. */
  lemma TeaMisplacedAndForbidden()
    ensures WordPossible("TEA", KnownLedger([]), [Placed('E', 3)], {'E'}) == Ok(true)
  {
    EmptySeedE();
    TeaPosition();
    WordPossibleOne("TEA", KnownLedger([]), Placed('E', 3), {'E'});
    assert {} + {2} == {2};
    assert 'E' !in Remaining("TEA", {2}) by {
      var word := "TEA";
      assert word[0] == 'T' && word[1] == 'E' && word[2] == 'A';
    }
  }

  /** TEA passes the length stage and the empty known-letter stage. */
  lemma TeaStages()
    ensures KeepWordsWithLen(["TEA"], 3) == Ok(["TEA"])
    ensures KeepWordsWithKnownLetters(["TEA"], []) == Ok(["TEA"])
  {
    FilterKeepsAll(["TEA"], (w: Word) => |w| == 3);
  }

  /** With E forbidden, the filter leaves nothing of [TEA]. */
  lemma TeaFilteredOut()
    ensures PossibleWords(["TEA"], 3, [], [], {'E'}) == Ok([])
  {
    TeaStages();
    TeaForbidden();
    assert forall w :: w in ["TEA"] ==> w == "TEA";
    AllRejected(["TEA"], KnownLedger([]), [], {'E'});
    PossibleWordsFromStages(["TEA"], 3, [], [], {'E'}, ["TEA"]);
  }

  /** With E forbidden and E misplaced at position 3, the filter keeps TEA. */
  lemma TeaReadmitted()
    ensures PossibleWords(["TEA"], 3, [], [Placed('E', 3)], {'E'}) == Ok(["TEA"])
  {
    var l := KnownLedger([]);
    TeaStages();
    TeaMisplacedAndForbidden();
    assert KeepPossibleWords(["TEA"], l, [Placed('E', 3)], {'E'}) == Ok(["TEA"]) by {
      assert forall w :: w in ["TEA"] ==> w == "TEA";
      FilterKeepsAll(["TEA"], (w: Word) => WordPossible(w, l, [Placed('E', 3)], {'E'}) == Ok(true));
    }
    PossibleWordsFromStages(["TEA"], 3, [], [Placed('E', 3)], {'E'}, ["TEA"]);
  }

  /** Adding a constraint does not always narrow the filter: with E forbidden,
      TEA is filtered out; adding E misplaced at position 3 lets it back in. */
  lemma MoreConstraintsKeepMore()
    ensures PossibleWords(["TEA"], 3, [], [], {'E'}) == Ok([])
    ensures PossibleWords(["TEA"], 3, [], [Placed('E', 3)], {'E'}) == Ok(["TEA"])
  {
    TeaFilteredOut();
    TeaReadmitted();
  }
}
