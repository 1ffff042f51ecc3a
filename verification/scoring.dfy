/** The feedback engine: scores a guess against the secret as correct letters,
    misplaced letters and forbidden letters, consuming each secret occurrence
    at most once so that repeated letters are reported faithfully. */
module Scoring {
  import opened Words

  /** The feedback for one guess. */
  datatype Feedback = Feedback(correct: seq<Placed>, wrong: seq<Placed>, forbidden: set<char>)

  function Min(a: int, b: int): int {
    if a <= b then a else b
  }

  /** The 1-based positions named by a constraint list. */
  function Positions(cs: seq<Placed>): set<int> {
    set e | e in cs :: e.pos
  }

  // ---------------------------------------------------------------------------
  // Correct letters

  /** The correct letters among the first `n` positions. */
  function CorrectUpTo(guess: Word, secret: Word, n: nat): (r: seq<Placed>)
    requires n <= |guess| && n <= |secret|
    ensures |r| <= n
    decreases n
  {
    if n == 0 then []
    else
      var rest := CorrectUpTo(guess, secret, n - 1);
      if guess[n - 1] == secret[n - 1] then rest + [Placed(guess[n - 1], n)] else rest
  }

  /** `(letter, i+1)` for the indices where guess and secret agree, in
      ascending order; positions past the shorter word are not compared. */
  function GetCorrectLetters(guess: Word, secret: Word): (r: seq<Placed>)
    ensures |r| <= Min(|guess|, |secret|)
  {
    CorrectUpTo(guess, secret, Min(|guess|, |secret|))
  }

  /** Each correct letter among the first `n` positions is a position where
      the words agree. */
  lemma {:induction false} CorrectUpToSoundAt(guess: Word, secret: Word, n: nat, k: int)
    requires n <= |guess| && n <= |secret| && 0 <= k < |CorrectUpTo(guess, secret, n)|
    ensures var e := CorrectUpTo(guess, secret, n)[k];
      1 <= e.pos <= n && guess[e.pos - 1] == secret[e.pos - 1] == e.letter
    decreases n
  {
    var rest := CorrectUpTo(guess, secret, n - 1);
    if k < |rest| {
      CorrectUpToSoundAt(guess, secret, n - 1, k);
    }
  }

  lemma CorrectUpToSound(guess: Word, secret: Word, n: nat)
    requires n <= |guess| && n <= |secret|
    ensures forall k :: 0 <= k < |CorrectUpTo(guess, secret, n)| ==>
      var e := CorrectUpTo(guess, secret, n)[k];
      1 <= e.pos <= n && guess[e.pos - 1] == secret[e.pos - 1] == e.letter
  {
    forall k | 0 <= k < |CorrectUpTo(guess, secret, n)| {
      CorrectUpToSoundAt(guess, secret, n, k);
    }
  }

  /** Every agreeing position among the first `n` is reported. */
  lemma {:induction false} CorrectUpToComplete(guess: Word, secret: Word, n: nat)
    requires n <= |guess| && n <= |secret|
    ensures var r := CorrectUpTo(guess, secret, n);
      forall i :: 0 <= i < n && guess[i] == secret[i] ==> Placed(guess[i], i + 1) in r
    decreases n
  {
    if n > 0 {
      CorrectUpToComplete(guess, secret, n - 1);
      var rest := CorrectUpTo(guess, secret, n - 1);
      var r := CorrectUpTo(guess, secret, n);
      assert r == rest || r == rest + [Placed(guess[n - 1], n)];
      assert forall e :: e in rest ==> e in r;
    }
  }

  /** The correct letters come in ascending position order. */
  lemma {:induction false} CorrectUpToAscending(guess: Word, secret: Word, n: nat)
    requires n <= |guess| && n <= |secret|
    ensures forall k, m :: 0 <= k < m < |CorrectUpTo(guess, secret, n)| ==>
      CorrectUpTo(guess, secret, n)[k].pos < CorrectUpTo(guess, secret, n)[m].pos
    decreases n
  {
    if n > 0 {
      CorrectUpToAscending(guess, secret, n - 1);
      CorrectUpToSound(guess, secret, n - 1);
      var rest := CorrectUpTo(guess, secret, n - 1);
      var r := CorrectUpTo(guess, secret, n);
      if guess[n - 1] == secret[n - 1] {
        assert r == rest + [Placed(guess[n - 1], n)];
        forall k, m | 0 <= k < m < |r| ensures r[k].pos < r[m].pos {
          assert r[k] == rest[k];
          if m == |rest| {
            assert r[m].pos == n;
          } else {
            assert r[m] == rest[m];
          }
        }
      }
    }
  }

  /** Every correct letter is a position where the words agree, every
      agreeing position is reported, and positions ascend. */
  lemma CorrectLetters(guess: Word, secret: Word)
    ensures var r := GetCorrectLetters(guess, secret);
      (forall k :: 0 <= k < |r| ==>
         1 <= r[k].pos <= Min(|guess|, |secret|) && guess[r[k].pos - 1] == secret[r[k].pos - 1] == r[k].letter) &&
      (forall i :: 0 <= i < Min(|guess|, |secret|) && guess[i] == secret[i] ==> Placed(guess[i], i + 1) in r) &&
      (forall k, m :: 0 <= k < m < |r| ==> r[k].pos < r[m].pos)
  {
    var n := Min(|guess|, |secret|);
    CorrectUpToSound(guess, secret, n);
    CorrectUpToComplete(guess, secret, n);
    CorrectUpToAscending(guess, secret, n);
  }

  /** Positions named by the correct letters lie within the shorter word. */
  lemma CorrectWithin(guess: Word, secret: Word)
    ensures forall e :: e in GetCorrectLetters(guess, secret) ==> e.pos <= Min(|guess|, |secret|)
  {
    CorrectUpToSound(guess, secret, Min(|guess|, |secret|));
  }

  /** The correct positions are exactly those where the letters agree. */
  lemma CorrectPositions(guess: Word, secret: Word, i: int)
    requires |guess| == |secret| && 0 <= i < |guess|
    ensures i + 1 in Positions(GetCorrectLetters(guess, secret)) <==> guess[i] == secret[i]
  {
    CorrectUpToSound(guess, secret, |guess|);
    CorrectUpToComplete(guess, secret, |guess|);
    var r := GetCorrectLetters(guess, secret);
    if guess[i] == secret[i] {
      assert Placed(guess[i], i + 1) in r;
    }
  }

  // ---------------------------------------------------------------------------
  // Misplaced and forbidden letters

  /** `w` with every position named in `cs` overwritten by the `'-'` marker. */
  function Mask(w: seq<char>, cs: seq<Placed>): (m: seq<char>) {
    seq(|w|, i requires 0 <= i < |w| => if i + 1 in Positions(cs) then '-' else w[i])
  }

  /** Index of the first occurrence of `c` in `t`. */
  function FirstIndex(t: seq<char>, c: char): (k: nat)
    requires c in t
    ensures k < |t| && t[k] == c
    ensures forall j :: 0 <= j < k ==> t[j] != c
  {
    if t[0] == c then 0 else FirstIndex(t[1..], c) + 1
  }

  /** The scan over positions `j..` of the masked guess `g` against what is
      left of the secret `t`: a guess letter that differs from the secret letter
      at its position and still occurs in `t` is reported misplaced, masked in
      `g`, and consumes the first occurrence in `t`. The secret letter at `j` is
      read as it stands after the earlier positions' consumption. */
  function Scan(g: seq<char>, t: seq<char>, j: nat, wrong: seq<Placed>): (res: (seq<Placed>, seq<char>, seq<char>))
    requires |g| == |t| && j <= |g|
    ensures |res.1| == |g| && |res.2| == |t|
    decreases |g| - j
  {
    if j == |g| then (wrong, g, t)
    else if g[j] != t[j] && g[j] in t then
      Scan(g[j := '-'], t[FirstIndex(t, g[j]) := '-'], j + 1, wrong + [Placed(g[j], j + 1)])
    else
      Scan(g, t, j + 1, wrong)
  }

  /** The misplaced letters and the set of forbidden letters, given the correct
      letters: what is left of the guess after masking and scanning is forbidden. */
  function WrongPlaceAndForbidden(guess: Word, secret: Word, correct: seq<Placed>): (res: (seq<Placed>, set<char>))
    requires |guess| == |secret|
    requires forall e :: e in correct ==> e.pos <= |guess|
  {
    var s := Scan(Mask(guess, correct), Mask(secret, correct), 0, []);
    (s.0, set i | 0 <= i < |s.1| && s.1[i] != '-' :: s.1[i])
  }

  /** Blanks out, in both letter buffers, every position named by `correct`. */
  method MaskCorrect(guessLetters: array<char>, secretLetters: array<char>,
                     guess: Word, secret: Word, correct: seq<Placed>)
    requires guessLetters != secretLetters
    requires guessLetters[..] == guess && secretLetters[..] == secret && |guess| == |secret|
    requires forall e :: e in correct ==> e.pos <= |guess|
    modifies guessLetters, secretLetters
    ensures guessLetters[..] == Mask(guess, correct)
    ensures secretLetters[..] == Mask(secret, correct)
  {
    assert Positions(correct[..0]) == {};
    assert guessLetters[..] == Mask(guess, correct[..0]);
    assert secretLetters[..] == Mask(secret, correct[..0]);
    for k := 0 to |correct|
      invariant guessLetters[..] == Mask(guess, correct[..k])
      invariant secretLetters[..] == Mask(secret, correct[..k])
    {
      assert Positions(correct[..k + 1]) == Positions(correct[..k]) + {correct[k].pos} by {
        assert correct[..k + 1] == correct[..k] + [correct[k]];
      }
      var position := correct[k].pos - 1;
      guessLetters[position] := '-';
      secretLetters[position] := '-';
    }
    assert correct[..|correct|] == correct;
  }

  /** Blanks out the first occurrence of `letter` in the buffer. */
  method ConsumeFirst(letters: array<char>, letter: char)
    requires letter in letters[..]
    modifies letters
    ensures letters[..] == old(letters[..])[FirstIndex(old(letters[..]), letter) := '-']
  {
    ghost var before := letters[..];
    var m := 0;
    while m < letters.Length
      invariant 0 <= m <= letters.Length
      invariant letters[..] == before
      invariant forall q :: 0 <= q < m ==> before[q] != letter
    {
      if letters[m] == letter {
        letters[m] := '-';
        return;
      }
      m := m + 1;
    }
  }

  method GetWrongPlaceAndForbiddenLetters(guess: Word, secret: Word, correct: seq<Placed>)
    returns (wrong: seq<Placed>, forbidden: set<char>)
    requires |guess| == |secret|
    requires forall e :: e in correct ==> e.pos <= |guess|
    ensures (wrong, forbidden) == WrongPlaceAndForbidden(guess, secret, correct)
  {
    var guessLetters := new char[|guess|](i requires 0 <= i < |guess| => guess[i]);
    var secretLetters := new char[|secret|](i requires 0 <= i < |secret| => secret[i]);
    MaskCorrect(guessLetters, secretLetters, guess, secret, correct);
    wrong := [];
    for j := 0 to guessLetters.Length
      invariant Scan(Mask(guess, correct), Mask(secret, correct), 0, [])
             == Scan(guessLetters[..], secretLetters[..], j, wrong)
    {
      var letter := guessLetters[j];
      if letter != secretLetters[j] && letter in secretLetters[..] {
        wrong := wrong + [Placed(letter, j + 1)];
        guessLetters[j] := '-';
        ConsumeFirst(secretLetters, letter);
      }
    }
    var left := guessLetters[..];
    forbidden := set i | 0 <= i < |left| && left[i] != '-' :: left[i];
  }

  /** The whole feedback of one guess, as the session driver computes it. */
  function Score(guess: Word, secret: Word): (f: Feedback)
    requires |guess| == |secret|
  {
    var correct := GetCorrectLetters(guess, secret);
    CorrectWithin(guess, secret);
    var rest := WrongPlaceAndForbidden(guess, secret, correct);
    Feedback(correct, rest.0, rest.1)
  }

  // ---------------------------------------------------------------------------
  // What the feedback means

  /** Number of constraints naming the letter `c`. */
  function LetterCount(cs: seq<Placed>, c: char): nat
    decreases |cs|
  {
    if cs == [] then 0
    else LetterCount(cs[..|cs| - 1], c) + (if cs[|cs| - 1].letter == c then 1 else 0)
  }

  /** Number of positions among the first `n` where guess and secret both hold `c`. */
  function ExactUpTo(guess: Word, secret: Word, c: char, n: nat): nat
    requires n <= |guess| && n <= |secret|
    decreases n
  {
    if n == 0 then 0
    else ExactUpTo(guess, secret, c, n - 1) + (if guess[n - 1] == c && secret[n - 1] == c then 1 else 0)
  }

  /** The secret with its exactly matched positions blanked out. */
  function Unmatched(guess: Word, secret: Word): seq<char>
    requires |guess| == |secret|
  {
    seq(|secret|, i requires 0 <= i < |secret| => if guess[i] == secret[i] then '-' else secret[i])
  }

  lemma {:induction false} UnmatchedPrefixCount(guess: Word, secret: Word, c: char, n: nat)
    requires |guess| == |secret| && n <= |secret| && c != '-'
    ensures Count(Unmatched(guess, secret)[..n], c) + ExactUpTo(guess, secret, c, n) == Count(secret[..n], c)
    decreases n
  {
    if n > 0 {
      UnmatchedPrefixCount(guess, secret, c, n - 1);
      var u := Unmatched(guess, secret);
      assert u[..n][..n - 1] == u[..n - 1];
      assert secret[..n][..n - 1] == secret[..n - 1];
    }
  }

  /** Blanking the exact matches removes exactly the exact matches of `c`. */
  lemma UnmatchedCount(guess: Word, secret: Word, c: char)
    requires |guess| == |secret| && c != '-'
    ensures Count(Unmatched(guess, secret), c) + ExactUpTo(guess, secret, c, |guess|) == Count(secret, c)
  {
    UnmatchedPrefixCount(guess, secret, c, |secret|);
    assert Unmatched(guess, secret)[..|secret|] == Unmatched(guess, secret);
    assert secret[..|secret|] == secret;
  }

  /** `g` is the guess with its correct and its reported positions blanked. */
  ghost predicate GuessLeft(guess: Word, secret: Word, g: seq<char>, wrong: seq<Placed>)
    requires |guess| == |secret|
  {
    |g| == |guess| &&
    forall i :: 0 <= i < |g| ==>
      g[i] == if guess[i] == secret[i] || i + 1 in Positions(wrong) then '-' else guess[i]
  }

  /** `t` holds, at each position, either the marker or an unmatched secret letter. */
  ghost predicate SecretLeft(guess: Word, secret: Word, t: seq<char>)
    requires |guess| == |secret|
  {
    |t| == |guess| &&
    forall i :: 0 <= i < |t| ==> t[i] == '-' || (t[i] == secret[i] && guess[i] != secret[i])
  }

  /** Reports up to position `j`: each names the guess letter at a position where
      the secret differs, in ascending position order. */
  ghost predicate Reports(guess: Word, secret: Word, j: nat, wrong: seq<Placed>)
    requires |guess| == |secret|
  {
    (forall k :: 0 <= k < |wrong| ==>
       1 <= wrong[k].pos <= j && wrong[k].pos <= |guess| &&
       guess[wrong[k].pos - 1] == wrong[k].letter && secret[wrong[k].pos - 1] != wrong[k].letter) &&
    (forall k, m :: 0 <= k < m < |wrong| ==> wrong[k].pos < wrong[m].pos)
  }

  /** Every occurrence consumed from `t` is paid for by one report. */
  ghost predicate Balanced(u: seq<char>, t: seq<char>, wrong: seq<Placed>) {
    forall c :: c != '-' ==> Count(t, c) + LetterCount(wrong, c) == Count(u, c)
  }

  /** What holds at every step of the scan when it starts from the exact-match masks. */
  ghost predicate ScanInv(guess: Word, secret: Word, g: seq<char>, t: seq<char>, j: nat, wrong: seq<Placed>)
    requires |guess| == |secret|
  {
    j <= |guess| && GuessLeft(guess, secret, g, wrong) && SecretLeft(guess, secret, t) &&
    Reports(guess, secret, j, wrong) && Balanced(Unmatched(guess, secret), t, wrong)
  }

  lemma PositionsSnoc(wrong: seq<Placed>, e: Placed)
    ensures Positions(wrong + [e]) == Positions(wrong) + {e.pos}
  {
    assert forall x :: x in wrong + [e] <==> x in wrong || x == e;
  }

  lemma ReportsStep(guess: Word, secret: Word, j: nat, wrong: seq<Placed>)
    requires |guess| == |secret| && j < |guess| && guess[j] != secret[j]
    requires Reports(guess, secret, j, wrong)
    ensures Reports(guess, secret, j + 1, wrong + [Placed(guess[j], j + 1)])
  {
  }

  lemma GuessLeftStep(guess: Word, secret: Word, g: seq<char>, j: nat, wrong: seq<Placed>)
    requires |guess| == |secret| && j < |guess|
    requires GuessLeft(guess, secret, g, wrong)
    ensures GuessLeft(guess, secret, g[j := '-'], wrong + [Placed(guess[j], j + 1)])
  {
    PositionsSnoc(wrong, Placed(guess[j], j + 1));
  }

  lemma BalancedStep(u: seq<char>, t: seq<char>, k: nat, wrong: seq<Placed>, e: Placed)
    requires k < |t| && t[k] == e.letter
    requires Balanced(u, t, wrong)
    ensures Balanced(u, t[k := '-'], wrong + [e])
  {
    forall d | d != '-'
      ensures Count(t[k := '-'], d) + LetterCount(wrong + [e], d) == Count(u, d)
    {
      CountUpdate(t, k, '-', d);
      assert (wrong + [e])[..|wrong|] == wrong;
    }
  }

  lemma {:induction false} ScanKeepsInv(guess: Word, secret: Word, g: seq<char>, t: seq<char>, j: nat, wrong: seq<Placed>)
    requires IsWord(guess) && |guess| == |secret|
    requires ScanInv(guess, secret, g, t, j, wrong)
    ensures var res := Scan(g, t, j, wrong); ScanInv(guess, secret, res.1, res.2, |guess|, res.0)
    decreases |guess| - j
  {
    if j < |g| {
      if g[j] != t[j] && g[j] in t {
        var c := g[j];
        var k := FirstIndex(t, c);
        ScanMisplacedStep(guess, secret, g, t, j, wrong);
        ScanKeepsInv(guess, secret, g[j := '-'], t[k := '-'], j + 1, wrong + [Placed(c, j + 1)]);
      } else {
        ScanKeepsInv(guess, secret, g, t, j + 1, wrong);
      }
    }
  }

  /** Reporting a misplaced letter and consuming its first occurrence in the
      secret keeps the scan invariant. */
  lemma ScanMisplacedStep(guess: Word, secret: Word, g: seq<char>, t: seq<char>, j: nat, wrong: seq<Placed>)
    requires IsWord(guess) && |guess| == |secret|
    requires ScanInv(guess, secret, g, t, j, wrong)
    requires j < |g| && g[j] != t[j] && g[j] in t
    ensures ScanInv(guess, secret, g[j := '-'], t[FirstIndex(t, g[j]) := '-'], j + 1, wrong + [Placed(g[j], j + 1)])
  {
    var c := g[j];
    assert IsLetter(guess[j]);
    assert c == guess[j] && guess[j] != secret[j];
    ReportsStep(guess, secret, j, wrong);
    GuessLeftStep(guess, secret, g, j, wrong);
    BalancedStep(Unmatched(guess, secret), t, FirstIndex(t, c), wrong, Placed(c, j + 1));
  }

  /** The masks of the exact matches satisfy the scan invariant before the scan. */
  lemma ScanStarts(guess: Word, secret: Word)
    requires |guess| == |secret|
    ensures var correct := GetCorrectLetters(guess, secret);
      ScanInv(guess, secret, Mask(guess, correct), Mask(secret, correct), 0, [])
  {
    var correct := GetCorrectLetters(guess, secret);
    var g, t := Mask(guess, correct), Mask(secret, correct);
    forall i | 0 <= i < |guess| ensures i + 1 in Positions(correct) <==> guess[i] == secret[i] {
      CorrectPositions(guess, secret, i);
    }
    assert Positions([]) == {};
    forall i | 0 <= i < |g|
      ensures g[i] == if guess[i] == secret[i] || i + 1 in Positions([]) then '-' else guess[i]
    {
    }
    assert GuessLeft(guess, secret, g, []);
    assert t == Unmatched(guess, secret);
    assert SecretLeft(guess, secret, t);
  }

  lemma ScoreScan(guess: Word, secret: Word)
    requires IsWord(guess) && |guess| == |secret|
    ensures var correct := GetCorrectLetters(guess, secret);
      var res := Scan(Mask(guess, correct), Mask(secret, correct), 0, []);
      ScanInv(guess, secret, res.1, res.2, |guess|, res.0)
  {
    var correct := GetCorrectLetters(guess, secret);
    ScanStarts(guess, secret);
    ScanKeepsInv(guess, secret, Mask(guess, correct), Mask(secret, correct), 0, []);
  }

  /** Each misplaced report `(L, p)` names the guess letter at `p`, which the
      secret does not hold there, at a position that is not correct; the reports
      come in ascending position order. */
  lemma ScoreMisplaced(guess: Word, secret: Word)
    requires IsWord(guess) && |guess| == |secret|
    ensures var f := Score(guess, secret);
      (forall k :: 0 <= k < |f.wrong| ==>
         1 <= f.wrong[k].pos <= |guess| && guess[f.wrong[k].pos - 1] == f.wrong[k].letter &&
         secret[f.wrong[k].pos - 1] != f.wrong[k].letter && f.wrong[k].pos !in Positions(f.correct)) &&
      (forall k, m :: 0 <= k < m < |f.wrong| ==> f.wrong[k].pos < f.wrong[m].pos)
  {
    ScoreScan(guess, secret);
    var f := Score(guess, secret);
    forall k | 0 <= k < |f.wrong| ensures f.wrong[k].pos !in Positions(f.correct) {
      CorrectPositions(guess, secret, f.wrong[k].pos - 1);
    }
  }

  /** Every guess letter before `j` that the scan left unblanked has no
      occurrence left in what remains of the secret. */
  ghost predicate Exhausted(g: seq<char>, t: seq<char>, j: nat)
    requires j <= |g|
  {
    forall i :: 0 <= i < j && g[i] != '-' ==> Count(t, g[i]) == 0
  }

  /** The counting half of the scan: each report blanks one unmatched guess
      occurrence, and a guess letter passed over is used up in the secret. */
  ghost predicate ScanCounts(guess: Word, secret: Word, g: seq<char>, t: seq<char>, j: nat, wrong: seq<Placed>)
    requires |guess| == |secret|
  {
    j <= |g| && Balanced(Unmatched(secret, guess), g, wrong) && Exhausted(g, t, j)
  }

  /** A report keeps the counts: the guess side loses the reported occurrence,
      and consuming a secret occurrence never brings a letter back. */
  lemma ScanCountsMisplaced(guess: Word, secret: Word, g: seq<char>, t: seq<char>, j: nat, wrong: seq<Placed>)
    requires |guess| == |secret|
    requires ScanCounts(guess, secret, g, t, j, wrong)
    requires j < |g| && g[j] != '-' && g[j] in t
    ensures ScanCounts(guess, secret, g[j := '-'], t[FirstIndex(t, g[j]) := '-'], j + 1, wrong + [Placed(g[j], j + 1)])
  {
    var c, k := g[j], FirstIndex(t, g[j]);
    var g', t' := g[j := '-'], t[k := '-'];
    BalancedStep(Unmatched(secret, guess), g, j, wrong, Placed(c, j + 1));
    forall i | 0 <= i < j + 1 && g'[i] != '-' ensures Count(t', g'[i]) == 0 {
      assert i < j && g'[i] == g[i];
      CountUpdate(t, k, '-', g[i]);
    }
  }

  /** A position the scan passes over keeps the counts: a guess letter still
      there differs from the secret at its position, so it does not occur in
      what is left of the secret. */
  lemma ScanCountsSkip(guess: Word, secret: Word, g: seq<char>, t: seq<char>, j: nat, wrong: seq<Placed>)
    requires IsWord(guess) && |guess| == |secret|
    requires ScanInv(guess, secret, g, t, j, wrong) && ScanCounts(guess, secret, g, t, j, wrong)
    requires j < |g| && !(g[j] != t[j] && g[j] in t)
    ensures ScanCounts(guess, secret, g, t, j + 1, wrong)
  {
    if g[j] != '-' {
      assert IsLetter(guess[j]);
      assert g[j] == guess[j] && guess[j] != secret[j];
      assert g[j] !in t;
      CountZero(t, g[j]);
    }
  }

  lemma {:induction false} ScanKeepsCounts(guess: Word, secret: Word, g: seq<char>, t: seq<char>, j: nat, wrong: seq<Placed>)
    requires IsWord(guess) && |guess| == |secret|
    requires ScanInv(guess, secret, g, t, j, wrong) && ScanCounts(guess, secret, g, t, j, wrong)
    ensures var res := Scan(g, t, j, wrong); ScanCounts(guess, secret, res.1, res.2, |guess|, res.0)
    decreases |guess| - j
  {
    if j < |g| {
      if g[j] != t[j] && g[j] in t {
        var c := g[j];
        assert c != '-' by {
          assert IsLetter(guess[j]);
        }
        ScanMisplacedStep(guess, secret, g, t, j, wrong);
        ScanCountsMisplaced(guess, secret, g, t, j, wrong);
        ScanKeepsCounts(guess, secret, g[j := '-'], t[FirstIndex(t, c) := '-'], j + 1, wrong + [Placed(c, j + 1)]);
      } else {
        ScanCountsSkip(guess, secret, g, t, j, wrong);
        ScanKeepsCounts(guess, secret, g, t, j + 1, wrong);
      }
    }
  }

  /** Before the scan, the masked guess is the guess's unmatched letters. */
  lemma ScanCountsStart(guess: Word, secret: Word)
    requires |guess| == |secret|
    ensures var correct := GetCorrectLetters(guess, secret);
      ScanCounts(guess, secret, Mask(guess, correct), Mask(secret, correct), 0, [])
  {
    var correct := GetCorrectLetters(guess, secret);
    forall i | 0 <= i < |guess| ensures i + 1 in Positions(correct) <==> guess[i] == secret[i] {
      CorrectPositions(guess, secret, i);
    }
    assert Mask(guess, correct) == Unmatched(secret, guess);
  }

  /** At the end of the scan both the invariant and the counts hold. */
  lemma ScoreCounts(guess: Word, secret: Word)
    requires IsWord(guess) && |guess| == |secret|
    ensures var correct := GetCorrectLetters(guess, secret);
      var res := Scan(Mask(guess, correct), Mask(secret, correct), 0, []);
      ScanInv(guess, secret, res.1, res.2, |guess|, res.0) &&
      ScanCounts(guess, secret, res.1, res.2, |guess|, res.0)
  {
    var correct := GetCorrectLetters(guess, secret);
    ScanStarts(guess, secret);
    ScanCountsStart(guess, secret);
    ScanKeepsInv(guess, secret, Mask(guess, correct), Mask(secret, correct), 0, []);
    ScanKeepsCounts(guess, secret, Mask(guess, correct), Mask(secret, correct), 0, []);
  }

  /** The number of misplaced reports of a letter is the smaller of its
      unmatched occurrences in the secret and in the guess. */
  lemma ScoreMisplacedCount(guess: Word, secret: Word, c: char)
    requires IsWord(guess) && |guess| == |secret| && c != '-'
    ensures LetterCount(Score(guess, secret).wrong, c)
         == Min(Count(Unmatched(guess, secret), c), Count(Unmatched(secret, guess), c))
  {
    ScoreCounts(guess, secret);
    var correct := GetCorrectLetters(guess, secret);
    var res := Scan(Mask(guess, correct), Mask(secret, correct), 0, []);
    CountZero(res.1, c);
    if c in res.1 {
      var i :| 0 <= i < |res.1| && res.1[i] == c;
      assert Count(res.2, res.1[i]) == 0;
    }
  }

  /** A letter is forbidden exactly when some unmatched occurrence of it in the
      guess went unreported, and then every unmatched occurrence in the secret
      was reported. */
  lemma ScoreForbiddenExhausted(guess: Word, secret: Word, c: char)
    requires IsWord(guess) && |guess| == |secret| && c != '-'
    ensures var f := Score(guess, secret);
      (c in f.forbidden <==> LetterCount(f.wrong, c) < Count(Unmatched(secret, guess), c)) &&
      (c in f.forbidden ==> LetterCount(f.wrong, c) == Count(secret, c) - ExactUpTo(guess, secret, c, |guess|))
  {
    ScoreCounts(guess, secret);
    UnmatchedCount(guess, secret, c);
    var correct := GetCorrectLetters(guess, secret);
    var res := Scan(Mask(guess, correct), Mask(secret, correct), 0, []);
    CountZero(res.1, c);
    if c in res.1 {
      var i :| 0 <= i < |res.1| && res.1[i] == c;
      assert Count(res.2, res.1[i]) == 0;
      assert c in Score(guess, secret).forbidden;
    }
  }

  /** Each report names the leftmost unmatched occurrences of its letter:
      every earlier guess occurrence of it that the secret does not match was
      reported as well. */
  ghost predicate Leftmost(guess: Word, secret: Word, wrong: seq<Placed>)
    requires |guess| == |secret|
  {
    forall k, i ::
      (0 <= k < |wrong| && 0 <= i < |guess| && i < wrong[k].pos - 1 &&
       guess[i] == wrong[k].letter && secret[i] != guess[i]) ==> i + 1 in Positions(wrong)
  }

  /** A report keeps the reports leftmost: an earlier unreported occurrence of
      the letter would still be in the guess, and its letter would then be used
      up in the secret, so the scan could not report it here. */
  lemma LeftmostStep(guess: Word, secret: Word, g: seq<char>, t: seq<char>, j: nat, wrong: seq<Placed>)
    requires |guess| == |secret|
    requires ScanInv(guess, secret, g, t, j, wrong) && ScanCounts(guess, secret, g, t, j, wrong)
    requires Leftmost(guess, secret, wrong)
    requires j < |g| && g[j] != '-' && g[j] in t
    ensures Leftmost(guess, secret, wrong + [Placed(g[j], j + 1)])
  {
    var c := g[j];
    var w' := wrong + [Placed(c, j + 1)];
    PositionsSnoc(wrong, Placed(c, j + 1));
    CountPositive(t, c);
    forall k, i | 0 <= k < |w'| && 0 <= i < |guess| && i < w'[k].pos - 1 &&
                  guess[i] == w'[k].letter && secret[i] != guess[i]
      ensures i + 1 in Positions(w')
    {
      if k < |wrong| {
        assert w'[k] == wrong[k];
      } else if i + 1 !in Positions(wrong) {
        assert g[i] == c;
      }
    }
  }

  lemma {:induction false} ScanKeepsLeftmost(guess: Word, secret: Word, g: seq<char>, t: seq<char>, j: nat, wrong: seq<Placed>)
    requires IsWord(guess) && |guess| == |secret|
    requires ScanInv(guess, secret, g, t, j, wrong) && ScanCounts(guess, secret, g, t, j, wrong)
    requires Leftmost(guess, secret, wrong)
    ensures Leftmost(guess, secret, Scan(g, t, j, wrong).0)
    decreases |guess| - j
  {
    if j < |g| {
      if g[j] != t[j] && g[j] in t {
        var c := g[j];
        assert c != '-' by {
          assert IsLetter(guess[j]);
        }
        ScanMisplacedStep(guess, secret, g, t, j, wrong);
        ScanCountsMisplaced(guess, secret, g, t, j, wrong);
        LeftmostStep(guess, secret, g, t, j, wrong);
        ScanKeepsLeftmost(guess, secret, g[j := '-'], t[FirstIndex(t, c) := '-'], j + 1, wrong + [Placed(c, j + 1)]);
      } else {
        ScanCountsSkip(guess, secret, g, t, j, wrong);
        ScanKeepsLeftmost(guess, secret, g, t, j + 1, wrong);
      }
    }
  }

  /** The reports of the whole scan are sound and leftmost. */
  lemma ScoreLeftmost(guess: Word, secret: Word)
    requires IsWord(guess) && |guess| == |secret|
    ensures Reports(guess, secret, |guess|, Score(guess, secret).wrong)
    ensures Leftmost(guess, secret, Score(guess, secret).wrong)
  {
    var correct := GetCorrectLetters(guess, secret);
    var g, t := Mask(guess, correct), Mask(secret, correct);
    ScanStarts(guess, secret);
    ScanCountsStart(guess, secret);
    ScanKeepsLeftmost(guess, secret, g, t, 0, []);
    ScanKeepsInv(guess, secret, g, t, 0, []);
  }

  /** In sound reports, a reported position names the guess letter there. */
  lemma LeftmostPlaced(guess: Word, secret: Word, wrong: seq<Placed>)
    requires |guess| == |secret|
    requires Reports(guess, secret, |guess|, wrong) && Leftmost(guess, secret, wrong)
    ensures forall k, i ::
      (0 <= k < |wrong| && 0 <= i < |guess| && i < wrong[k].pos - 1 &&
       guess[i] == wrong[k].letter && secret[i] != guess[i]) ==> Placed(guess[i], i + 1) in wrong
  {
    forall k, i | 0 <= k < |wrong| && 0 <= i < |guess| && i < wrong[k].pos - 1 &&
                  guess[i] == wrong[k].letter && secret[i] != guess[i]
      ensures Placed(guess[i], i + 1) in wrong
    {
      var e :| e in wrong && e.pos == i + 1;
      var m :| 0 <= m < |wrong| && wrong[m] == e;
    }
  }

  /** A repeated guess letter is reported misplaced at its leftmost unmatched
      occurrences: an unmatched occurrence before a report of its letter is
      itself reported. */
  lemma ScoreMisplacedLeftmost(guess: Word, secret: Word)
    requires IsWord(guess) && |guess| == |secret|
    ensures var f := Score(guess, secret);
      forall k, i ::
        (0 <= k < |f.wrong| && 0 <= i < |guess| && i < f.wrong[k].pos - 1 &&
         guess[i] == f.wrong[k].letter && secret[i] != guess[i]) ==> Placed(guess[i], i + 1) in f.wrong
  {
    ScoreLeftmost(guess, secret);
    LeftmostPlaced(guess, secret, Score(guess, secret).wrong);
  }

  /** Forbidden is exactly the set of guess letters at positions that are
      neither correct nor misplaced. */
  lemma ScoreForbidden(guess: Word, secret: Word)
    requires IsWord(guess) && |guess| == |secret|
    ensures var f := Score(guess, secret);
      f.forbidden == set i | 0 <= i < |guess| && i + 1 !in Positions(f.correct) && i + 1 !in Positions(f.wrong) :: guess[i]
  {
    ScoreScan(guess, secret);
    var f := Score(guess, secret);
    forall i | 0 <= i < |guess| ensures i + 1 in Positions(f.correct) <==> guess[i] == secret[i] {
      CorrectPositions(guess, secret, i);
    }
  }

  /** Scanning a word against itself reports nothing and consumes nothing. */
  lemma {:induction false} ScanSame(g: seq<char>, j: nat, wrong: seq<Placed>)
    requires j <= |g|
    ensures Scan(g, g, j, wrong) == (wrong, g, g)
    decreases |g| - j
  {
    if j < |g| {
      ScanSame(g, j + 1, wrong);
    }
  }

  /** Scoring the secret against itself: every position is correct, nothing is
      misplaced and nothing is forbidden. */
  lemma ScoreSelf(secret: Word)
    requires IsWord(secret)
    ensures var f := Score(secret, secret);
      (forall i :: 0 <= i < |secret| ==> Placed(secret[i], i + 1) in f.correct) &&
      f.wrong == [] && f.forbidden == {}
  {
    ScanSame(Mask(secret, GetCorrectLetters(secret, secret)), 0, []);
    ScoreForbidden(secret, secret);
    CorrectLetters(secret, secret);
    var f := Score(secret, secret);
    forall i | 0 <= i < |secret| ensures Placed(secret[i], i + 1).pos in Positions(f.correct) {
      CorrectPositions(secret, secret, i);
    }
    assert forall x :: x !in f.forbidden;
  }

  /** With nothing misplaced, every letter the guess got wrong is forbidden. */
  lemma ScoreWrongLetterForbidden(guess: Word, secret: Word, i: int)
    requires IsWord(guess) && |guess| == |secret| && 0 <= i < |guess| && guess[i] != secret[i]
    requires Score(guess, secret).wrong == []
    ensures guess[i] in Score(guess, secret).forbidden
  {
    CorrectPositions(guess, secret, i);
    ScoreForbidden(guess, secret);
    assert Positions([]) == {};
  }

  /** The first misplaced report names the guess letter at its own position. */
  lemma ScoreFirstMisplaced(guess: Word, secret: Word)
    requires IsWord(guess) && |guess| == |secret| && Score(guess, secret).wrong != []
    ensures var e := Score(guess, secret).wrong[0]; e.pos <= |guess| && guess[e.pos - 1] == e.letter
  {
    ScoreMisplaced(guess, secret);
  }
}
