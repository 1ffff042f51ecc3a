/** The constraint filter: keep only the candidate words consistent with known
    letters, misplaced letters and forbidden letters, using a per-letter ledger
    of claimed positions to handle repeated letters. */
module Filter {
  import opened Words
  import opened Seqs

  /** The exceptions the filter raises. */
  datatype FilterError =
    | NoWordOfLength(len: int)
    | PositionBeyondWord(letter: char, pos: int)
    | NoWordWithKnownLetters

  /** Per-letter list of claimed 1-based positions. It is a value: every check
      of a word works on its own copy and the caller's ledger never changes. */
  type Ledger = map<char, seq<int>>

  /** One empty entry per upper-case letter. */
  function EmptyLedger(): (l: Ledger)
    ensures forall c :: c in l <==> IsLetter(c)
    ensures forall c :: c in l ==> l[c] == []
  {
    map c | c in Uppercase :: []
  }

  // ---------------------------------------------------------------------------
  // Length and known-letter filters

  function KeepWordsWithLen(words: seq<Word>, wordLen: int): (r: Result<seq<Word>, FilterError>)
    ensures r.Err? <==> forall w :: w in words ==> |w| != wordLen
    ensures r.Err? ==> r.error == NoWordOfLength(wordLen)
    ensures r.Ok? ==> r.value != [] && IsSubseq(r.value, words)
    ensures r.Ok? ==> forall w :: w in r.value <==> w in words && |w| == wordLen
    ensures r.Ok? ==> r.value == Filter(words, (w: Word) => |w| == wordLen)
  {
    var kept := Filter(words, (w: Word) => |w| == wordLen);
    if kept == [] then Err(NoWordOfLength(wordLen))
    else
      assert kept[0] in kept;
      Ok(kept)
  }

  function DoesWordContainKnownLetter(word: Word, letter: char, pos: Position): (r: Result<bool, FilterError>)
    ensures r.Err? <==> pos > |word|
    ensures r.Err? ==> r.error == PositionBeyondWord(letter, pos)
    ensures r.Ok? ==> (r.value <==> word[pos - 1] == letter)
  {
    if pos > |word| then Err(PositionBeyondWord(letter, pos)) else Ok(word[pos - 1] == letter)
  }

  /** The word carries `letter` at the 1-based position `pos`. */
  predicate HasLetterAt(w: Word, letter: char, pos: Position) {
    pos <= |w| && w[pos - 1] == letter
  }

  function KeepWordsWithKnownLetter(words: seq<Word>, letter: char, pos: Position): (r: Result<seq<Word>, FilterError>)
    ensures r.Err? <==> exists w :: w in words && |w| < pos
    ensures r.Err? ==> r.error == PositionBeyondWord(letter, pos)
    ensures r.Ok? ==> IsSubseq(r.value, words)
    ensures r.Ok? ==> forall w :: w in r.value <==> w in words && HasLetterAt(w, letter, pos)
    ensures r.Ok? ==> r.value == Filter(words, (w: Word) => HasLetterAt(w, letter, pos))
    decreases |words|
  {
    if words == [] then Ok([])
    else
      var w := words[|words| - 1];
      assert words == words[..|words| - 1] + [w];
      match KeepWordsWithKnownLetter(words[..|words| - 1], letter, pos)
      case Err(e) => Err(e)
      case Ok(kept) =>
        match DoesWordContainKnownLetter(w, letter, pos)
        case Err(e) => Err(e)
        case Ok(has) =>
          SubseqSnoc(kept, words[..|words| - 1], w);
          Ok(if has then kept + [w] else kept)
  }

  /** The word carries every known letter at its position. */
  predicate HasKnownLetters(w: Word, known: seq<Placed>) {
    forall e :: e in known ==> HasLetterAt(w, e.letter, e.pos)
  }

  /** The known-letter filters of the constraint list, applied in order. */
  function KeepWordsWithKnownLetters(words: seq<Word>, known: seq<Placed>): (r: Result<seq<Word>, FilterError>)
    ensures r.Ok? ==> IsSubseq(r.value, words)
    ensures r.Ok? ==> forall w :: w in r.value <==> w in words && HasKnownLetters(w, known)
    ensures r.Ok? ==> r.value == Filter(words, (w: Word) => HasKnownLetters(w, known))
    decreases |known|
  {
    if known == [] then
      SubseqRefl(words);
      FilterKeepsAll(words, (w: Word) => HasKnownLetters(w, known));
      Ok(words)
    else
      var init, e := known[..|known| - 1], known[|known| - 1];
      assert known == init + [e];
      match KeepWordsWithKnownLetters(words, init)
      case Err(err) => Err(err)
      case Ok(kept) =>
        var r := KeepWordsWithKnownLetter(kept, e.letter, e.pos);
        if r.Ok? then
          SubseqTrans(r.value, kept, words);
          assert forall d :: d in known <==> d in init || d == e;
          FilterCompose(words, (w: Word) => HasKnownLetters(w, init), (w: Word) => HasLetterAt(w, e.letter, e.pos),
                        (w: Word) => HasKnownLetters(w, known));
          r
        else
          SubseqMembers(kept, words);
          r
  }

  /** The known-letter stage raises exactly for a known position beyond the
      end of some word, and then names such a known letter. */
  lemma {:induction false} KnownLettersRaise(words: seq<Word>, known: seq<Placed>)
    ensures var r := KeepWordsWithKnownLetters(words, known);
      ((forall w, e :: w in words && e in known ==> e.pos <= |w|) ==> r.Ok?) &&
      (r.Err? ==> exists e :: e in known && r.error == PositionBeyondWord(e.letter, e.pos) &&
                              exists w :: w in words && |w| < e.pos)
    decreases |known|
  {
    if known != [] {
      var e := known[|known| - 1];
      var init := known[..|known| - 1];
      assert known == init + [e];
      KnownLettersRaise(words, init);
      var prev := KeepWordsWithKnownLetters(words, init);
      if prev.Ok? {
        var r := KeepWordsWithKnownLetter(prev.value, e.letter, e.pos);
        if r.Err? {
          var w :| w in prev.value && |w| < e.pos;
          assert w in words;
        }
      } else {
        var e' :| e' in init && prev.error == PositionBeyondWord(e'.letter, e'.pos) &&
                  exists w :: w in words && |w| < e'.pos;
        assert e' in known;
      }
    }
  }

  /** The ledger seeded by the known letters, each appended in order. */
  function KnownLedger(known: seq<Placed>): (l: Ledger)
    requires forall e :: e in known ==> IsLetter(e.letter)
    ensures forall c :: c in l <==> IsLetter(c)
    ensures forall c, p: int :: c in l ==> (p in l[c] <==> p >= 1 && Placed(c, p) in known)
    decreases |known|
  {
    if known == [] then EmptyLedger()
    else
      var e := known[|known| - 1];
      assert known == known[..|known| - 1] + [e];
      var l := KnownLedger(known[..|known| - 1]);
      l[e.letter := l[e.letter] + [e.pos]]
  }

  // ---------------------------------------------------------------------------
  // Misplaced letters

  /** The largest index `i < n` holding `letter` that is not in `claimed`, or -1.
      `claimed` holds 1-based positions while `i` is 0-based: the comparison is
      made as written, so a claimed position p shields index p, not index p-1. */
  function LastUnclaimed(word: Word, claimed: seq<int>, letter: char, n: nat): (i: int)
    requires n <= |word|
    ensures -1 <= i < n
    ensures i >= 0 ==> word[i] == letter && i !in claimed
    ensures forall j :: i < j < n ==> word[j] != letter || j in claimed
    decreases n
  {
    if n == 0 then -1
    else if word[n - 1] == letter && n - 1 !in claimed then n - 1
    else LastUnclaimed(word, claimed, letter, n - 1)
  }

  /** Where a misplaced `letter` (excluded from `wrongPos`) can sit in `word`:
      0 when it cannot, otherwise the 1-based position of its last occurrence
      whose 0-based index is not listed in the ledger. */
  function PossiblePosition(word: Word, ledger: Ledger, letter: char, wrongPos: Position): (r: Result<int, FilterError>)
    requires letter in ledger
    ensures r.Err? <==> wrongPos > |word|
    ensures r.Err? ==> r.error == PositionBeyondWord(letter, wrongPos)
    ensures r.Ok? ==> 0 <= r.value <= |word|
    ensures r.Ok? && word[wrongPos - 1] == letter ==> r.value == 0
    ensures r.Ok? && word[wrongPos - 1] != letter ==>
      (r.value == 0 <==> forall i :: 0 <= i < |word| && word[i] == letter ==> i in ledger[letter])
    ensures r.Ok? && r.value > 0 ==>
      word[wrongPos - 1] != letter && word[r.value - 1] == letter && r.value - 1 !in ledger[letter] &&
      forall j :: r.value <= j < |word| && word[j] == letter ==> j in ledger[letter]
  {
    if wrongPos > |word| then Err(PositionBeyondWord(letter, wrongPos))
    else if word[wrongPos - 1] == letter then Ok(0)
    else Ok(LastUnclaimed(word, ledger[letter], letter, |word|) + 1)
  }

  method DetectPossiblePosition(word: Word, ledger: Ledger, letter: char, wrongPos: Position)
    returns (r: Result<int, FilterError>)
    requires letter in ledger
    ensures r == PossiblePosition(word, ledger, letter, wrongPos)
  {
    if wrongPos > |word| {
      return Err(PositionBeyondWord(letter, wrongPos));
    }
    if word[wrongPos - 1] == letter {
      return Ok(0);
    }
    var possible := -1;
    for i := 0 to |word|
      invariant possible == LastUnclaimed(word, ledger[letter], letter, i)
    {
      if letter == word[i] && i !in ledger[letter] {
        possible := i;
      }
    }
    return Ok(possible + 1);
  }

  /** Resolving the misplaced constraints in order against a private ledger:
      an error when a position lies beyond the word, `None` as soon as one
      resolves to 0, and otherwise the ledger with every resolved position
      appended to its letter's list. */
  function Claim(word: Word, ledger: Ledger, wrong: seq<Placed>): (r: Result<Option<Ledger>, FilterError>)
    requires forall e :: e in wrong ==> e.letter in ledger
    ensures r.Err? ==> exists e :: e in wrong && e.pos > |word| && r.error == PositionBeyondWord(e.letter, e.pos)
    ensures (forall e :: e in wrong ==> e.pos <= |word|) ==> r.Ok?
    ensures r.Ok? && r.value.Some? ==> r.value.value.Keys == ledger.Keys
    decreases |wrong|
  {
    if wrong == [] then Ok(Some(ledger))
    else
      var e := wrong[0];
      assert forall f :: f in wrong ==> f == e || f in wrong[1..];
      match PossiblePosition(word, ledger, e.letter, e.pos)
      case Err(err) => Err(err)
      case Ok(p) =>
        if p > 0 then Claim(word, ledger[e.letter := ledger[e.letter] + [p]], wrong[1..])
        else Ok(None)
  }

  /** When every misplaced constraint resolves, each one names a letter absent
      from its own position and present at an index the ledger does not list. */
  lemma {:induction false} ClaimAccepted(word: Word, ledger: Ledger, wrong: seq<Placed>)
    requires forall e :: e in wrong ==> e.letter in ledger
    requires Claim(word, ledger, wrong).Ok? && Claim(word, ledger, wrong).value.Some?
    ensures forall e :: e in wrong ==>
      e.pos <= |word| && word[e.pos - 1] != e.letter &&
      exists i :: 0 <= i < |word| && word[i] == e.letter && i !in ledger[e.letter]
    decreases |wrong|
  {
    if wrong != [] {
      var e := wrong[0];
      var p := PossiblePosition(word, ledger, e.letter, e.pos).value;
      var grown := ledger[e.letter := ledger[e.letter] + [p]];
      assert Claim(word, ledger, wrong) == Claim(word, grown, wrong[1..]);
      assert forall f :: f in wrong[1..] ==> f.letter in grown by {
        assert forall f :: f in wrong[1..] ==> f in wrong;
      }
      ClaimAccepted(word, grown, wrong[1..]);
      forall f | f in wrong
        ensures f.pos <= |word| && word[f.pos - 1] != f.letter
        ensures exists i :: 0 <= i < |word| && word[i] == f.letter && i !in ledger[f.letter]
      {
        if f == e {
          assert word[p - 1] == e.letter && p - 1 !in ledger[e.letter];
        } else {
          assert f in wrong[1..];
          var i :| 0 <= i < |word| && word[i] == f.letter && i !in grown[f.letter];
          assert grown[f.letter] == ledger[f.letter] || grown[f.letter] == ledger[f.letter] + [p];
        }
      }
    }
  }

  /** The private ledger only grows: each letter's list keeps its old entries
      and gains 1-based positions where the word holds that letter. */
  lemma {:induction false} ClaimExtends(word: Word, ledger: Ledger, wrong: seq<Placed>)
    requires forall e :: e in wrong ==> e.letter in ledger
    requires Claim(word, ledger, wrong).Ok? && Claim(word, ledger, wrong).value.Some?
    ensures forall c :: c in ledger ==> Extends(Claim(word, ledger, wrong).value.value[c], ledger[c], word, c)
    decreases |wrong|
  {
    if wrong != [] {
      var e := wrong[0];
      var p := PossiblePosition(word, ledger, e.letter, e.pos).value;
      var grown := ledger[e.letter := ledger[e.letter] + [p]];
      assert Claim(word, ledger, wrong) == Claim(word, grown, wrong[1..]);
      assert forall f :: f in wrong[1..] ==> f.letter in grown by {
        assert forall f :: f in wrong[1..] ==> f in wrong;
      }
      ClaimExtends(word, grown, wrong[1..]);
      GrowExtends(word, ledger, e.letter, p);
      var l := Claim(word, grown, wrong[1..]).value.value;
      forall c | c in ledger ensures Extends(l[c], ledger[c], word, c) {
        ExtendsTrans(l[c], grown[c], ledger[c], word, c);
      }
    }
  }

  /** Appending a position of `letter` to its list extends every list. */
  lemma GrowExtends(word: Word, ledger: Ledger, letter: char, p: int)
    requires letter in ledger && 1 <= p <= |word| && word[p - 1] == letter
    ensures forall c :: c in ledger ==> Extends(ledger[letter := ledger[letter] + [p]][c], ledger[c], word, c)
  {
    var grown := ledger[letter := ledger[letter] + [p]];
    forall c | c in ledger ensures Extends(grown[c], ledger[c], word, c) {
      if c == letter {
        assert (ledger[c] + [p])[..|ledger[c]|] == ledger[c];
      } else {
        assert grown[c][..|ledger[c]|] == ledger[c];
      }
    }
  }

  /** `longer` is `shorter` followed by 1-based positions of `c` in `word`. */
  predicate Extends(longer: seq<int>, shorter: seq<int>, word: Word, c: char) {
    |shorter| <= |longer| && longer[..|shorter|] == shorter &&
    forall k :: |shorter| <= k < |longer| ==> 1 <= longer[k] <= |word| && word[longer[k] - 1] == c
  }

  lemma ExtendsTrans(a: seq<int>, b: seq<int>, c: seq<int>, word: Word, x: char)
    requires Extends(a, b, word, x) && Extends(b, c, word, x)
    ensures Extends(a, c, word, x)
  {
    assert a[..|c|] == a[..|b|][..|c|];
  }

  // ---------------------------------------------------------------------------
  // Misplaced letters, with the comparison the source's comment describes

  /** The largest index `i < n` holding `letter` whose 1-based position `i + 1`
      is not in `claimed`, or -1: `LastUnclaimed` with both sides of the
      comparison 1-based, so that a claimed position shields its own letter. */
  function LastUnclaimedPosition(word: Word, claimed: seq<int>, letter: char, n: nat): (i: int)
    requires n <= |word|
    ensures -1 <= i < n
    ensures i >= 0 ==> word[i] == letter && i + 1 !in claimed
    ensures forall j :: i < j < n ==> word[j] != letter || j + 1 in claimed
    decreases n
  {
    if n == 0 then -1
    else if word[n - 1] == letter && n !in claimed then n - 1
    else LastUnclaimedPosition(word, claimed, letter, n - 1)
  }

  /** `PossiblePosition` with the 1-based comparison: a positive result is an
      occurrence of the letter at a position the ledger does not list yet. */
  function IntendedPosition(word: Word, ledger: Ledger, letter: char, wrongPos: Position): (r: Result<int, FilterError>)
    requires letter in ledger
    ensures r.Err? <==> wrongPos > |word|
    ensures r.Err? ==> r.error == PositionBeyondWord(letter, wrongPos)
    ensures r.Ok? ==> 0 <= r.value <= |word|
    ensures r.Ok? && word[wrongPos - 1] == letter ==> r.value == 0
    ensures r.Ok? && word[wrongPos - 1] != letter ==>
      (r.value == 0 <==> forall i :: 0 <= i < |word| && word[i] == letter ==> i + 1 in ledger[letter])
    ensures r.Ok? && r.value > 0 ==>
      word[wrongPos - 1] != letter && word[r.value - 1] == letter && r.value !in ledger[letter]
  {
    if wrongPos > |word| then Err(PositionBeyondWord(letter, wrongPos))
    else if word[wrongPos - 1] == letter then Ok(0)
    else Ok(LastUnclaimedPosition(word, ledger[letter], letter, |word|) + 1)
  }

  /** `Claim` with `IntendedPosition` in place of `PossiblePosition`. */
  function IntendedClaim(word: Word, ledger: Ledger, wrong: seq<Placed>): (r: Result<Option<Ledger>, FilterError>)
    requires forall e :: e in wrong ==> e.letter in ledger
    ensures r.Err? ==> exists e :: e in wrong && e.pos > |word| && r.error == PositionBeyondWord(e.letter, e.pos)
    ensures (forall e :: e in wrong ==> e.pos <= |word|) ==> r.Ok?
    ensures r.Ok? && r.value.Some? ==> r.value.value.Keys == ledger.Keys
    decreases |wrong|
  {
    if wrong == [] then Ok(Some(ledger))
    else
      var e := wrong[0];
      assert forall f :: f in wrong ==> f == e || f in wrong[1..];
      match IntendedPosition(word, ledger, e.letter, e.pos)
      case Err(err) => Err(err)
      case Ok(p) =>
        if p > 0 then IntendedClaim(word, ledger[e.letter := ledger[e.letter] + [p]], wrong[1..])
        else Ok(None)
  }

  /** `longer` extends `shorter`, and each position it adds differs from every
      other entry of `longer`. */
  predicate FreshlyExtends(longer: seq<int>, shorter: seq<int>, word: Word, c: char) {
    Extends(longer, shorter, word, c) &&
    forall k, m :: |shorter| <= k < |longer| && 0 <= m < |longer| && m != k ==> longer[k] != longer[m]
  }

  lemma FreshlyExtendsTrans(a: seq<int>, b: seq<int>, c: seq<int>, word: Word, x: char)
    requires FreshlyExtends(a, b, word, x) && FreshlyExtends(b, c, word, x)
    ensures FreshlyExtends(a, c, word, x)
  {
    ExtendsTrans(a, b, c, word, x);
    forall k, m | |c| <= k < |a| && 0 <= m < |a| && m != k ensures a[k] != a[m] {
      if k < |b| && m < |b| {
        assert a[k] == b[k] && a[m] == b[m];
      }
    }
  }

  /** Appending a position the list does not hold yet extends it freshly. */
  lemma GrowFreshlyExtends(word: Word, ledger: Ledger, letter: char, p: int)
    requires letter in ledger && 1 <= p <= |word| && word[p - 1] == letter && p !in ledger[letter]
    ensures forall c :: c in ledger ==> FreshlyExtends(ledger[letter := ledger[letter] + [p]][c], ledger[c], word, c)
  {
    GrowExtends(word, ledger, letter, p);
    var grown := ledger[letter := ledger[letter] + [p]];
    forall c | c in ledger ensures FreshlyExtends(grown[c], ledger[c], word, c) {
      if c == letter {
        forall m | 0 <= m < |ledger[c]| ensures grown[c][m] != p {
          assert grown[c][m] == ledger[c][m];
        }
      }
    }
  }

  /** With the 1-based comparison, every misplaced constraint claims a
      position its letter's list does not hold yet: two misplaced constraints
      on one letter are satisfied by two distinct occurrences. */
  lemma {:induction false} IntendedClaimDistinct(word: Word, ledger: Ledger, wrong: seq<Placed>)
    requires forall e :: e in wrong ==> e.letter in ledger
    requires IntendedClaim(word, ledger, wrong).Ok? && IntendedClaim(word, ledger, wrong).value.Some?
    ensures forall c :: c in ledger ==> FreshlyExtends(IntendedClaim(word, ledger, wrong).value.value[c], ledger[c], word, c)
    decreases |wrong|
  {
    if wrong == [] {
      forall c | c in ledger ensures FreshlyExtends(ledger[c], ledger[c], word, c) {
        assert ledger[c][..|ledger[c]|] == ledger[c];
      }
    } else {
      var e := wrong[0];
      var p := IntendedPosition(word, ledger, e.letter, e.pos).value;
      var grown := ledger[e.letter := ledger[e.letter] + [p]];
      assert IntendedClaim(word, ledger, wrong) == IntendedClaim(word, grown, wrong[1..]);
      assert forall f :: f in wrong[1..] ==> f.letter in grown by {
        assert forall f :: f in wrong[1..] ==> f in wrong;
      }
      IntendedClaimDistinct(word, grown, wrong[1..]);
      GrowFreshlyExtends(word, ledger, e.letter, p);
      var l := IntendedClaim(word, grown, wrong[1..]).value.value;
      forall c | c in ledger ensures FreshlyExtends(l[c], ledger[c], word, c) {
        FreshlyExtendsTrans(l[c], grown[c], ledger[c], word, c);
      }
    }
  }

  /** Every position claimed for any letter. */
  function Taken(ledger: Ledger): set<int> {
    set c, p | c in ledger && p in ledger[c] :: p
  }

  /** The letters of `word` at 1-based positions that nobody claimed. */
  function Remaining(word: Word, taken: set<int>): (r: seq<char>)
    ensures forall c :: c in r <==> exists i :: 0 <= i < |word| && i + 1 !in taken && word[i] == c
    decreases |word|
  {
    if word == [] then []
    else
      var n := |word| - 1;
      var rest := Remaining(word[..n], taken);
      assert forall i :: 0 <= i < n ==> word[..n][i] == word[i];
      if n + 1 in taken then rest else rest + [word[n]]
  }

  /** Whether `word` passes the misplaced and forbidden constraints, given the
      ledger seeded by the known letters. */
  function WordPossible(word: Word, ledger: Ledger, wrong: seq<Placed>, forbidden: set<char>): (r: Result<bool, FilterError>)
    requires forall e :: e in wrong ==> e.letter in ledger
    ensures (forall e :: e in wrong ==> e.pos <= |word|) ==> r.Ok?
    ensures r.Err? ==> exists e :: e in wrong && e.pos > |word| && r.error == PositionBeyondWord(e.letter, e.pos)
    ensures r == Ok(true) ==> forall e :: e in wrong ==>
      e.pos <= |word| && word[e.pos - 1] != e.letter &&
      exists i :: 0 <= i < |word| && word[i] == e.letter && i !in ledger[e.letter]
    ensures wrong != [] && wrong[0].pos <= |word| && word[wrong[0].pos - 1] == wrong[0].letter ==> r == Ok(false)
    ensures wrong == [] ==>
      r == Ok(forall i :: 0 <= i < |word| && word[i] in forbidden ==> i + 1 in Taken(ledger))
  {
    match Claim(word, ledger, wrong)
    case Err(e) => Err(e)
    case Ok(None) => Ok(false)
    case Ok(Some(claimed)) =>
      ClaimAccepted(word, ledger, wrong);
      Ok(forall f :: f in forbidden ==> f !in Remaining(word, Taken(claimed)))
  }

  /** `WordPossible` with `IntendedClaim` in place of `Claim`. */
  function IntendedWordPossible(word: Word, ledger: Ledger, wrong: seq<Placed>, forbidden: set<char>): (r: Result<bool, FilterError>)
    requires forall e :: e in wrong ==> e.letter in ledger
    ensures (forall e :: e in wrong ==> e.pos <= |word|) ==> r.Ok?
    ensures r.Err? ==> exists e :: e in wrong && e.pos > |word| && r.error == PositionBeyondWord(e.letter, e.pos)
    ensures r == Ok(true) ==> IntendedClaim(word, ledger, wrong).Ok? && IntendedClaim(word, ledger, wrong).value.Some?
  {
    match IntendedClaim(word, ledger, wrong)
    case Err(e) => Err(e)
    case Ok(None) => Ok(false)
    case Ok(Some(claimed)) => Ok(forall f :: f in forbidden ==> f !in Remaining(word, Taken(claimed)))
  }

  /** Claiming a list of constraints is claiming a prefix, then the rest
      against the ledger the prefix produced. */
  lemma {:induction false} ClaimSplit(word: Word, ledger: Ledger, wrong: seq<Placed>, k: nat)
    requires forall e :: e in wrong ==> e.letter in ledger
    requires k <= |wrong|
    ensures forall e :: e in wrong[..k] ==> e.letter in ledger
    ensures Claim(word, ledger, wrong) ==
      match Claim(word, ledger, wrong[..k])
      case Ok(Some(l)) => Claim(word, l, wrong[k..])
      case other => other
    decreases k
  {
    assert forall e :: e in wrong[..k] ==> e in wrong;
    if k == 0 {
      assert wrong[k..] == wrong;
    } else {
      var e := wrong[0];
      assert wrong[..k][0] == e && wrong[..k][1..] == wrong[1..][..k - 1];
      assert wrong[1..][k - 1..] == wrong[k..];
      match PossiblePosition(word, ledger, e.letter, e.pos)
      case Err(_) =>
      case Ok(p) =>
        if p > 0 {
          var grown := ledger[e.letter := ledger[e.letter] + [p]];
          assert forall f :: f in wrong[1..] ==> f in wrong;
          ClaimSplit(word, grown, wrong[1..], k - 1);
        }
    }
  }

  /** The verdict is false as soon as one misplaced constraint resolves to 0
      after the earlier ones all resolved. */
  lemma WordPossibleStopsAtZero(word: Word, ledger: Ledger, wrong: seq<Placed>, forbidden: set<char>, k: nat)
    requires forall e :: e in wrong ==> e.letter in ledger
    requires k < |wrong|
    requires var c := Claim(word, ledger, wrong[..k]);
      c.Ok? && c.value.Some? && PossiblePosition(word, c.value.value, wrong[k].letter, wrong[k].pos) == Ok(0)
    ensures WordPossible(word, ledger, wrong, forbidden) == Ok(false)
  {
    ClaimSplit(word, ledger, wrong, k);
    assert wrong[k..][0] == wrong[k];
  }

  /** No forbidden letter is left over exactly when each forbidden letter of
      the word sits at a taken position. */
  lemma RemainingForbidden(word: Word, taken: set<int>, forbidden: set<char>)
    ensures (forall f :: f in forbidden ==> f !in Remaining(word, taken)) <==>
            (forall i :: 0 <= i < |word| && word[i] in forbidden ==> i + 1 in taken)
  {
    var rest := Remaining(word, taken);
    if forall f :: f in forbidden ==> f !in rest {
      forall i | 0 <= i < |word| && word[i] in forbidden ensures i + 1 in taken {
        assert word[i] !in rest;
      }
    }
  }

  /** The claimed ledger takes every position the caller's ledger took. */
  lemma ClaimKeepsTaken(word: Word, ledger: Ledger, wrong: seq<Placed>)
    requires forall e :: e in wrong ==> e.letter in ledger
    requires Claim(word, ledger, wrong).Ok? && Claim(word, ledger, wrong).value.Some?
    ensures Taken(ledger) <= Taken(Claim(word, ledger, wrong).value.value)
  {
    var claimed := Claim(word, ledger, wrong).value.value;
    ClaimExtends(word, ledger, wrong);
    forall p | p in Taken(ledger) ensures p in Taken(claimed) {
      var c :| c in ledger && p in ledger[c];
      var k :| 0 <= k < |ledger[c]| && ledger[c][k] == p;
      assert c in claimed && Extends(claimed[c], ledger[c], word, c);
      assert claimed[c][..|ledger[c]|][k] == p;
      assert claimed[c][k] == p;
      assert p in claimed[c];
    }
  }

  /** A word whose misplaced constraints all resolve is accepted exactly when
      every forbidden letter it holds sits at a claimed position; the claimed
      positions include every position of the caller's ledger. */
  lemma WordPossibleForbidden(word: Word, ledger: Ledger, wrong: seq<Placed>, forbidden: set<char>)
    requires forall e :: e in wrong ==> e.letter in ledger
    requires Claim(word, ledger, wrong).Ok? && Claim(word, ledger, wrong).value.Some?
    ensures var claimed := Claim(word, ledger, wrong).value.value;
      Taken(ledger) <= Taken(claimed) &&
      WordPossible(word, ledger, wrong, forbidden) ==
        Ok(forall i :: 0 <= i < |word| && word[i] in forbidden ==> i + 1 in Taken(claimed))
  {
    ClaimKeepsTaken(word, ledger, wrong);
    RemainingForbidden(word, Taken(Claim(word, ledger, wrong).value.value), forbidden);
  }

  method IsWordPossible(word: Word, ledger: Ledger, wrong: seq<Placed>, forbidden: set<char>)
    returns (r: Result<bool, FilterError>)
    requires forall e :: e in wrong ==> e.letter in ledger
    ensures r == WordPossible(word, ledger, wrong, forbidden)
  {
    var claimed := ledger;
    for k := 0 to |wrong|
      invariant claimed.Keys == ledger.Keys
      invariant Claim(word, ledger, wrong) == Claim(word, claimed, wrong[k..])
    {
      var e := wrong[k];
      assert wrong[k..][1..] == wrong[k + 1..];
      var p := DetectPossiblePosition(word, claimed, e.letter, e.pos);
      if p.Err? {
        return Err(p.error);
      }
      if p.value > 0 {
        claimed := claimed[e.letter := claimed[e.letter] + [p.value]];
      } else {
        return Ok(false);
      }
    }
    var remaining := Remaining(word, Taken(claimed));
    var rest := forbidden;
    while rest != {}
      invariant rest <= forbidden
      invariant forall f :: f in forbidden - rest ==> f !in remaining
      decreases |rest|
    {
      var f :| f in rest;
      if f in remaining {
        return Ok(false);
      }
      rest := rest - {f};
    }
    return Ok(true);
  }

  /** The words of the pool that pass WordPossible, in order; the first error
      raised by a word is propagated. */
  function KeepPossibleWords(words: seq<Word>, ledger: Ledger, wrong: seq<Placed>, forbidden: set<char>)
    : (r: Result<seq<Word>, FilterError>)
    requires forall e :: e in wrong ==> e.letter in ledger
    ensures r.Ok? ==> IsSubseq(r.value, words)
    ensures r.Ok? ==> forall w :: w in r.value <==> w in words && WordPossible(w, ledger, wrong, forbidden) == Ok(true)
    ensures r.Ok? <==> forall w :: w in words ==> WordPossible(w, ledger, wrong, forbidden).Ok?
    ensures r.Err? ==> exists w :: w in words && WordPossible(w, ledger, wrong, forbidden) == Err(r.error)
    ensures r.Ok? ==> r.value == Filter(words, (w: Word) => WordPossible(w, ledger, wrong, forbidden) == Ok(true))
    decreases |words|
  {
    if words == [] then Ok([])
    else
      var w := words[|words| - 1];
      assert words == words[..|words| - 1] + [w];
      match KeepPossibleWords(words[..|words| - 1], ledger, wrong, forbidden)
      case Err(e) => Err(e)
      case Ok(kept) =>
        match WordPossible(w, ledger, wrong, forbidden)
        case Err(e) => Err(e)
        case Ok(possible) =>
          SubseqSnoc(kept, words[..|words| - 1], w);
          Ok(if possible then kept + [w] else kept)
  }

  // ---------------------------------------------------------------------------
  // The whole filter

  predicate LettersAreUpper(cs: seq<Placed>) {
    forall e :: e in cs ==> IsLetter(e.letter)
  }

  /** A word that survives every stage of the filter. */
  predicate Survives(w: Word, wordLen: int, known: seq<Placed>, wrong: seq<Placed>, forbidden: set<char>)
    requires LettersAreUpper(known) && LettersAreUpper(wrong)
  {
    |w| == wordLen && HasKnownLetters(w, known) &&
    WordPossible(w, KnownLedger(known), wrong, forbidden) == Ok(true)
  }

  function PossibleWords(words: seq<Word>, wordLen: int, known: seq<Placed>, wrong: seq<Placed>, forbidden: set<char>)
    : (r: Result<seq<Word>, FilterError>)
    requires LettersAreUpper(known) && LettersAreUpper(wrong)
  {
    match KeepWordsWithLen(words, wordLen)
    case Err(e) => Err(e)
    case Ok(sized) =>
      match KeepWordsWithKnownLetters(sized, known)
      case Err(e) => Err(e)
      case Ok(pool) =>
        if pool == [] then Err(NoWordWithKnownLetters)
        else KeepPossibleWords(pool, KnownLedger(known), wrong, forbidden)
  }

  /** The filter keeps exactly the surviving words, each copy of a repeated
      word included, in dictionary order; an empty result after the misplaced
      and forbidden stages is returned, not raised. */
  lemma PossibleWordsKeeps(words: seq<Word>, wordLen: int, known: seq<Placed>, wrong: seq<Placed>, forbidden: set<char>)
    requires LettersAreUpper(known) && LettersAreUpper(wrong)
    ensures var r := PossibleWords(words, wordLen, known, wrong, forbidden);
      r.Ok? ==>
        r.value == Filter(words, (w: Word) => Survives(w, wordLen, known, wrong, forbidden)) &&
        IsSubseq(r.value, words) &&
        (forall w :: w in r.value <==> w in words && Survives(w, wordLen, known, wrong, forbidden)) &&
        exists w :: w in words && |w| == wordLen && HasKnownLetters(w, known)
  {
    var sized := KeepWordsWithLen(words, wordLen);
    if sized.Ok? {
      var pool := KeepWordsWithKnownLetters(sized.value, known);
      if pool.Ok? && pool.value != [] {
        var ledger := KnownLedger(known);
        var r := KeepPossibleWords(pool.value, ledger, wrong, forbidden);
        if r.Ok? {
          SubseqTrans(pool.value, sized.value, words);
          SubseqTrans(r.value, pool.value, words);
          assert pool.value[0] in pool.value;
          FilterCompose(words, (w: Word) => |w| == wordLen, (w: Word) => HasKnownLetters(w, known),
                        (w: Word) => |w| == wordLen && HasKnownLetters(w, known));
          FilterCompose(words, (w: Word) => |w| == wordLen && HasKnownLetters(w, known),
                        (w: Word) => WordPossible(w, ledger, wrong, forbidden) == Ok(true),
                        (w: Word) => Survives(w, wordLen, known, wrong, forbidden));
        }
      }
    }
  }

  /** When the filter raises: no word of the length; a known letter beyond the
      word length; no word with the known letters; a misplaced position beyond
      the word length reached by some word. */
  lemma PossibleWordsRaises(words: seq<Word>, wordLen: int, known: seq<Placed>, wrong: seq<Placed>, forbidden: set<char>)
    requires LettersAreUpper(known) && LettersAreUpper(wrong)
    ensures var r := PossibleWords(words, wordLen, known, wrong, forbidden);
      (r == Err(NoWordOfLength(wordLen)) <==> forall w :: w in words ==> |w| != wordLen) &&
      (r.Err? && r.error.PositionBeyondWord? ==>
         (exists e :: e in known && e.pos > wordLen) || (exists e :: e in wrong && e.pos > wordLen)) &&
      ((exists w :: w in words && |w| == wordLen) && (exists e :: e in known && e.pos > wordLen) ==> r.Err?) &&
      ((forall e :: e in known + wrong ==> e.pos <= wordLen) ==>
         (r.Err? <==> forall w :: w in words && |w| == wordLen ==> !HasKnownLetters(w, known)))
  {
    var r := PossibleWords(words, wordLen, known, wrong, forbidden);
    var sized := KeepWordsWithLen(words, wordLen);
    if sized.Ok? {
      KnownLettersRaise(sized.value, known);
      var pool := KeepWordsWithKnownLetters(sized.value, known);
      if pool.Ok? && pool.value != [] {
        var ledger := KnownLedger(known);
        var kept := KeepPossibleWords(pool.value, ledger, wrong, forbidden);
        assert pool.value[0] in pool.value;
        if kept.Err? {
          var w :| w in pool.value && WordPossible(w, ledger, wrong, forbidden) == Err(kept.error);
          assert |w| == wordLen;
        }
        if forall e :: e in known + wrong ==> e.pos <= wordLen {
          assert forall e :: e in wrong ==> e in known + wrong;
          assert forall w :: w in pool.value ==> WordPossible(w, ledger, wrong, forbidden).Ok?;
        }
      } else if pool.Err? {
        var e :| e in known && pool.error == PositionBeyondWord(e.letter, e.pos) &&
                 exists w :: w in sized.value && |w| < e.pos;
        assert e in known + wrong;
      } else {
        if exists e :: e in known && e.pos > wordLen {
          assert r.Err?;
        }
      }
    }
  }

  method GetPossibleWords(words: seq<Word>, wordLen: int, known: seq<Placed>, wrong: seq<Placed>, forbidden: set<char>)
    returns (r: Result<seq<Word>, FilterError>)
    requires LettersAreUpper(known) && LettersAreUpper(wrong)
    ensures r == PossibleWords(words, wordLen, known, wrong, forbidden)
  {
    var sized := KeepWordsWithLen(words, wordLen);
    if sized.Err? {
      return Err(sized.error);
    }
    var possible := sized.value;
    var ledger := EmptyLedger();
    for k := 0 to |known|
      invariant ledger == KnownLedger(known[..k])
      invariant KeepWordsWithKnownLetters(sized.value, known[..k]) == Ok(possible)
    {
      var e := known[k];
      KnownStep(sized.value, known, k);
      ledger := ledger[e.letter := ledger[e.letter] + [e.pos]];
      var kept := KeepWordsWithKnownLetter(possible, e.letter, e.pos);
      if kept.Err? {
        KnownStageErrorPropagates(sized.value, known, k + 1);
        return Err(kept.error);
      }
      possible := kept.value;
    }
    assert known[..|known|] == known;
    if possible == [] {
      return Err(NoWordWithKnownLetters);
    }
    r := SelectPossibleWords(possible, ledger, wrong, forbidden);
  }

  /** The comprehension over the remaining words: keep each word that
      `IsWordPossible` accepts, in order; the first word it raises on ends the
      filter with that error. */
  method SelectPossibleWords(words: seq<Word>, ledger: Ledger, wrong: seq<Placed>, forbidden: set<char>)
    returns (r: Result<seq<Word>, FilterError>)
    requires forall e :: e in wrong ==> e.letter in ledger
    ensures r == KeepPossibleWords(words, ledger, wrong, forbidden)
  {
    var kept: seq<Word> := [];
    for i := 0 to |words|
      invariant KeepPossibleWords(words[..i], ledger, wrong, forbidden) == Ok(kept)
    {
      KeepPossibleStep(words, ledger, wrong, forbidden, i);
      var ok := IsWordPossible(words[i], ledger, wrong, forbidden);
      if ok.Err? {
        KeepPossibleErrorPropagates(words, ledger, wrong, forbidden, i + 1);
        return Err(ok.error);
      }
      if ok.value {
        kept := kept + [words[i]];
      }
    }
    assert words[..|words|] == words;
    return Ok(kept);
  }

  /** One more known letter: one more append to the ledger and one more filter. */
  lemma KnownStep(words: seq<Word>, known: seq<Placed>, k: nat)
    requires k < |known| && LettersAreUpper(known)
    ensures KnownLedger(known[..k + 1]) ==
      KnownLedger(known[..k])[known[k].letter := KnownLedger(known[..k])[known[k].letter] + [known[k].pos]]
    ensures KeepWordsWithKnownLetters(words, known[..k + 1]) ==
      match KeepWordsWithKnownLetters(words, known[..k])
      case Err(e) => Err(e)
      case Ok(kept) => KeepWordsWithKnownLetter(kept, known[k].letter, known[k].pos)
  {
    assert known[..k + 1][..k] == known[..k];
    assert known[..k + 1][k] == known[k];
  }

  /** One more word of the pool: it is kept when WordPossible accepts it. */
  lemma KeepPossibleStep(words: seq<Word>, ledger: Ledger, wrong: seq<Placed>, forbidden: set<char>, i: nat)
    requires forall e :: e in wrong ==> e.letter in ledger
    requires i < |words|
    ensures KeepPossibleWords(words[..i + 1], ledger, wrong, forbidden) ==
      match KeepPossibleWords(words[..i], ledger, wrong, forbidden)
      case Err(e) => Err(e)
      case Ok(kept) =>
        match WordPossible(words[i], ledger, wrong, forbidden)
        case Err(e) => Err(e)
        case Ok(possible) => Ok(if possible then kept + [words[i]] else kept)
  {
    assert words[..i + 1][..i] == words[..i];
    assert words[..i + 1][i] == words[i];
  }

  /** An error in the known-letter stage on a prefix of the constraints is the
      error of the whole stage. */
  lemma {:induction false} KnownStageErrorPropagates(words: seq<Word>, known: seq<Placed>, k: nat)
    requires k <= |known|
    requires KeepWordsWithKnownLetters(words, known[..k]).Err?
    ensures KeepWordsWithKnownLetters(words, known) == KeepWordsWithKnownLetters(words, known[..k])
    decreases |known| - k
  {
    if k < |known| {
      assert known[..k + 1][..k] == known[..k];
      KnownStageErrorPropagates(words, known, k + 1);
    } else {
      assert known[..k] == known;
    }
  }

  /** An error raised by a word of a prefix of the pool is the error of the
      whole pool. */
  lemma {:induction false} KeepPossibleErrorPropagates(words: seq<Word>, ledger: Ledger, wrong: seq<Placed>, forbidden: set<char>, i: nat)
    requires forall e :: e in wrong ==> e.letter in ledger
    requires i <= |words|
    requires KeepPossibleWords(words[..i], ledger, wrong, forbidden).Err?
    ensures KeepPossibleWords(words, ledger, wrong, forbidden) == KeepPossibleWords(words[..i], ledger, wrong, forbidden)
    decreases |words| - i
  {
    if i < |words| {
      assert words[..i + 1][..i] == words[..i];
      KeepPossibleErrorPropagates(words, ledger, wrong, forbidden, i + 1);
    } else {
      assert words[..i] == words;
    }
  }
}
