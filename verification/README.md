# SUTOM solver, modelled in Dafny

This project models the solver in `main.py` of the sutom_marc repository. The
solver plays SUTOM, a French word-guessing game: the first letter of the
secret is given; each guess has the secret's length; the feedback marks
letters as correct (right place), misplaced (elsewhere in the secret) or
absent. The solver keeps a pool of candidate words. It filters the pool with
the feedback, picks a word, scores it against the secret, and repeats until
the pick is the secret.

The model follows the solver's three parts:

- `words.dfy`: the shared vocabulary (`Words`) and subsequence facts (`Seqs`).
  - A word is a string of upper-case letters.
  - A constraint `{L: pos}` is a `Placed(letter, pos)` with a 1-based position.
  - The exceptions the code raises become the `Err` side of a `Result`.
- `filter.dfy` (`Filter`): the candidate filter `get_possible_words` and its helpers.
  - Pure stages are functions: length, known letters, and the misplaced/forbidden check per word.
  - The loops are methods proved equal to those functions: the position scan, the per-word claiming loop, and the filter itself.
  - The ledger of claimed positions is a `map<char, seq<int>>` value. The deep copy at main.py:52 is value semantics: a caller's ledger never changes.
  - Its 1-based entries are compared with a 0-based index, exactly as at main.py:45.
- `scoring.dfy` (`Scoring`): the feedback engine.
  - `get_correct_letters` is a function.
  - `get_wrong_place_and_forbidden_letters` is a method over two `char` arrays that are overwritten in place. It is proved equal to a specification: mask the exact matches, then scan.
  - The scan is proved to keep an invariant. From it follow the misplaced and forbidden properties, including that each secret occurrence is consumed at most once.
- `session.dfy` (`Sutom`): the session driver.
  - `run_sutom` is a method with the source's `while` loop. It is proved equal to `Session`, which plays rounds (`Advance`) until the pick is the secret.
  - The dictionary and the ranking are parameters.
  - The loop terminates because a guess that missed always drops out of the next pool. `run_challenge` maps sessions over several secrets.
- `feedback_examples.dfy`, `filter_examples.dfy`, `session_examples.dfy`: concrete cases worked through in the model.
  - the SURDITE feedback from the repository's session test;
  - the Z-slice filter tests;
  - a full session that fails although the secret is in the dictionary;
  - a word where one occurrence satisfies two misplaced constraints, and is rejected once the position comparison is 1-based on both sides;
  - a guess with a repeated letter, where the first unmatched occurrence is the one reported misplaced;
  - a word that one more constraint lets back into the pool.

## Where the code and its intent disagree

The model follows the code in each case.

1. **The secret can be filtered out by its own feedback.**
   - The repository's session tests (test_sutom.py:39-53) expect every session to end on its secret. The code does not guarantee this.
   - The session seeds the known letters with the secret's first letter only (main.py:159). It never feeds back the correct letters computed at main.py:172.
   - A letter that is correct at one position and extra at another is reported forbidden (main.py:154). When the secret holds that letter at a position other than the first, that occurrence sits at an unclaimed position, so the filter rejects the secret (main.py:64-74). Position 1 is claimed by the seed (main.py:83-90, 159), so an occurrence there does not reject it.
   - With dictionary `[TASSE, TASTE]` and secret `TASTE`: TASSE is picked, S becomes forbidden, and both words are filtered out.
   - The picked word is then taken from an empty pool. In the code this is an `IndexError` at main.py:121; the model reports it as `NoCandidate`.
   - `SessionExamples.TasteSession` proves the session ends this way when the ranking picks the pool's first word.
   - The source's T/R/E ranking picks TASSE too: its formula gives TASSE (1 + 0 + 1)/3 and TASTE (0.66 + 0 + 1)/3. That ranking itself is not part of the model.
   - A correction would have to feed the correct letters back as known letters, or stop forbidding a letter the secret still holds. Either changes how the solver plays, so no corrected session is modelled.
2. **One occurrence can satisfy two misplaced constraints.**
   - The comment at main.py:42 asks for the letter "somewhere else, if the letter was not already taken into account": a misplaced constraint should not reuse a position already claimed for the same letter.
   - The code compares the 0-based index `letter_position` with the 1-based positions in the ledger (main.py:45). A claimed position p therefore shields index p, not the letter at p.
   - `FilterExamples.DoubleClaim` proves that TASTE, which has a single E, passes two misplaced constraints E@1 and E@2: both resolve to position 5.
   - The comparison the comment describes is modelled as `Filter.IntendedPosition`, `Filter.IntendedClaim` and `Filter.IntendedWordPossible`, which test the 1-based position `i + 1`.
   - `Filter.IntendedClaimDistinct` proves that each position they claim is an occurrence of the letter that its list did not hold. So two misplaced constraints on one letter claim two distinct occurrences.
   - `FilterExamples.IntendedDoubleClaimRejected` proves that TASTE is then rejected by E@1 and E@2.
   - The rest of the model keeps the comparison as written.
3. **Filtering a filtered pool again** gives the same pool, except when the first filter left nothing. The length stage then raises (main.py:13-14): see `FilterExamples.PossibleWordsIdempotent`.
4. **One more constraint can let a word back in.**
   - A misplaced letter claims a position of its letter (main.py:58-60). The forbidden check then skips every claimed position (main.py:64-74).
   - With dictionary `[TEA]` and E forbidden, the filter leaves nothing: TEA's E is at an unclaimed position.
   - Adding E misplaced at position 3 makes the E at position 2 claimed, and TEA passes.
   - So adding a constraint does not always narrow the filter. `FilterExamples.MoreConstraintsKeepMore` proves both results.
   - A filter that always narrows would need a different forbidden check, in which a position claimed by a misplaced letter does not exempt the occurrence there. That changes the solver's algorithm, so no corrected filter is modelled.

## Model

| member | source | states |
|---|---|---|
| Filter.EmptyLedger | main.py:83 | the fresh ledger has exactly one entry per upper-case letter, each empty |
| Filter.KeepWordsWithLen | main.py:10-16 | raises `NoWordOfLength` exactly when no word has the length; otherwise returns a non-empty list holding exactly the words of that length, every copy of a repeated word included, in input order |
| Filter.DoesWordContainKnownLetter | main.py:19-25 | raises exactly when the position is beyond the word; otherwise true iff the word has the letter at that 1-based position |
| Filter.KeepWordsWithKnownLetter | main.py:27-29 | raises exactly when some word is shorter than the position; otherwise returns exactly the words with the letter at that position, every copy of a repeated word included, in input order |
| Filter.KeepWordsWithKnownLetters | main.py:86-91 | the known-letter filters applied in order return exactly the words with every known letter in place, every copy of a repeated word included, in input order |
| Filter.KnownLettersRaise | main.py:21-23 | the known-letter stage cannot raise when every known position fits every word, and when it raises it names a known letter whose position exceeds some word |
| Filter.KnownLedger | main.py:83-90 | the seeded ledger has one entry per upper-case letter and lists position p for letter c exactly when `{c: p}` is a known letter |
| Filter.LastUnclaimed | main.py:43-46 | the result is the largest index below n holding the letter and not listed in the ledger (0-based index against the list as written), or -1 |
| Filter.PossiblePosition | main.py:32-48 | raises exactly when the excluded position is beyond the word; 0 when the word has the letter there; otherwise 0 iff every index holding the letter is listed, else one more than the last unlisted such index, within the word |
| Filter.DetectPossiblePosition | main.py:32-48 | the overwriting scan loop returns what `PossiblePosition` specifies |
| Filter.Claim | main.py:54-62 | claiming raises only for a misplaced position beyond the word, cannot raise when all fit, and keeps the ledger's letters |
| Filter.ClaimAccepted | main.py:54-62 | when every misplaced constraint resolves, each names a letter absent from its own position and present at an index the ledger does not list |
| Filter.ClaimExtends | main.py:58-60 | claiming only appends to each letter's list, and only 1-based positions where the word holds that letter |
| Filter.ClaimSplit | main.py:54-62 | claiming a list is claiming a prefix and then the rest from the ledger the prefix produced |
| Filter.WordPossibleStopsAtZero | main.py:58-62 | the word is rejected as soon as one misplaced constraint resolves to 0 after the earlier ones resolved |
| Filter.LastUnclaimedPosition | main.py:42-46 | the largest index below n holding the letter whose 1-based position is not listed, or -1: the comparison the comment at main.py:42 describes |
| Filter.IntendedPosition | main.py:32-48 | as `PossiblePosition`, but with the 1-based comparison: a positive result is an occurrence of the letter whose position the ledger does not list yet |
| Filter.IntendedClaim | main.py:54-62 | as `Claim`, with `IntendedPosition`: raises only for a misplaced position beyond the word and keeps the ledger's letters |
| Filter.FreshlyExtendsTrans | main.py:58-60 | proof step for `IntendedClaimDistinct`: fresh extensions compose |
| Filter.GrowFreshlyExtends | main.py:58-60 | proof step for `IntendedClaimDistinct`: appending a position a list does not hold extends it freshly |
| Filter.IntendedClaimDistinct | main.py:42-60 | with the 1-based comparison, every claimed position is an occurrence of the letter that differs from every other entry of its list, so two misplaced constraints on one letter claim distinct occurrences |
| Filter.IntendedWordPossible | main.py:51-76 | the verdict with `IntendedClaim`: raises only for a misplaced position beyond the word, and accepts only when every misplaced constraint claimed a position |
| Filter.Taken | main.py:65-67 | the positions claimed by any letter of the ledger; used by `WordPossibleForbidden` and `ClaimKeepsTaken` |
| Filter.Remaining | main.py:69-70 | the letters kept are exactly those at 1-based positions outside the claimed set |
| Filter.RemainingForbidden | main.py:69-74 | no forbidden letter is left over iff every forbidden letter of the word sits at a claimed position |
| Filter.ClaimKeepsTaken | main.py:52-67 | the claimed positions include every position of the caller's ledger |
| Filter.WordPossibleForbidden | main.py:64-76 | once the misplaced constraints resolve, the word is accepted iff every forbidden letter it holds sits at a position claimed by some letter |
| Filter.WordPossible | main.py:51-76 | the verdict raises only for a misplaced position beyond the word; acceptance implies each misplaced letter is elsewhere and unclaimed; a misplaced letter at its own position rejects; with no misplaced letters, acceptance iff each forbidden letter is at a ledger position |
| Filter.IsWordPossible | main.py:51-76 | the claiming loop with early returns and the forbidden loop compute `WordPossible` |
| Filter.KeepPossibleWords | main.py:96-98 | succeeds iff no word raises, and then returns exactly the words the verdict accepts, every copy included, in input order; an error is the error of some word |
| Filter.PossibleWords | main.py:79-100 | the filter as stages: length, then the known letters in order, a raise when none is left, then the per-word verdict; what it returns is stated by `PossibleWordsKeeps`, when it raises by `PossibleWordsRaises` |
| Filter.PossibleWordsKeeps | main.py:79-100 | a successful filter returns exactly the input words that survive all stages, every copy of a repeated word included, in input order; some word had the length and known letters, so an empty result is returned, not raised |
| Filter.PossibleWordsRaises | main.py:79-100 | the filter raises `NoWordOfLength` iff no word has the length; a position error names a constraint beyond the length; with positions within the length it raises iff no word of the length has the known letters |
| Filter.GetPossibleWords | main.py:79-100 | the ledger-building, reassigning loop computes `PossibleWords` |
| Filter.SelectPossibleWords | main.py:96-100 | the comprehension over the remaining words computes `KeepPossibleWords` |
| Filter.KnownStep | main.py:86-91 | proof step for `GetPossibleWords`: the specification unfolded by one iteration of the known-letter loop |
| Filter.KeepPossibleStep | main.py:96-98 | proof step for `SelectPossibleWords`: the specification unfolded by one word of the comprehension |
| Filter.KnownStageErrorPropagates | main.py:86-91 | an error on a prefix of the known letters is the error of the whole stage |
| Filter.KeepPossibleErrorPropagates | main.py:96-98 | an error on a prefix of the pool is the error of the whole comprehension |
| Scoring.GetCorrectLetters | main.py:124-129 | at most as many correct letters as positions compared |
| Scoring.CorrectUpTo | main.py:125-128 | the correct letters among the first n positions, appended in order; stated by `CorrectUpToSoundAt`, `CorrectUpToComplete` and `CorrectUpToAscending` |
| Scoring.CorrectUpToSoundAt | main.py:126-128 | each reported correct letter among the first n is a position where guess and secret agree on that letter |
| Scoring.CorrectUpToComplete | main.py:126-128 | every agreeing position among the first n is reported |
| Scoring.CorrectUpToAscending | main.py:126-128 | the correct letters come in ascending position order |
| Scoring.CorrectLetters | main.py:124-129 | `(L, i+1)` is reported exactly for the indices where the words agree, in ascending order |
| Scoring.CorrectWithin | main.py:124-129 | correct positions lie within the shorter word |
| Scoring.CorrectPositions | main.py:124-129 | position i+1 is correct iff guess and secret agree at index i |
| Scoring.Mask | main.py:136-140 | a word with the named positions overwritten by `'-'`; `MaskCorrect` computes it in place |
| Scoring.FirstIndex | main.py:148-151 | the index of the first occurrence of the letter |
| Scoring.Scan | main.py:142-151 | the scan from position j on; its meaning is stated by `ScanKeepsInv` and `ScanKeepsCounts` |
| Scoring.WrongPlaceAndForbidden | main.py:131-155 | mask, scan, and the letters left in the guess as the forbidden set; computed in place by `GetWrongPlaceAndForbiddenLetters` |
| Scoring.Score | main.py:172-173 | the feedback of one guess: correct letters, then misplaced and forbidden ones; stated by `CorrectLetters`, `ScoreMisplaced`, `ScoreMisplacedCount`, `ScoreMisplacedLeftmost`, `ScoreForbidden` and `ScoreForbiddenExhausted` |
| Scoring.MaskCorrect | main.py:136-140 | both letter arrays end up with every correct position overwritten by `'-'` |
| Scoring.ConsumeFirst | main.py:148-151 | the first occurrence of the letter, and nothing else, is overwritten by `'-'` |
| Scoring.GetWrongPlaceAndForbiddenLetters | main.py:131-155 | the masking loop, the scan with its inner search and `break`, and the final set compute `WrongPlaceAndForbidden` |
| Scoring.UnmatchedCount | main.py:136-140 | masking the exact matches removes exactly the exact matches of each letter from the secret |
| Scoring.ScanMisplacedStep | main.py:144-151 | reporting a misplaced letter and consuming its first occurrence keeps the scan invariant |
| Scoring.ScanKeepsInv | main.py:142-151 | the scan keeps its invariant: reports name differing guess letters in ascending order, and each consumed secret occurrence is paid for by one report |
| Scoring.ScanCountsMisplaced | main.py:144-151 | reporting a letter keeps the counts: one guess occurrence is blanked per report, and consuming a secret occurrence never brings a letter back |
| Scoring.ScanCountsSkip | main.py:143-144 | a position passed over keeps the counts: a guess letter still there has no occurrence left in the secret |
| Scoring.ScanKeepsCounts | main.py:142-151 | the scan keeps the counts: the guess side balances against the reports, and every unreported unmatched guess letter is used up in the secret |
| Scoring.ScanCountsStart | main.py:136-140 | the masked guess is the guess's unmatched letters, so the counts hold before the scan |
| Scoring.ScanStarts | main.py:136-140 | the masked words satisfy the scan invariant before the scan |
| Scoring.ScoreMisplaced | main.py:142-151 | each misplaced `(L, p)` has `guess[p-1] == L`, `secret[p-1] != L`, p not correct, and positions ascend |
| Scoring.ScoreMisplacedCount | main.py:142-151 | the number of misplaced reports of a letter is the smaller of its unmatched occurrences in the secret and in the guess |
| Scoring.ScoreForbiddenExhausted | main.py:142-154 | a letter is forbidden iff some unmatched occurrence of it in the guess was not reported; then all its unmatched occurrences in the secret were reported |
| Scoring.LeftmostStep | main.py:144-151 | a report keeps the reports leftmost: an earlier unreported occurrence of the letter would have left none of it in the secret |
| Scoring.ScanKeepsLeftmost | main.py:142-151 | the scan keeps every report at the leftmost unmatched occurrences of its letter |
| Scoring.ScoreLeftmost | main.py:131-155 | the reports of a whole score are sound and leftmost |
| Scoring.LeftmostPlaced | main.py:143-146 | in sound, leftmost reports, an earlier unmatched occurrence of a reported letter is itself a report |
| Scoring.ScoreMisplacedLeftmost | main.py:142-151 | an unmatched guess occurrence before a misplaced report of its letter is itself reported: the first unmatched occurrences are the ones reported |
| Scoring.ScoreForbidden | main.py:153-154 | forbidden is exactly the set of guess letters at positions neither correct nor misplaced |
| Scoring.ScanSame | main.py:143-151 | scanning a word against itself reports and consumes nothing |
| Scoring.ScoreSelf | main.py:124-155 | scoring the secret against itself marks every position correct, nothing misplaced, nothing forbidden |
| Scoring.ScoreWrongLetterForbidden | main.py:142-154 | with nothing misplaced, every letter the guess got wrong is forbidden |
| Scoring.ScoreFirstMisplaced | main.py:143-145 | the first misplaced report names the guess letter at its own position |
| Sutom.SeedLetters | main.py:159 | every seeded known letter is the secret's first letter at position 1 |
| Sutom.FeedbackLetters | main.py:143-145 | the misplaced letters of a feedback are upper-case letters |
| Sutom.SeedTaken | main.py:83-90 | the seeded ledger claims position 1 only |
| Sutom.MissFilterOk | main.py:166-168 | after a miss the next filter cannot raise |
| Sutom.MissRejected | main.py:51-76 | a guess that missed is rejected by the verdict on its own feedback, given the seeded ledger and any forbidden set holding its forbidden letters |
| Sutom.DropOut | main.py:165-177 | after a miss the next filter succeeds, drops the guess and strictly shrinks the pool |
| Sutom.Round | main.py:166-172 | a round with a non-empty pool picks a word of the secret's length and first letter from a subsequence of the pool |
| Sutom.Advance | main.py:166-177 | a round stops only with a filter error or an empty pool, and after a miss leaves a state from which play can go on, with a pool no larger and, after an earlier miss, smaller |
| Sutom.AdvanceFound | main.py:176-177 | a round ends the session only when the pick is the secret |
| Sutom.AdvanceMissed | main.py:166-170 | a missed pick is not the secret and came from a narrowed subsequence of the pool |
| Sutom.Play | main.py:165-179 | rounds from a given state until the pick is the secret or a round stops; stated by `PlayGuesses` and `PlayStops` |
| Sutom.PlayGuesses | main.py:165-179 | a finished session extends the attempts with distinct pool words ending with the secret |
| Sutom.PlayStops | main.py:165-179 | a session under way stops only with a filter error or an empty pool |
| Sutom.Session | main.py:157-179 | the dictionary as first pool, the first letter as the only known letter, nothing misplaced or forbidden; stated by `SessionGuesses` |
| Sutom.SessionGuesses | main.py:157-179 | a session fails as `EmptySecret` iff the secret is empty; a finished session's attempts are distinct dictionary words, no more than the dictionary holds, the last one the secret |
| Sutom.RunSutom | main.py:157-179 | the `while True` loop, narrowing the pool, replacing the misplaced letters and accumulating the forbidden ones, returns what `Session` specifies |
| Sutom.Tally | main.py:182 | the attempt counts of the sessions in order, the first failure ending the list; stated by `TallyCounts` |
| Sutom.TallyCounts | main.py:181-183 | a tally succeeds iff every session does, listing each session's attempt count, and otherwise reports the first failure |
| Sutom.RunChallenge | main.py:181-183 | one session per secret against the whole dictionary, tallied; stated by `ChallengeCounts` |
| Sutom.ChallengeCounts | main.py:181-183 | a challenge succeeds iff every session does; each count is that session's length, between 1 and the dictionary size |
| FilterExamples.KnownLettersKeepAll | main.py:86-91 | words that carry every known letter pass the known-letter stage whole |
| FilterExamples.KeepPossibleSelect | main.py:96-98 | with every verdict known, the stage selects the accepted words in order |
| FilterExamples.WordPossibleOne | main.py:54-76 | the verdict on one misplaced constraint: rejected when it resolves to 0, otherwise decided by forbidden letters outside the claimed positions |
| FilterExamples.AbsentRejected | main.py:42-48 | a misplaced letter the word lacks rejects the word |
| FilterExamples.NothingToCheck | main.py:51-76 | with nothing misplaced or forbidden the last stage keeps every word |
| FilterExamples.AllRejected | main.py:96-100 | when every word is rejected the filter returns an empty list, not an error |
| FilterExamples.PossibleWordsIdempotent | main.py:79-100 | refiltering a filtered pool with the same constraints returns the same pool, or raises `NoWordOfLength` when the pool is empty |
| FilterExamples.RefilterSurvivors | main.py:79-100 | a non-empty pool of surviving words passes the filter whole |
| FilterExamples.SurvivorsPassStages | main.py:80-91 | words of the right length holding every known letter pass the length and known-letter stages unchanged |
| FilterExamples.SurvivorsAccepted | main.py:96-100 | words the verdict accepts pass the last stage unchanged |
| FilterExamples.ZWordsMisplaced | test_sutom.py:18-22 | on the seven Z words with Z@1 and A@2, misplaced I@3 keeps ZAKOUSKI and ZANZIBAR |
| FilterExamples.ZWordsMisplacedAndForbidden | test_sutom.py:24-30 | misplaced I@5 with I forbidden keeps ZAIBATSU and ZAKOUSKI |
| FilterExamples.TasteFirstRound | main.py:79-100 | with only T@1 known, TASSE and TASTE both pass |
| FilterExamples.TasteSecondRound | main.py:64-74 | with S forbidden, neither TASSE nor TASTE passes |
| FilterExamples.DoubleClaim | main.py:44-46 | TASTE, with one E, passes the two misplaced constraints E@1 and E@2 |
| FilterExamples.IntendedFirstClaim | main.py:42-48 | with the 1-based comparison, the first misplaced E of TASTE still resolves to position 5 |
| FilterExamples.IntendedSecondClaim | main.py:42-48 | with the 1-based comparison, position 5 shields the only E, so the second misplaced E resolves to 0 |
| FilterExamples.IntendedDoubleClaimRejected | main.py:42-62 | with the 1-based comparison, TASTE is rejected by E@1 and E@2 |
| FilterExamples.TLedgerSeeded | main.py:83-90 | the ledger seeded by T@1 has an entry for E, and it is empty |
| FilterExamples.EmptySeedE | main.py:82-83 | with no known letters, the seeded ledger gives E an empty position list and nothing is taken |
| FilterExamples.TeaPosition | main.py:32-48 | with no known letters, a misplaced E at position 3 of TEA resolves to position 2 |
| FilterExamples.TeaForbidden | main.py:64-74 | TEA with E forbidden and nothing misplaced is rejected |
| FilterExamples.TeaMisplacedAndForbidden | main.py:54-76 | TEA with E forbidden and E misplaced at 3 is accepted: the misplaced E claims position 2 |
| FilterExamples.TeaFilteredOut | main.py:79-100 | with E forbidden, filtering [TEA] leaves nothing |
| FilterExamples.TeaReadmitted | main.py:79-100 | with E forbidden and E misplaced at 3, filtering [TEA] keeps TEA |
| FilterExamples.MoreConstraintsKeepMore | main.py:54-100 | adding a misplaced constraint turns an empty filter result into [TEA]: the filter is not monotone in its constraints |
| FeedbackExamples.SurditeFirstFeedback | test_sutom.py:39-41 | SABOTER against SURDITE: S@1 correct; T@5, E@6, R@7 misplaced; A, B, O forbidden |
| FeedbackExamples.SurditeSecondFeedback | test_sutom.py:39-41 | SCRIPTE against SURDITE: S@1, R@3, T@6, E@7 correct; I@4 misplaced; C, P forbidden |
| FeedbackExamples.SurditeConstraints | main.py:187 | the second feedback and the accumulated forbidden letters {A, B, O, C, P} are the constraints the entry point filters with |
| FeedbackExamples.TasseForbidden | main.py:131-155 | TASSE against TASTE: T@1, A@2, S@3, E@5 correct; nothing misplaced; S forbidden although TASTE holds an S |
| FeedbackExamples.CaabCorrect | main.py:124-129 | CAAB against ABDD has no correct letter |
| FeedbackExamples.CaabScan | main.py:142-151 | the scan of CAAB against ABDD reports A@2 and B@4, leaving C and the second A |
| FeedbackExamples.CaabFeedback | main.py:131-155 | CAAB against ABDD: A@2 and B@4 misplaced, C and A forbidden; the first A is the one reported |
| SessionExamples.FirstPicks | main.py:110-122 | the first-candidate ranking returns a member of a non-empty pool |
| SessionExamples.OneMissThenNoCandidate | main.py:165-177 | a session whose first pick misses with nothing misplaced, and whose next filter leaves nothing, ends with no candidate |
| SessionExamples.TasteSession | main.py:157-179 | with dictionary [TASSE, TASTE] and secret TASTE, the session ends with no candidate although the secret is in the dictionary |

## Left out

- `read_file_dict` (main.py:4-7) and the read inside `run_sutom` (main.py:158) are file I/O. The dictionary is a parameter.
- `get_proba_for_letter` and `get_best_word_from_possibilities` (main.py:102-122) rank with floating point. The ranking is a parameter `select`, assumed to return a member of a non-empty pool (`Picks`). An empty pool, where the code fails at main.py:121, is reported as `NoCandidate`.
- The `__main__` block (main.py:185-189) only prints. Its constraint set is checked by `FeedbackExamples.SurditeConstraints`.
- test_sutom.py calls functions that main.py does not define, and needs a dictionary file that is not part of this model. Only its hand-checkable cases are modelled: the Z-slice filters, and the feedback of the SURDITE session's guesses. The pools of that session depend on the dictionary file.
- Filter.PossibleWords and the per-word members: constraint letters must be upper-case (`LettersAreUpper`). In the code a letter outside A–Z raises `KeyError` at main.py:45 when it is a misplaced letter the word contains, or at main.py:90 when it is a known letter. A misplaced such letter that the word lacks only rejects the word (main.py:59-62). Neither case is modelled.
- Words.Position: positions are at least 1. In the code a position of 0 or less indexes from the end of the word; this is not modelled.
- Scoring.ScoreMisplaced, Scoring.ScoreMisplacedCount, Scoring.ScoreMisplacedLeftmost, Scoring.ScoreForbidden, Scoring.ScoreForbiddenExhausted and the session members: the guessed words must be upper-case words (`IsWord`). A word holding the `'-'` marker would be confused with masked letters; this is not modelled.
- Sutom.RunSutom: a session with an empty secret returns `EmptySecret`. The code raises `IndexError` at main.py:159 instead.
