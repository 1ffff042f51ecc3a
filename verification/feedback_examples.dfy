/** Concrete feedback: the rounds of the solver's SURDITE session and a
    guess whose feedback forbids letters the secret still holds. */
module FeedbackExamples {
  import opened Words
  import opened Scoring

  /** A scan position that reports nothing. */
  lemma ScanSkip(g: seq<char>, t: seq<char>, j: nat, wrong: seq<Placed>)
    requires |g| == |t| && j < |g|
    requires g[j] == t[j] || g[j] !in t
    ensures Scan(g, t, j, wrong) == Scan(g, t, j + 1, wrong)
  {
  }

  /** A scan position that reports a misplaced letter, consuming the first
      occurrence `k` in the secret. */
  lemma ScanMatch(g: seq<char>, t: seq<char>, j: nat, wrong: seq<Placed>, k: nat, g': seq<char>, t': seq<char>)
    requires |g| == |t| && j < |g| && k < |t|
    requires g[j] != t[j] && t[k] == g[j] && forall i :: 0 <= i < k ==> t[i] != g[j]
    requires g' == g[j := '-'] && t' == t[k := '-']
    ensures Scan(g, t, j, wrong) == Scan(g', t', j + 1, wrong + [Placed(g[j], j + 1)])
  {
    assert g[j] in t;
  }

  // ---------------------------------------------------------------------------
  // SABOTER against SURDITE

  /** Only S agrees with the secret. */
  lemma SaboterCorrect()
    ensures GetCorrectLetters("SABOTER", "SURDITE") == [Placed('S', 1)]
  {
    var g, s := "SABOTER", "SURDITE";
    assert CorrectUpTo(g, s, 1) == [Placed('S', 1)];
    assert CorrectUpTo(g, s, 2) == [Placed('S', 1)];
    assert CorrectUpTo(g, s, 3) == [Placed('S', 1)];
    assert CorrectUpTo(g, s, 4) == [Placed('S', 1)];
    assert CorrectUpTo(g, s, 5) == [Placed('S', 1)];
    assert CorrectUpTo(g, s, 6) == [Placed('S', 1)];
  }

  /** Masking the correct S in both words. */
  lemma SaboterMasks()
    ensures Mask("SABOTER", [Placed('S', 1)]) == "-ABOTER"
    ensures Mask("SURDITE", [Placed('S', 1)]) == "-URDITE"
  {
    assert Positions([Placed('S', 1)]) == {1};
  }

  /** A, B and O do not occur in the secret; T does, at index 5. */
  lemma SaboterScanHead()
    ensures Scan("-ABOTER", "-URDITE", 0, []) == Scan("-ABO-ER", "-URDI-E", 5, [Placed('T', 5)])
  {
    var g, t := "-ABOTER", "-URDITE";
    assert 'A' !in t && 'B' !in t && 'O' !in t;
    ScanSkip(g, t, 0, []);
    ScanSkip(g, t, 1, []);
    ScanSkip(g, t, 2, []);
    ScanSkip(g, t, 3, []);
    SaboterFirstMatch();
  }

  lemma SaboterFirstMatch()
    ensures Scan("-ABOTER", "-URDITE", 4, []) == Scan("-ABO-ER", "-URDI-E", 5, [Placed('T', 5)])
  {
    ScanMatch("-ABOTER", "-URDITE", 4, [], 5, "-ABO-ER", "-URDI-E");
    assert [] + [Placed('T', 5)] == [Placed('T', 5)];
  }

  /** E follows, consuming the secret's E. */
  lemma SaboterSecondMatch()
    ensures Scan("-ABO-ER", "-URDI-E", 5, [Placed('T', 5)]) ==
      Scan("-ABO--R", "-URDI--", 6, [Placed('T', 5), Placed('E', 6)])
  {
    ScanMatch("-ABO-ER", "-URDI-E", 5, [Placed('T', 5)], 6, "-ABO--R", "-URDI--");
    assert [Placed('T', 5)] + [Placed('E', 6)] == [Placed('T', 5), Placed('E', 6)];
  }

  /** R comes last, consuming the secret's R. */
  lemma SaboterThirdMatch()
    ensures Scan("-ABO--R", "-URDI--", 6, [Placed('T', 5), Placed('E', 6)]) ==
      ([Placed('T', 5), Placed('E', 6), Placed('R', 7)], "-ABO---", "-U-DI--")
  {
    ScanMatch("-ABO--R", "-URDI--", 6, [Placed('T', 5), Placed('E', 6)], 2, "-ABO---", "-U-DI--");
    assert [Placed('T', 5), Placed('E', 6)] + [Placed('R', 7)] == [Placed('T', 5), Placed('E', 6), Placed('R', 7)];
  }

  /** The unmasked letters left of the guess. */
  lemma SaboterLeft()
    ensures (set i | 0 <= i < |"-ABO---"| && "-ABO---"[i] != '-' :: "-ABO---"[i]) == {'A', 'B', 'O'}
  {
    var left := "-ABO---";
    assert left[1] == 'A' && left[2] == 'B' && left[3] == 'O';
    assert forall i :: 0 <= i < |left| && left[i] != '-' ==> 1 <= i <= 3;
  }

  lemma SaboterRest()
    ensures WrongPlaceAndForbidden("SABOTER", "SURDITE", [Placed('S', 1)]) ==
      ([Placed('T', 5), Placed('E', 6), Placed('R', 7)], {'A', 'B', 'O'})
  {
    SaboterMasks();
    SaboterScanHead();
    SaboterSecondMatch();
    SaboterThirdMatch();
    SaboterLeft();
  }

  /** First round against SURDITE: S is correct, T, E and R are misplaced,
      A, B and O are forbidden. */
  lemma SurditeFirstFeedback()
    ensures Score("SABOTER", "SURDITE") ==
      Feedback([Placed('S', 1)], [Placed('T', 5), Placed('E', 6), Placed('R', 7)], {'A', 'B', 'O'})
  {
    SaboterCorrect();
    SaboterRest();
  }

  // ---------------------------------------------------------------------------
  // SCRIPTE against SURDITE

  /** S, R, T and E agree with the secret. */
  lemma ScripteCorrect()
    ensures GetCorrectLetters("SCRIPTE", "SURDITE") == [Placed('S', 1), Placed('R', 3), Placed('T', 6), Placed('E', 7)]
  {
    var g, s := "SCRIPTE", "SURDITE";
    assert CorrectUpTo(g, s, 1) == [Placed('S', 1)];
    assert CorrectUpTo(g, s, 2) == [Placed('S', 1)];
    assert CorrectUpTo(g, s, 3) == [Placed('S', 1), Placed('R', 3)];
    assert CorrectUpTo(g, s, 4) == [Placed('S', 1), Placed('R', 3)];
    assert CorrectUpTo(g, s, 5) == [Placed('S', 1), Placed('R', 3)];
    assert CorrectUpTo(g, s, 6) == [Placed('S', 1), Placed('R', 3), Placed('T', 6)];
  }

  lemma ScripteMasks()
    ensures Mask("SCRIPTE", [Placed('S', 1), Placed('R', 3), Placed('T', 6), Placed('E', 7)]) == "-C-IP--"
    ensures Mask("SURDITE", [Placed('S', 1), Placed('R', 3), Placed('T', 6), Placed('E', 7)]) == "-U-DI--"
  {
    assert Positions([Placed('S', 1), Placed('R', 3), Placed('T', 6), Placed('E', 7)]) == {1, 3, 6, 7};
  }

  /** C does not occur in the secret. */
  lemma ScripteScanSkips()
    ensures Scan("-C-IP--", "-U-DI--", 0, []) == Scan("-C-IP--", "-U-DI--", 3, [])
  {
    var g, t := "-C-IP--", "-U-DI--";
    ScanSkip(g, t, 0, []);
    assert forall i :: 0 <= i < |t| ==> t[i] != 'C';
    ScanSkip(g, t, 1, []);
    ScanSkip(g, t, 2, []);
  }

  /** I occurs in the secret, first at index 4. */
  lemma ScripteScanHead()
    ensures Scan("-C-IP--", "-U-DI--", 0, []) == Scan("-C--P--", "-U-D---", 4, [Placed('I', 4)])
  {
    var g, t := "-C-IP--", "-U-DI--";
    ScripteScanSkips();
    ScanMatch(g, t, 3, [], 4, "-C--P--", "-U-D---");
    assert [] + [Placed('I', 4)] == [Placed('I', 4)];
  }

  /** Nothing else is found: P does not occur in the secret. */
  lemma ScripteScanTail()
    ensures Scan("-C--P--", "-U-D---", 4, [Placed('I', 4)]) == ([Placed('I', 4)], "-C--P--", "-U-D---")
  {
    var g, t := "-C--P--", "-U-D---";
    ScanSkip(g, t, 4, [Placed('I', 4)]);
    ScanSkip(g, t, 5, [Placed('I', 4)]);
    ScanSkip(g, t, 6, [Placed('I', 4)]);
  }

  /** The unmasked letters left of the guess. */
  lemma ScripteLeft()
    ensures (set i | 0 <= i < |"-C--P--"| && "-C--P--"[i] != '-' :: "-C--P--"[i]) == {'C', 'P'}
  {
    var left := "-C--P--";
    assert left[1] == 'C' && left[4] == 'P';
    assert forall i :: 0 <= i < |left| && left[i] != '-' ==> i == 1 || i == 4;
  }

  lemma ScripteRest()
    ensures WrongPlaceAndForbidden("SCRIPTE", "SURDITE", [Placed('S', 1), Placed('R', 3), Placed('T', 6), Placed('E', 7)]) ==
      ([Placed('I', 4)], {'C', 'P'})
  {
    ScripteMasks();
    ScripteScanHead();
    ScripteScanTail();
    ScripteLeft();
  }

  /** Second round against SURDITE: four letters are correct, I is misplaced,
      C and P are forbidden. */
  lemma SurditeSecondFeedback()
    ensures Score("SCRIPTE", "SURDITE") ==
      Feedback([Placed('S', 1), Placed('R', 3), Placed('T', 6), Placed('E', 7)], [Placed('I', 4)], {'C', 'P'})
  {
    ScripteCorrect();
    ScripteRest();
  }

  /** After SABOTER and SCRIPTE against SURDITE, the latest feedback and the
      accumulated forbidden letters are the constraint set the solver's own
      entry point filters with. */
  lemma SurditeConstraints()
    ensures var first, second := Score("SABOTER", "SURDITE"), Score("SCRIPTE", "SURDITE");
      second.correct == [Placed('S', 1), Placed('R', 3), Placed('T', 6), Placed('E', 7)] &&
      second.wrong == [Placed('I', 4)] &&
      first.forbidden + second.forbidden == {'A', 'B', 'O', 'C', 'P'}
  {
    SurditeFirstFeedback();
    SurditeSecondFeedback();
  }

  // ---------------------------------------------------------------------------
  // TASSE against TASTE

  lemma TasseCorrect()
    ensures GetCorrectLetters("TASSE", "TASTE") == [Placed('T', 1), Placed('A', 2), Placed('S', 3), Placed('E', 5)]
  {
    var g, s := "TASSE", "TASTE";
    assert CorrectUpTo(g, s, 1) == [Placed('T', 1)];
    assert CorrectUpTo(g, s, 2) == [Placed('T', 1), Placed('A', 2)];
    assert CorrectUpTo(g, s, 3) == [Placed('T', 1), Placed('A', 2), Placed('S', 3)];
    assert CorrectUpTo(g, s, 4) == [Placed('T', 1), Placed('A', 2), Placed('S', 3)];
  }

  lemma TasseMasks()
    ensures Mask("TASSE", [Placed('T', 1), Placed('A', 2), Placed('S', 3), Placed('E', 5)]) == "---S-"
    ensures Mask("TASTE", [Placed('T', 1), Placed('A', 2), Placed('S', 3), Placed('E', 5)]) == "---T-"
  {
    var c := [Placed('T', 1), Placed('A', 2), Placed('S', 3), Placed('E', 5)];
    assert Positions(c) == {1, 2, 3, 5};
  }

  lemma TasseScan()
    ensures Scan("---S-", "---T-", 0, []) == ([], "---S-", "---T-")
  {
    var g, t := "---S-", "---T-";
    assert 'S' !in t;
  }

  /** The second S of TASSE has no partner left in TASTE, so S is forbidden
      although TASTE holds an S. */
  lemma TasseForbidden()
    ensures Score("TASSE", "TASTE") ==
      Feedback([Placed('T', 1), Placed('A', 2), Placed('S', 3), Placed('E', 5)], [], {'S'})
  {
    TasseCorrect();
    TasseMasks();
    TasseScan();
    var left := "---S-";
    assert left[3] == 'S';
  }

  // ---------------------------------------------------------------------------
  // CAAB against ABDD: which A is reported

  lemma CaabCorrect()
    ensures GetCorrectLetters("CAAB", "ABDD") == []
  {
    var g, s := "CAAB", "ABDD";
    assert CorrectUpTo(g, s, 1) == [];
    assert CorrectUpTo(g, s, 2) == [];
    assert CorrectUpTo(g, s, 3) == [];
  }

  lemma CaabScan()
    ensures Scan("CAAB", "ABDD", 0, []) == ([Placed('A', 2), Placed('B', 4)], "C-A-", "--DD")
  {
    var g, t := "CAAB", "ABDD";
    var g1, t1 := "C-AB", "-BDD";
    var g2, t2 := "C-A-", "--DD";
    var w1, w2 := [Placed('A', 2)], [Placed('A', 2), Placed('B', 4)];
    assert 'C' !in t;
    ScanSkip(g, t, 0, []);
    assert g[1] == 'A' && g1 == g[1 := '-'] && t1 == t[0 := '-'];
    ScanMatch(g, t, 1, [], 0, g1, t1);
    assert [] + [Placed('A', 2)] == w1;
    assert 'A' !in t1;
    ScanSkip(g1, t1, 2, w1);
    assert g1[3] == 'B' && g2 == g1[3 := '-'] && t2 == t1[1 := '-'];
    ScanMatch(g1, t1, 3, w1, 1, g2, t2);
    assert w1 + [Placed('B', 4)] == w2;
  }

  /** Of the two A's of CAAB the first is reported misplaced, the second
      forbidden: the secret's single A is used up by the first. */
  lemma CaabFeedback()
    ensures Score("CAAB", "ABDD") == Feedback([], [Placed('A', 2), Placed('B', 4)], {'C', 'A'})
  {
    CaabCorrect();
    assert Positions([]) == {};
    assert Mask("CAAB", []) == "CAAB" && Mask("ABDD", []) == "ABDD";
    CaabScan();
    var left := "C-A-";
    assert left[0] == 'C' && left[2] == 'A';
  }
}
