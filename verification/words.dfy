/** Letters, words and the one-entry `{letter: position}` constraints that the
    solver's components exchange. */
module Words {

  /** A dictionary word. The solver only ever sees upper-case words. */
  type Word = string

  /** A 1-based position into a word. Positions of zero or below would make the
      solver index from the end of the word, so they are excluded by type. */
  type Position = p: int | 1 <= p witness 1

  /** The upper-case alphabet, in order. */
  const Uppercase: string := "ABCDEFGHIJKLMNOPQRSTUVWXYZ"

  predicate IsLetter(c: char) {
    c in Uppercase
  }

  /** Upper-case letters only: in particular the `'-'` marker never occurs. */
  predicate IsWord(w: string) {
    forall i :: 0 <= i < |w| ==> IsLetter(w[i])
  }

  /** A constraint `{letter: pos}`: a known letter, a misplaced letter, or a
      correct letter reported by the feedback engine. */
  datatype Placed = Placed(letter: char, pos: Position)

  datatype Result<+T, +E> = Ok(value: T) | Err(error: E)

  datatype Option<+T> = None | Some(value: T)

  /** Number of occurrences of `c` in `w`. */
  function Count(w: seq<char>, c: char): (n: nat)
    ensures n <= |w|
  {
    if w == [] then 0 else Count(w[..|w| - 1], c) + (if w[|w| - 1] == c then 1 else 0)
  }

  /** Overwriting one cell changes the count of a letter by at most the cell. */
  lemma {:induction false} CountUpdate(w: seq<char>, k: nat, x: char, c: char)
    requires k < |w|
    ensures Count(w[k := x], c)
         == Count(w, c) - (if w[k] == c then 1 else 0) + (if x == c then 1 else 0)
    decreases |w|
  {
    var u := w[k := x];
    if k < |w| - 1 {
      assert u[..|u| - 1] == w[..|w| - 1][k := x];
      CountUpdate(w[..|w| - 1], k, x, c);
    } else {
      assert u[..|u| - 1] == w[..|w| - 1];
    }
  }

  /** A letter that occurs is counted. */
  lemma {:induction false} CountPositive(w: seq<char>, c: char)
    requires c in w
    ensures Count(w, c) >= 1
    decreases |w|
  {
    if w[|w| - 1] != c {
      assert c in w[..|w| - 1] by {
        var k :| 0 <= k < |w| && w[k] == c;
        assert w[..|w| - 1][k] == c;
      }
      CountPositive(w[..|w| - 1], c);
    }
  }

  /** A letter is counted exactly when it occurs. */
  lemma {:induction false} CountZero(w: seq<char>, c: char)
    ensures Count(w, c) == 0 <==> c !in w
    decreases |w|
  {
    if c in w {
      CountPositive(w, c);
    } else if w != [] {
      assert c !in w[..|w| - 1] by {
        assert forall x :: x in w[..|w| - 1] ==> x in w;
      }
      CountZero(w[..|w| - 1], c);
    }
  }
}

/** Subsequences and order-preserving filters. */
module Seqs {

  /** `a` is `b` with some elements removed, the rest kept in order. */
  predicate IsSubseq<T(==)>(a: seq<T>, b: seq<T>)
    decreases |b|
  {
    a == [] ||
    (b != [] &&
      ((a[|a| - 1] == b[|b| - 1] && IsSubseq(a[..|a| - 1], b[..|b| - 1])) ||
       IsSubseq(a, b[..|b| - 1])))
  }

  lemma {:induction false} SubseqRefl<T>(a: seq<T>)
    ensures IsSubseq(a, a)
    decreases |a|
  {
    if a != [] {
      SubseqRefl(a[..|a| - 1]);
    }
  }

  /** Keeping the last element of `b` on top of a subsequence of its prefix. */
  lemma SubseqSnoc<T>(a: seq<T>, b: seq<T>, x: T)
    requires IsSubseq(a, b)
    ensures IsSubseq(a + [x], b + [x]) && IsSubseq(a, b + [x])
  {
    assert (a + [x])[..|a|] == a;
    assert (b + [x])[..|b|] == b;
  }

  /** A subsequence is no longer than the sequence and only holds its elements. */
  lemma {:induction false} SubseqMembers<T>(a: seq<T>, b: seq<T>)
    requires IsSubseq(a, b)
    ensures |a| <= |b|
    ensures forall x :: x in a ==> x in b
    decreases |b|
  {
    if a != [] {
      var a', b' := a[..|a| - 1], b[..|b| - 1];
      assert b == b' + [b[|b| - 1]];
      if a[|a| - 1] == b[|b| - 1] && IsSubseq(a', b') {
        SubseqMembers(a', b');
        assert a == a' + [a[|a| - 1]];
      } else {
        SubseqMembers(a, b');
      }
    }
  }

  /** A subsequence as long as the sequence is the sequence itself. */
  lemma {:induction false} SubseqSameLength<T>(a: seq<T>, b: seq<T>)
    requires IsSubseq(a, b) && |a| == |b|
    ensures a == b
    decreases |b|
  {
    if a != [] {
      var a', b' := a[..|a| - 1], b[..|b| - 1];
      if a[|a| - 1] == b[|b| - 1] && IsSubseq(a', b') {
        SubseqSameLength(a', b');
        assert a == a' + [a[|a| - 1]] && b == b' + [b[|b| - 1]];
      } else {
        SubseqMembers(a, b');
      }
    }
  }

  /** A subsequence that misses an element of `b` is strictly shorter. */
  lemma SubseqShorter<T>(a: seq<T>, b: seq<T>, x: T)
    requires IsSubseq(a, b) && x in b && x !in a
    ensures |a| < |b|
  {
    SubseqMembers(a, b);
    if |a| == |b| {
      SubseqSameLength(a, b);
    }
  }

  lemma {:induction false} SubseqTrans<T>(a: seq<T>, b: seq<T>, c: seq<T>)
    requires IsSubseq(a, b) && IsSubseq(b, c)
    ensures IsSubseq(a, c)
    decreases |c|
  {
    if a != [] {
      var b', c' := b[..|b| - 1], c[..|c| - 1];
      assert b != [];
      if b[|b| - 1] == c[|c| - 1] && IsSubseq(b', c') {
        var a' := a[..|a| - 1];
        if a[|a| - 1] == b[|b| - 1] && IsSubseq(a', b') {
          SubseqTrans(a', b', c');
        } else {
          SubseqTrans(a, b', c');
        }
      } else {
        SubseqTrans(a, b, c');
      }
    }
  }

  /** The elements of `s` that satisfy `keep`, in their original order. */
  function Filter<T(!new)>(s: seq<T>, keep: T -> bool): (r: seq<T>)
    ensures IsSubseq(r, s)
    ensures forall x :: x in r <==> x in s && keep(x)
    decreases |s|
  {
    if s == [] then []
    else
      var rest := Filter(s[..|s| - 1], keep);
      var x := s[|s| - 1];
      assert s == s[..|s| - 1] + [x];
      SubseqSnoc(rest, s[..|s| - 1], x);
      if keep(x) then rest + [x] else rest
  }

  /** A filter whose test holds everywhere keeps the whole sequence. */
  lemma {:induction false} FilterKeepsAll<T(!new)>(s: seq<T>, keep: T -> bool)
    requires forall x :: x in s ==> keep(x)
    ensures Filter(s, keep) == s
    decreases |s|
  {
    if s != [] {
      var n := |s| - 1;
      assert s[n] in s;
      forall x | x in s[..n] ensures keep(x) {
        var k :| 0 <= k < n && s[..n][k] == x;
        assert s[k] in s;
      }
      FilterKeepsAll(s[..n], keep);
      assert Filter(s, keep) == Filter(s[..n], keep) + [s[n]];
      assert s == s[..n] + [s[n]];
    }
  }

  /** Filtering by `p` and then by `q` is filtering by a test that holds
      exactly when both do. */
  lemma {:induction false} FilterCompose<T(!new)>(s: seq<T>, p: T -> bool, q: T -> bool, pq: T -> bool)
    requires forall x :: x in s ==> pq(x) == (p(x) && q(x))
    ensures Filter(Filter(s, p), q) == Filter(s, pq)
    decreases |s|
  {
    if s != [] {
      var init, x := s[..|s| - 1], s[|s| - 1];
      assert pq(x) == (p(x) && q(x)) by {
        assert x in s;
      }
      forall y | y in init ensures pq(y) == (p(y) && q(y)) {
        assert y in s;
      }
      FilterCompose(init, p, q, pq);
      var kept := Filter(init, p);
      if p(x) {
        assert (kept + [x])[..|kept|] == kept;
        assert Filter(kept + [x], q) == if q(x) then Filter(kept, q) + [x] else Filter(kept, q);
      }
    }
  }
}
