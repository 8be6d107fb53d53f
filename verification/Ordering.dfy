/** Canonical ordering (section 3.11 of the Unicode Standard, D108 and D109).

    Two texts are equivalent when one is reached from the other by exchanging
    neighbouring marks of different non-zero combining classes. Stated without
    steps: for every class k they agree on what is left after deleting all marks
    of other classes. Canonical ordering picks the one ordered text in each
    equivalence class. */
module Ordering {
  import opened Utf8

  /** Canonical_Combining_Class; code points without an entry are starters. */
  type Classes = map<scalar, nat>

  function Ccc(t: Classes, c: scalar): nat {
    if c in t then t[c] else 0
  }

  /** c is a mark, of another class than k. */
  predicate OtherMark(t: Classes, c: scalar, k: nat) {
    Ccc(t, c) != 0 && Ccc(t, c) != k
  }

  /** No mark follows a mark of a higher class. */
  predicate Ordered(t: Classes, s: seq<scalar>) {
    forall i :: 0 < i < |s| ==> !(Ccc(t, s[i - 1]) > Ccc(t, s[i]) > 0)
  }

  /** The starters of s together with its marks of class k. */
  function Keep(t: Classes, s: seq<scalar>, k: nat): seq<scalar> {
    if s == [] then []
    else (if Ccc(t, s[0]) == 0 || Ccc(t, s[0]) == k then [s[0]] else []) + Keep(t, s[1..], k)
  }

  ghost predicate Equivalent(t: Classes, a: seq<scalar>, b: seq<scalar>) {
    forall k: nat :: Keep(t, a, k) == Keep(t, b, k)
  }

  // ---------------------------------------------------------------------------
  // The algorithm
  // ---------------------------------------------------------------------------

  /** Append c and move it left past every mark of a higher class. */
  function Bubble(t: Classes, s: seq<scalar>, c: scalar): seq<scalar> {
    if s != [] && Ccc(t, s[|s| - 1]) > Ccc(t, c) > 0
    then Bubble(t, s[..|s| - 1], c) + [s[|s| - 1]]
    else s + [c]
  }

  function BubbleAll(t: Classes, s: seq<scalar>, xs: seq<scalar>): seq<scalar>
    decreases |xs|
  {
    if xs == [] then s else BubbleAll(t, Bubble(t, s, xs[0]), xs[1..])
  }

  /** The Canonical Ordering Algorithm on a whole text. */
  function Reorder(t: Classes, s: seq<scalar>): seq<scalar> {
    BubbleAll(t, [], s)
  }

  // ---------------------------------------------------------------------------
  // Equivalence is a congruence
  // ---------------------------------------------------------------------------

  lemma {:induction false} KeepConcat(t: Classes, a: seq<scalar>, b: seq<scalar>, k: nat)
    ensures Keep(t, a + b, k) == Keep(t, a, k) + Keep(t, b, k)
  {
    if a == [] {
      assert a + b == b;
    } else {
      assert (a + b)[0] == a[0] && (a + b)[1..] == a[1..] + b;
      KeepConcat(t, a[1..], b, k);
      var h := if Ccc(t, a[0]) == 0 || Ccc(t, a[0]) == k then [a[0]] else [];
      assert Keep(t, a, k) == h + Keep(t, a[1..], k);
      assert Keep(t, a + b, k) == h + Keep(t, a[1..] + b, k);
    }
  }

  lemma EquivalentConcat(t: Classes, a: seq<scalar>, a': seq<scalar>, b: seq<scalar>, b': seq<scalar>)
    requires Equivalent(t, a, a') && Equivalent(t, b, b')
    ensures Equivalent(t, a + b, a' + b')
  {
    forall k: nat ensures Keep(t, a + b, k) == Keep(t, a' + b', k) {
      KeepConcat(t, a, b, k);
      KeepConcat(t, a', b', k);
    }
  }

  lemma {:induction false} KeepMarks(t: Classes, ms: seq<scalar>, k: nat)
    requires forall i :: 0 <= i < |ms| ==> OtherMark(t, ms[i], k)
    ensures Keep(t, ms, k) == []
  {
    if ms != [] {
      KeepMarks(t, ms[1..], k);
    }
  }

  /** D108: a mark may be exchanged with marks of other classes. */
  lemma MarksCommute(t: Classes, c: scalar, ms: seq<scalar>)
    requires ms != [] ==> Ccc(t, c) != 0
    requires forall i :: 0 <= i < |ms| ==> OtherMark(t, ms[i], Ccc(t, c))
    ensures Equivalent(t, [c] + ms, ms + [c])
  {
    if ms == [] {
      assert [c] + ms == ms + [c];
      return;
    }
    forall k: nat ensures Keep(t, [c] + ms, k) == Keep(t, ms + [c], k) {
      MarkCommutes(t, c, ms, k);
    }
  }

  lemma MarkCommutes(t: Classes, c: scalar, ms: seq<scalar>, k: nat)
    requires Ccc(t, c) != 0
    requires forall i :: 0 <= i < |ms| ==> OtherMark(t, ms[i], Ccc(t, c))
    ensures Keep(t, [c] + ms, k) == Keep(t, ms + [c], k)
  {
    KeepConcat(t, [c], ms, k);
    KeepConcat(t, ms, [c], k);
    var a, b := Keep(t, [c], k), Keep(t, ms, k);
    if k == Ccc(t, c) {
      KeepMarks(t, ms, k);
      assert a + b == a == b + a;
    } else {
      KeepMarks(t, [c], k);
      assert a + b == b == b + a;
    }
  }

  // ---------------------------------------------------------------------------
  // The algorithm stays in the equivalence class and orders
  // ---------------------------------------------------------------------------

  lemma {:induction false} BubbleEquivalent(t: Classes, s: seq<scalar>, c: scalar)
    ensures Equivalent(t, Bubble(t, s, c), s + [c])
  {
    if s != [] && Ccc(t, s[|s| - 1]) > Ccc(t, c) > 0 {
      var pre, l := s[..|s| - 1], s[|s| - 1];
      BubbleEquivalent(t, pre, c);
      EquivalentConcat(t, Bubble(t, pre, c), pre + [c], [l], [l]);
      MarksCommute(t, c, [l]);
      EquivalentConcat(t, pre, pre, [c] + [l], [l] + [c]);
      assert pre + [c] + [l] == pre + ([c] + [l]) && pre + ([l] + [c]) == s + [c];
    }
  }

  lemma {:induction false} BubbleOrdered(t: Classes, s: seq<scalar>, c: scalar)
    requires Ordered(t, s)
    ensures Ordered(t, Bubble(t, s, c))
    ensures var r := Bubble(t, s, c);
            |r| == |s| + 1 && (r[|s|] == c || (s != [] && r[|s|] == s[|s| - 1] && Ccc(t, r[|s|]) > Ccc(t, c)))
  {
    if s != [] && Ccc(t, s[|s| - 1]) > Ccc(t, c) > 0 {
      BubbleOrdered(t, s[..|s| - 1], c);
    }
  }

  lemma {:induction false} BubbleAllSpec(t: Classes, s: seq<scalar>, xs: seq<scalar>)
    ensures Equivalent(t, BubbleAll(t, s, xs), s + xs)
    ensures Ordered(t, s) ==> Ordered(t, BubbleAll(t, s, xs))
    decreases |xs|
  {
    if xs == [] {
      assert s + xs == s;
    } else {
      var b := Bubble(t, s, xs[0]);
      BubbleAllSpec(t, b, xs[1..]);
      BubbleEquivalent(t, s, xs[0]);
      EquivalentConcat(t, b, s + [xs[0]], xs[1..], xs[1..]);
      assert s + [xs[0]] + xs[1..] == s + xs;
      if Ordered(t, s) {
        BubbleOrdered(t, s, xs[0]);
      }
    }
  }

  lemma {:induction false} BubbleAllConcat(t: Classes, s: seq<scalar>, xs: seq<scalar>, ys: seq<scalar>)
    ensures BubbleAll(t, s, xs + ys) == BubbleAll(t, BubbleAll(t, s, xs), ys)
    decreases |xs|
  {
    if xs == [] {
      assert xs + ys == ys;
    } else {
      assert (xs + ys)[1..] == xs[1..] + ys;
      BubbleAllConcat(t, Bubble(t, s, xs[0]), xs[1..], ys);
    }
  }

  // ---------------------------------------------------------------------------
  // There is only one ordered text in each class
  // ---------------------------------------------------------------------------

  /** In an ordered text, the leading marks up to class k come first. */
  lemma {:induction false} FirstKept(t: Classes, s: seq<scalar>, k: nat) returns (i: nat)
    requires Keep(t, s, k) != []
    ensures i < |s| && Keep(t, s, k)[0] == s[i]
    ensures Ccc(t, s[i]) == 0 || Ccc(t, s[i]) == k
    ensures forall j :: 0 <= j < i ==> OtherMark(t, s[j], k)
  {
    if Ccc(t, s[0]) == 0 || Ccc(t, s[0]) == k {
      i := 0;
    } else {
      i := FirstKept(t, s[1..], k);
      i := i + 1;
    }
  }

  lemma {:induction false} OrderedPrefix(t: Classes, s: seq<scalar>, i: nat)
    requires Ordered(t, s) && i < |s|
    requires forall j :: 0 <= j <= i ==> Ccc(t, s[j]) > 0
    ensures Ccc(t, s[0]) <= Ccc(t, s[i])
  {
    if i > 0 {
      OrderedPrefix(t, s, i - 1);
    }
  }

  /** Equivalent ordered texts start with the same character: otherwise the
      class of one first mark would both precede and follow the other. */
  lemma SameFirst(t: Classes, a: seq<scalar>, b: seq<scalar>)
    requires Equivalent(t, a, b) && Ordered(t, a) && Ordered(t, b)
    requires a != []
    ensures b != [] && a[0] == b[0]
  {
    var j := Ccc(t, a[0]);
    assert Keep(t, a, j)[0] == a[0] && Keep(t, b, j) == Keep(t, a, j);
    var m := FirstKept(t, b, j);
    var k := Ccc(t, b[0]);
    assert Keep(t, b, k)[0] == b[0] && Keep(t, a, k) == Keep(t, b, k);
    var n := FirstKept(t, a, k);
    if j != k && j > 0 && k > 0 {
      OrderedPrefix(t, b, m);
      OrderedPrefix(t, a, n);
    }
  }

  lemma {:induction false} UniqueOrdered(t: Classes, a: seq<scalar>, b: seq<scalar>)
    requires Equivalent(t, a, b) && Ordered(t, a) && Ordered(t, b)
    ensures a == b
  {
    if a == [] {
      if b != [] {
        SameFirst(t, b, a);
      }
    } else {
      SameFirst(t, a, b);
      assert a == [a[0]] + a[1..] && b == [b[0]] + b[1..];
      forall k: nat ensures Keep(t, a[1..], k) == Keep(t, b[1..], k) {
        assert Keep(t, a, k) == Keep(t, b, k);
        var h := Keep(t, [a[0]], k);
        KeepConcat(t, [a[0]], a[1..], k);
        KeepConcat(t, [b[0]], b[1..], k);
        assert Keep(t, a, k)[|h|..] == Keep(t, a[1..], k);
      }
      UniqueOrdered(t, a[1..], b[1..]);
    }
  }

  // ---------------------------------------------------------------------------
  // The theorems about Reorder
  // ---------------------------------------------------------------------------

  /** Reorder(s) is the one ordered text equivalent to s. */
  lemma ReorderSpec(t: Classes, s: seq<scalar>, r: seq<scalar>)
    ensures r == Reorder(t, s) <==> Ordered(t, r) && Equivalent(t, r, s)
  {
    BubbleAllSpec(t, [], s);
    assert [] + s == s;
    if Ordered(t, r) && Equivalent(t, r, s) {
      UniqueOrdered(t, r, Reorder(t, s));
    }
  }

  /** Equivalence is decided by comparing canonical orderings. */
  lemma EquivalentIffReorder(t: Classes, a: seq<scalar>, b: seq<scalar>)
    ensures Equivalent(t, a, b) <==> Reorder(t, a) == Reorder(t, b)
  {
    ReorderSpec(t, a, Reorder(t, a));
    ReorderSpec(t, b, Reorder(t, b));
    if Equivalent(t, a, b) {
      UniqueOrdered(t, Reorder(t, a), Reorder(t, b));
    }
  }

  lemma ReorderFixesOrdered(t: Classes, s: seq<scalar>)
    ensures Ordered(t, s) <==> Reorder(t, s) == s
  {
    ReorderSpec(t, s, s);
  }

  lemma OrderedSnoc(t: Classes, s: seq<scalar>, c: scalar)
    ensures Ordered(t, s + [c]) <==> Ordered(t, s) && (s == [] || !(Ccc(t, s[|s| - 1]) > Ccc(t, c) > 0))
  {
    var r := s + [c];
    if Ordered(t, r) {
      forall i | 0 < i < |s| ensures !(Ccc(t, s[i - 1]) > Ccc(t, s[i]) > 0) {
        assert r[i - 1] == s[i - 1] && r[i] == s[i];
      }
      if s != [] {
        var n := |s|;
        assert r[n - 1] == s[n - 1] && r[n] == c;
      }
    }
  }

  /** Reordering only permutes. */
  lemma {:induction false} BubbleAllPermutes(t: Classes, s: seq<scalar>, xs: seq<scalar>)
    ensures multiset(BubbleAll(t, s, xs)) == multiset(s) + multiset(xs)
    decreases |xs|
  {
    if xs != [] {
      BubblePermutes(t, s, xs[0]);
      BubbleAllPermutes(t, Bubble(t, s, xs[0]), xs[1..]);
      assert xs == [xs[0]] + xs[1..];
    }
  }

  lemma {:induction false} BubblePermutes(t: Classes, s: seq<scalar>, c: scalar)
    ensures multiset(Bubble(t, s, c)) == multiset(s) + multiset{c}
  {
    if s != [] && Ccc(t, s[|s| - 1]) > Ccc(t, c) > 0 {
      var pre, l := s[..|s| - 1], s[|s| - 1];
      BubblePermutes(t, pre, c);
      assert s == pre + [l];
      assert multiset(Bubble(t, pre, c) + [l]) == multiset(pre) + multiset{c} + multiset{l};
    }
  }
}
