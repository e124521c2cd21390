/**
 * The `arrayDiff` helper of the environment reader: an order-preserving
 * set difference on sequences.
 */
module ArrayUtil {

  /** Keeps the elements of `a` that do not occur in `b`, in `a`'s order;
      duplicates in `a` are kept. `b` is only ever used for membership. */
  function ArrayDiff(a: seq<string>, b: set<string>): (r: seq<string>)
    ensures |r| <= |a|
    ensures forall x :: x in r <==> x in a && x !in b
  {
    if a == [] then []
    else (if a[0] in b then [] else [a[0]]) + ArrayDiff(a[1..], b)
  }

  /** The difference depends on `b` only through which elements of `a` it holds. */
  lemma {:induction false} ArrayDiffCongruent(a: seq<string>, b: set<string>, c: set<string>)
    requires forall x :: x in a ==> (x in b <==> x in c)
    ensures ArrayDiff(a, b) == ArrayDiff(a, c)
  {
    if a != [] {
      ArrayDiffCongruent(a[1..], b, c);
    }
  }

  /** `s` can be obtained from `t` by deleting some of its elements. */
  predicate IsSubsequence(s: seq<string>, t: seq<string>)
    decreases |t|
  {
    s == [] || (t != [] && ((s[0] == t[0] && IsSubsequence(s[1..], t[1..])) || IsSubsequence(s, t[1..])))
  }

  /** The difference keeps the relative order of `a`. */
  lemma {:induction false} ArrayDiffIsSubsequence(a: seq<string>, b: set<string>)
    ensures IsSubsequence(ArrayDiff(a, b), a)
  {
    if a != [] {
      ArrayDiffIsSubsequence(a[1..], b);
      var r := ArrayDiff(a, b);
      if a[0] in b {
        assert r == ArrayDiff(a[1..], b);
      } else {
        assert r[0] == a[0] && r[1..] == ArrayDiff(a[1..], b);
      }
    }
  }

  /** Every element outside `b` keeps its multiplicity; every element of `b` is gone. */
  lemma {:induction false} ArrayDiffCount(a: seq<string>, b: set<string>, x: string)
    ensures multiset(ArrayDiff(a, b))[x] == if x in b then 0 else multiset(a)[x]
  {
    if a != [] {
      ArrayDiffCount(a[1..], b, x);
      assert a == [a[0]] + a[1..];
      assert multiset(a) == multiset([a[0]]) + multiset(a[1..]);
      var head := if a[0] in b then [] else [a[0]];
      assert multiset(ArrayDiff(a, b)) == multiset(head) + multiset(ArrayDiff(a[1..], b));
    }
  }

  /** The difference distributes over concatenation: it filters element by element. */
  lemma {:induction false} ArrayDiffAppend(a1: seq<string>, a2: seq<string>, b: set<string>)
    ensures ArrayDiff(a1 + a2, b) == ArrayDiff(a1, b) + ArrayDiff(a2, b)
  {
    if a1 == [] {
      assert a1 + a2 == a2;
    } else {
      assert (a1 + a2)[0] == a1[0];
      assert (a1 + a2)[1..] == a1[1..] + a2;
      ArrayDiffAppend(a1[1..], a2, b);
    }
  }

  /** Removing `b` and then `c` is removing `b + c` at once. */
  lemma {:induction false} ArrayDiffTwice(a: seq<string>, b: set<string>, c: set<string>)
    ensures ArrayDiff(ArrayDiff(a, b), c) == ArrayDiff(a, b + c)
  {
    if a != [] {
      ArrayDiffTwice(a[1..], b, c);
      var head := if a[0] in b then [] else [a[0]];
      ArrayDiffAppend(head, ArrayDiff(a[1..], b), c);
    }
  }
}
