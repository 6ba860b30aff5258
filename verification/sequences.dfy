/** Facts about sequences used throughout the model: distinctness, order-preserving
    sub-sequences and reversal. */
module Sequences {

  /** No element occurs twice. */
  predicate Distinct<T(==)>(s: seq<T>)
  {
    forall i, j :: 0 <= i < j < |s| ==> s[i] != s[j]
  }

  /** `a` is obtained from `b` by deleting elements, the survivors keeping their order.
      Defined from the back, so that appending to both sides is one unfolding. */
  predicate IsSubseq<T(==)>(a: seq<T>, b: seq<T>)
    decreases |b|
  {
    if a == [] then true
    else if b == [] then false
    else (a[|a| - 1] == b[|b| - 1] && IsSubseq(a[..|a| - 1], b[..|b| - 1]))
         || IsSubseq(a, b[..|b| - 1])
  }

  function Reverse<T>(s: seq<T>): (r: seq<T>)
    ensures |r| == |s|
    ensures forall i :: 0 <= i < |s| ==> r[i] == s[|s| - 1 - i]
  {
    if s == [] then [] else [s[|s| - 1]] + Reverse(s[..|s| - 1])
  }

  lemma ReverseSnoc<T>(s: seq<T>, x: T)
    ensures Reverse(s + [x]) == [x] + Reverse(s)
  {
    assert (s + [x])[..|s|] == s;
  }

  lemma ReverseDistinct<T>(s: seq<T>)
    requires Distinct(Reverse(s))
    ensures Distinct(s)
  {
    var r := Reverse(s);
    forall i, j | 0 <= i < j < |s| ensures s[i] != s[j] {
      assert s[i] == r[|s| - 1 - i] && s[j] == r[|s| - 1 - j];
    }
  }

  lemma {:induction false} SubseqRefl<T>(a: seq<T>)
    ensures IsSubseq(a, a)
    decreases |a|
  {
    if a != [] {
      SubseqRefl(a[..|a| - 1]);
    }
  }

  lemma SubseqExtend<T>(a: seq<T>, b: seq<T>, x: T)
    requires IsSubseq(a, b)
    ensures IsSubseq(a, b + [x])
  {
    assert (b + [x])[..|b|] == b;
  }

  lemma SubseqSnoc<T>(a: seq<T>, b: seq<T>, x: T)
    requires IsSubseq(a, b)
    ensures IsSubseq(a + [x], b + [x])
  {
    assert (a + [x])[..|a|] == a;
    assert (b + [x])[..|b|] == b;
  }

  lemma {:induction false} SubseqCons<T>(a: seq<T>, b: seq<T>, x: T)
    requires IsSubseq(a, b)
    ensures IsSubseq([x] + a, [x] + b)
    decreases |b|
  {
    if a == [] {
      assert [x] + a == [x];
      SubseqHead([x] + b);
    } else {
      assert b != [];
      var a', b' := a[..|a| - 1], b[..|b| - 1];
      assert ([x] + a)[..|a|] == [x] + a';
      assert ([x] + b)[..|b|] == [x] + b';
      if a[|a| - 1] == b[|b| - 1] && IsSubseq(a', b') {
        SubseqCons(a', b', x);
      } else {
        SubseqCons(a, b', x);
      }
    }
  }

  /** The first element alone is a sub-sequence. */
  lemma {:induction false} SubseqHead<T>(b: seq<T>)
    requires |b| > 0
    ensures IsSubseq([b[0]], b)
    decreases |b|
  {
    if |b| > 1 {
      SubseqHead(b[..|b| - 1]);
    }
  }

  lemma {:induction false} SubseqConsExtend<T>(a: seq<T>, b: seq<T>, x: T)
    requires IsSubseq(a, b)
    ensures IsSubseq(a, [x] + b)
    decreases |b|
  {
    if a != [] {
      assert b != [];
      var a', b' := a[..|a| - 1], b[..|b| - 1];
      assert ([x] + b)[..|b|] == [x] + b';
      if a[|a| - 1] == b[|b| - 1] && IsSubseq(a', b') {
        SubseqConsExtend(a', b', x);
      } else {
        SubseqConsExtend(a, b', x);
      }
    }
  }

  /** Every suffix is a sub-sequence. */
  lemma {:induction false} SubseqSuffix<T>(a: seq<T>, b: seq<T>)
    ensures IsSubseq(b, a + b)
    decreases |b|
  {
    if b != [] {
      var b' := b[..|b| - 1];
      SubseqSuffix(a, b');
      assert (a + b)[..|a + b| - 1] == a + b';
    }
  }

  lemma {:induction false} SubseqAppendBoth<T>(a: seq<T>, b: seq<T>, c: seq<T>)
    requires IsSubseq(a, b)
    ensures IsSubseq(a + c, b + c)
    decreases |c|
  {
    if c != [] {
      var c' := c[..|c| - 1];
      assert c == c' + [c[|c| - 1]];
      SubseqAppendBoth(a, b, c');
      SubseqSnoc(a + c', b + c', c[|c| - 1]);
      assert a + c' + [c[|c| - 1]] == a + c;
      assert b + c' + [c[|c| - 1]] == b + c;
    } else {
      assert a + c == a && b + c == b;
    }
  }

  lemma {:induction false} SubseqTrans<T>(a: seq<T>, b: seq<T>, c: seq<T>)
    requires IsSubseq(a, b) && IsSubseq(b, c)
    ensures IsSubseq(a, c)
    decreases |c|
  {
    if a != [] {
      assert b != [] && c != [];
      var a', b', c' := a[..|a| - 1], b[..|b| - 1], c[..|c| - 1];
      if b[|b| - 1] == c[|c| - 1] && IsSubseq(b', c') {
        if a[|a| - 1] == b[|b| - 1] && IsSubseq(a', b') {
          SubseqTrans(a', b', c');
        } else {
          SubseqTrans(a, b', c');
        }
      } else {
        SubseqTrans(a, b, c');
      }
    }
  }

  lemma {:induction false} SubseqMembers<T>(a: seq<T>, b: seq<T>)
    requires IsSubseq(a, b)
    ensures forall x :: x in a ==> x in b
    decreases |b|
  {
    if a != [] {
      var a', b' := a[..|a| - 1], b[..|b| - 1];
      if a[|a| - 1] == b[|b| - 1] && IsSubseq(a', b') {
        SubseqMembers(a', b');
        assert a == a' + [a[|a| - 1]];
        assert b == b' + [b[|b| - 1]];
      } else {
        SubseqMembers(a, b');
        assert b == b' + [b[|b| - 1]];
      }
    }
  }

  lemma {:induction false} SubseqLength<T>(a: seq<T>, b: seq<T>)
    requires IsSubseq(a, b)
    ensures |a| <= |b|
    decreases |b|
  {
    if a != [] {
      var a', b' := a[..|a| - 1], b[..|b| - 1];
      if a[|a| - 1] == b[|b| - 1] && IsSubseq(a', b') {
        SubseqLength(a', b');
      } else {
        SubseqLength(a, b');
      }
    }
  }

  lemma {:induction false} SubseqDistinct<T>(a: seq<T>, b: seq<T>)
    requires IsSubseq(a, b) && Distinct(b)
    ensures Distinct(a)
    decreases |b|
  {
    if a != [] {
      var a', b' := a[..|a| - 1], b[..|b| - 1];
      assert Distinct(b');
      if a[|a| - 1] == b[|b| - 1] && IsSubseq(a', b') {
        SubseqDistinct(a', b');
        SubseqMembers(a', b');
        assert b[|b| - 1] !in b';
        assert a == a' + [a[|a| - 1]];
      } else {
        SubseqDistinct(a, b');
      }
    }
  }

  /** Reversal keeps the sub-sequence relation. */
  lemma {:induction false} SubseqReverse<T>(a: seq<T>, b: seq<T>)
    requires IsSubseq(a, b)
    ensures IsSubseq(Reverse(a), Reverse(b))
    decreases |b|
  {
    if a == [] {
    } else {
      var a', b' := a[..|a| - 1], b[..|b| - 1];
      assert a == a' + [a[|a| - 1]] && b == b' + [b[|b| - 1]];
      ReverseSnoc(b', b[|b| - 1]);
      if a[|a| - 1] == b[|b| - 1] && IsSubseq(a', b') {
        SubseqReverse(a', b');
        ReverseSnoc(a', a[|a| - 1]);
        SubseqCons(Reverse(a'), Reverse(b'), a[|a| - 1]);
      } else {
        SubseqReverse(a, b');
        SubseqConsExtend(Reverse(a), Reverse(b'), b[|b| - 1]);
      }
    }
  }

  /** A non-empty sequence is its front followed by its last element. */
  lemma AppendSnoc<T>(a: seq<T>, b: seq<T>, x: T)
    ensures a + (b + [x]) == (a + b) + [x]
  {
  }

  lemma AppendCons<T>(a: seq<T>, x: T, b: seq<T>)
    ensures a + ([x] + b) == (a + [x]) + b
  {
  }

  lemma FrontLast<T>(s: seq<T>)
    requires s != []
    ensures s == s[..|s| - 1] + [s[|s| - 1]]
  {
  }

  /** Dropping the last element of a sequence without repeats leaves one without
      repeats that no longer holds that element. */
  lemma DistinctFront<T>(s: seq<T>)
    requires Distinct(s) && s != []
    ensures Distinct(s[..|s| - 1]) && s[|s| - 1] !in s[..|s| - 1]
  {
    var front := s[..|s| - 1];
    forall k | 0 <= k < |front|
      ensures front[k] != s[|s| - 1]
    {
      assert front[k] == s[k];
    }
  }

  /** A sequence without repeats holds each element at most once. */
  lemma {:induction false} DistinctOnce<T>(s: seq<T>, x: T)
    requires Distinct(s)
    ensures multiset(s)[x] <= 1
    decreases |s|
  {
    if s != [] {
      var front := s[..|s| - 1];
      assert s == front + [s[|s| - 1]];
      DistinctOnce(front, x);
      if s[|s| - 1] == x {
        assert x !in front;
      }
    }
  }

  /** A permutation of a sequence without repeats has none either. */
  lemma PermutationDistinct<T>(a: seq<T>, b: seq<T>)
    requires multiset(a) == multiset(b) && Distinct(b)
    ensures Distinct(a)
  {
    forall i, j | 0 <= i < j < |a|
      ensures a[i] != a[j]
    {
      if a[i] == a[j] {
        var x := a[i];
        assert a == a[..j] + a[j..];
        assert x in a[..j] && x in a[j..];
        assert multiset(a)[x] == multiset(a[..j])[x] + multiset(a[j..])[x];
        DistinctOnce(b, x);
      }
    }
  }

  lemma ReverseMembers<T>(s: seq<T>)
    ensures forall x :: x in Reverse(s) <==> x in s
  {
    var r := Reverse(s);
    forall x | x in s ensures x in r {
      var i :| 0 <= i < |s| && s[i] == x;
      assert r[|s| - 1 - i] == x;
    }
  }
}
