/**
 * Sequence helpers shared by the stores: the handful of lodash collection
 * functions that the store modules rely on (`uniq`, `filter`, `indexOf`,
 * array deletion by index, `join('')`), each with its defining properties.
 */
module Collections {

  datatype Option<+T> = None | Some(value: T)

  /** No element occurs twice. */
  ghost predicate Distinct<T>(s: seq<T>) {
    forall i, j :: 0 <= i < j < |s| ==> s[i] != s[j]
  }

  /**
   * lodash `uniq`: keeps the first occurrence of every element, in the
   * order of first occurrence.
   */
  function Uniq<T(==,!new)>(s: seq<T>): (r: seq<T>)
    ensures Distinct(r)
    ensures forall x :: x in r <==> x in s
    ensures |r| <= |s|
  {
    if s == [] then []
    else
      var front := Uniq(s[..|s| - 1]);
      if s[|s| - 1] in front then front else front + [s[|s| - 1]]
  }

  lemma UniqSnoc<T(!new)>(s: seq<T>, x: T)
    ensures Uniq(s + [x]) == if x in Uniq(s) then Uniq(s) else Uniq(s) + [x]
  {
    assert (s + [x])[..|s + [x]| - 1] == s;
  }

  /** A duplicate-free sequence is its own `uniq`. */
  lemma {:induction false} UniqOfDistinct<T(!new)>(s: seq<T>)
    requires Distinct(s)
    ensures Uniq(s) == s
  {
    if s != [] {
      var init := s[..|s| - 1];
      assert s == init + [s[|s| - 1]];
      UniqOfDistinct(init);
      assert s[|s| - 1] !in init;
      UniqSnoc(init, s[|s| - 1]);
    }
  }

  /**
   * `uniq` of a concatenation starts with `uniq` of the first part: values
   * already present keep their place and new ones are appended after them.
   */
  lemma {:induction false} UniqKeepsPrefix<T(!new)>(a: seq<T>, b: seq<T>)
    ensures |Uniq(a)| <= |Uniq(a + b)|
    ensures Uniq(a + b)[..|Uniq(a)|] == Uniq(a)
  {
    if b != [] {
      var b' := b[..|b| - 1];
      var x := b[|b| - 1];
      assert a + b == (a + b') + [x];
      UniqKeepsPrefix(a, b');
      UniqSnoc(a + b', x);
    } else {
      assert a + b == a;
    }
  }

  /** Appending values that are all present already changes nothing. */
  lemma {:induction false} UniqAppendPresent<T(!new)>(a: seq<T>, b: seq<T>)
    requires forall x :: x in b ==> x in a
    ensures Uniq(a + b) == Uniq(a)
  {
    if b == [] {
      assert a + b == a;
    } else {
      var b' := b[..|b| - 1];
      var x := b[|b| - 1];
      assert a + b == (a + b') + [x];
      UniqAppendPresent(a, b');
      UniqSnoc(a + b', x);
    }
  }

  /** Merging in two steps is the same as merging once: `uniq(uniq(a) ++ b) == uniq(a ++ b)`. */
  lemma {:induction false} UniqAbsorbs<T(!new)>(a: seq<T>, b: seq<T>)
    ensures Uniq(Uniq(a) + b) == Uniq(a + b)
  {
    if b == [] {
      assert Uniq(a) + b == Uniq(a);
      assert a + b == a;
      UniqOfDistinct(Uniq(a));
    } else {
      var b' := b[..|b| - 1];
      var x := b[|b| - 1];
      assert a + b == (a + b') + [x];
      assert Uniq(a) + b == (Uniq(a) + b') + [x];
      UniqAbsorbs(a, b');
      UniqSnoc(Uniq(a) + b', x);
      UniqSnoc(a + b', x);
    }
  }

  /** An element that occurs earlier adds nothing to `uniq`, wherever it appears. */
  lemma UniqSkipPresent<T(!new)>(a: seq<T>, x: T, b: seq<T>)
    requires x in a
    ensures Uniq(a + [x] + b) == Uniq(a + b)
  {
    UniqAbsorbs(a + [x], b);
    UniqAppendPresent(a, [x]);
    UniqAbsorbs(a, b);
  }

  lemma AppendAssociative<T>(a: seq<T>, b: seq<T>, c: seq<T>)
    ensures (a + b) + c == a + (b + c)
  {
  }

  /** A non-empty sequence holds its first element and the elements of its rest. */
  lemma HeadMultiset<T>(s: seq<T>)
    requires s != []
    ensures multiset(s) == multiset{s[0]} + multiset(s[1..])
  {
    assert s == [s[0]] + s[1..];
  }

  /** The rest of a non-empty sequence holds what the whole holds, less its first element. */
  lemma TailMultiset<T>(s: seq<T>)
    requires s != []
    ensures multiset(s[1..]) == multiset(s) - multiset{s[0]}
  {
    assert s == [s[0]] + s[1..];
  }

  /** Dropping the last element keeps a sequence duplicate-free, and the last element is not among the rest. */
  lemma DistinctInit<T>(s: seq<T>)
    requires Distinct(s) && s != []
    ensures Distinct(s[..|s| - 1]) && s[|s| - 1] !in s[..|s| - 1]
  {
  }

  /** The first element of a duplicate-free sequence is not among the rest. */
  lemma DistinctHead<T>(s: seq<T>)
    requires Distinct(s) && s != []
    ensures s[0] !in s[1..]
  {
  }

  /** Two duplicate-free sequences with no element in common concatenate to a duplicate-free one. */
  lemma DistinctConcat<T>(a: seq<T>, b: seq<T>)
    requires Distinct(a) && Distinct(b)
    requires forall x :: x in a ==> x !in b
    ensures Distinct(a + b)
  {
    forall i, j | 0 <= i < j < |a + b| ensures (a + b)[i] != (a + b)[j] {
      if i < |a| && |a| <= j {
        assert (a + b)[i] in a && (a + b)[j] == b[j - |a|];
      }
    }
  }

  /** lodash `filter`: the elements satisfying `p`, in their original order. */
  function Filter<T(!new)>(s: seq<T>, p: T -> bool): (r: seq<T>)
    ensures forall x :: x in r <==> x in s && p(x)
    ensures |r| <= |s|
  {
    if s == [] then []
    else (if p(s[0]) then [s[0]] else []) + Filter(s[1..], p)
  }

  lemma {:induction false} FilterAppend<T(!new)>(a: seq<T>, b: seq<T>, p: T -> bool)
    ensures Filter(a + b, p) == Filter(a, p) + Filter(b, p)
  {
    if a == [] {
      assert a + b == b;
    } else {
      assert (a + b)[1..] == a[1..] + b;
      FilterAppend(a[1..], b, p);
    }
  }

  /** Filtering keeps a duplicate-free sequence duplicate-free. */
  lemma {:induction false} FilterDistinct<T(!new)>(s: seq<T>, p: T -> bool)
    requires Distinct(s)
    ensures Distinct(Filter(s, p))
  {
    if s != [] {
      FilterDistinct(s[1..], p);
      assert s[0] !in s[1..];
    }
  }

  /** Filtering with a predicate that every element satisfies leaves the sequence as it is. */
  lemma {:induction false} FilterAll<T(!new)>(s: seq<T>, p: T -> bool)
    requires forall x :: x in s ==> p(x)
    ensures Filter(s, p) == s
  {
    if s != [] {
      FilterAll(s[1..], p);
      assert s == [s[0]] + s[1..];
    }
  }

  /** The elements of `s` that satisfy `p` and those that do not add up to `s`. */
  lemma {:induction false} FilterPartition<T(!new)>(s: seq<T>, p: T -> bool, q: T -> bool)
    requires forall x :: x in s ==> (q(x) <==> !p(x))
    ensures |Filter(s, p)| + |Filter(s, q)| == |s|
  {
    if s != [] {
      FilterPartition(s[1..], p, q);
    }
  }

  /** JavaScript `indexOf`: the first position of `x`, or -1. */
  function IndexOf<T(==,!new)>(s: seq<T>, x: T): (i: int)
    ensures -1 <= i < |s|
    ensures i == -1 <==> x !in s
    ensures 0 <= i ==> s[i] == x && x !in s[..i]
  {
    if s == [] then -1
    else if s[0] == x then 0
    else
      var j := IndexOf(s[1..], x);
      assert j >= 0 ==> s[1..][..j] == s[1..j + 1];
      if j == -1 then -1 else j + 1
  }

  /**
   * `Vue.delete(array, i)`: splices out position `i`; an index outside the
   * array (in particular -1) leaves it untouched.
   */
  function DeleteAt<T>(s: seq<T>, i: int): (r: seq<T>)
    ensures 0 <= i < |s| ==> r == s[..i] + s[i + 1..]
    ensures !(0 <= i < |s|) ==> r == s
  {
    if 0 <= i < |s| then s[..i] + s[i + 1..] else s
  }

  /**
   * Deleting the first occurrence of `x` from a duplicate-free sequence
   * removes `x` and only `x`, and keeps it duplicate-free.
   */
  lemma DeleteFirstOccurrence<T(!new)>(s: seq<T>, x: T)
    requires Distinct(s)
    ensures var r := DeleteAt(s, IndexOf(s, x));
      && Distinct(r)
      && x !in r
      && forall y :: y != x ==> (y in r <==> y in s)
  {
    var i := IndexOf(s, x);
    if 0 <= i {
      DeleteAtDistinct(s, i);
    }
  }

  lemma DeleteAtDistinct<T>(s: seq<T>, i: nat)
    requires Distinct(s) && i < |s|
    ensures Distinct(DeleteAt(s, i))
    ensures forall y :: y in DeleteAt(s, i) <==> y in s && y != s[i]
  {
    var r := DeleteAt(s, i);
    assert r == s[..i] + s[i + 1..];
    assert forall k :: 0 <= k < |r| ==> r[k] == s[if k < i then k else k + 1];
    forall y | y in s && y != s[i] ensures y in r {
      var k :| 0 <= k < |s| && s[k] == y;
      assert r[if k < i then k else k - 1] == y;
    }
  }

  /** `a` is `b` with some elements left out, the rest in their order. */
  predicate IsSubsequence<T(==)>(a: seq<T>, b: seq<T>)
    decreases |b|
  {
    if a == [] then true
    else if b == [] then false
    else (a[0] == b[0] && IsSubsequence(a[1..], b[1..])) || IsSubsequence(a, b[1..])
  }

  /** JavaScript `join('')`. */
  function Concat(ss: seq<string>): string {
    if ss == [] then "" else ss[0] + Concat(ss[1..])
  }

  lemma {:induction false} ConcatAppend(a: seq<string>, b: seq<string>)
    ensures Concat(a + b) == Concat(a) + Concat(b)
  {
    if a == [] {
      assert a + b == b;
    } else {
      assert (a + b)[1..] == a[1..] + b;
      ConcatAppend(a[1..], b);
    }
  }
}
