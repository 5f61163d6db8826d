/**
 * The string utilities of the front-end: cutting a text at a set of
 * positions (`sliceIndexes`), inserting highlight marks at positions
 * (`highlight`) and turning a label into a URL slug (`slugger`).
 */
module Strings {
  import opened Collections

  // ---------------------------------------------------------------------
  // Ordering the cut positions: `Array.from(new Set(indexes)).sort((a, b) => a - b)`
  // ---------------------------------------------------------------------

  ghost predicate Increasing(s: seq<int>) {
    forall i, j :: 0 <= i < j < |s| ==> s[i] < s[j]
  }

  lemma IncreasingCons(x: int, t: seq<int>)
    requires Increasing(t)
    requires forall j :: 0 <= j < |t| ==> x < t[j]
    ensures Increasing([x] + t)
  {
  }

  /** Every element of an increasing sequence after position `k` is larger than the one at `k`. */
  lemma IncreasingAbove(s: seq<int>, k: nat, y: int)
    requires Increasing(s) && k < |s|
    requires y in s[k + 1..]
    ensures s[k] < y
  {
    var i :| 0 <= i < |s[k + 1..]| && s[k + 1..][i] == y;
    assert s[k + 1 + i] == y;
  }

  /** Inserts `x` into a strictly increasing sequence; a value already present is not repeated. */
  function InsertSorted(x: int, s: seq<int>): (r: seq<int>)
    requires Increasing(s)
    ensures Increasing(r)
    ensures forall y :: y in r <==> y == x || y in s
  {
    if s == [] then [x]
    else if x < s[0] then [x] + s
    else if x == s[0] then s
    else
      var rest := InsertSorted(x, s[1..]);
      assert forall j :: 0 <= j < |rest| ==> s[0] < rest[j] by {
        forall j | 0 <= j < |rest| ensures s[0] < rest[j] {
          assert rest[j] in rest;
          if rest[j] != x {
            IncreasingAbove(s, 0, rest[j]);
          }
        }
      }
      IncreasingCons(s[0], rest);
      assert s == [s[0]] + s[1..];
      [s[0]] + rest
  }

  /** The distinct values of `s` in ascending numeric order. */
  function SortedUnique(s: seq<int>): (r: seq<int>)
    ensures Increasing(r)
    ensures forall y :: y in r <==> y in s
  {
    if s == [] then []
    else InsertSorted(s[|s| - 1], SortedUnique(s[..|s| - 1]))
  }

  /** Two increasing sequences with the same elements and the same head also share the elements after it. */
  lemma IncreasingSameTail(a: seq<int>, b: seq<int>, y: int)
    requires Increasing(a) && Increasing(b) && a != [] && b != []
    requires forall x :: x in a <==> x in b
    requires a[0] == b[0] && y in a[1..]
    ensures y in b[1..]
  {
    IncreasingAbove(a, 0, y);
    assert y in a;
    var j :| 0 <= j < |b| && b[j] == y;
    assert j > 0;
    assert b[1..][j - 1] == y;
  }

  /** A strictly increasing sequence is determined by its elements. */
  lemma {:induction false} IncreasingUnique(a: seq<int>, b: seq<int>)
    requires Increasing(a) && Increasing(b)
    requires forall y :: y in a <==> y in b
    ensures a == b
  {
    assert a != [] ==> a[0] in a;
    assert b != [] ==> b[0] in b;
    if a != [] && b != [] {
      assert a[0] == b[0] by {
        assert a[0] in a && b[0] in b;
      }
      forall y ensures y in a[1..] <==> y in b[1..] {
        if y in a[1..] {
          IncreasingSameTail(a, b, y);
        }
        if y in b[1..] {
          IncreasingSameTail(b, a, y);
        }
      }
      IncreasingUnique(a[1..], b[1..]);
      assert a == [a[0]] + a[1..] && b == [b[0]] + b[1..];
    }
  }

  /** The test `index >= 0 && index < str.length` of `sliceIndexes`. */
  function Within(length: int): int -> bool {
    i => 0 <= i < length
  }

  lemma {:induction false} FilterIncreasing(s: seq<int>, p: int -> bool)
    requires Increasing(s)
    ensures Increasing(Filter(s, p))
  {
    if s != [] {
      var f := Filter(s[1..], p);
      FilterIncreasing(s[1..], p);
      forall j | 0 <= j < |f| ensures s[0] < f[j] {
        assert f[j] in f;
        IncreasingAbove(s, 0, f[j]);
      }
      IncreasingCons(s[0], f);
    }
  }

  /** The positions at which `sliceIndexes` cuts `str`: the distinct in-range indexes, ascending. */
  function Cuts(str: string, indexes: seq<int>): (r: seq<int>)
    ensures Increasing(r)
    ensures forall i :: i in r <==> i in indexes && 0 <= i < |str|
  {
    FilterIncreasing(SortedUnique(indexes), Within(|str|));
    Filter(SortedUnique(indexes), Within(|str|))
  }

  /**
   * `cuts` are ascending candidate positions for the part of `s` that
   * starts at `start`, none of those inside `s` lying before `start`.
   */
  ghost predicate CutsFrom(s: string, start: int, cuts: seq<int>) {
    && 0 <= start <= |s|
    && Increasing(cuts)
    && forall k :: 0 <= k < |cuts| && 0 <= cuts[k] < |s| ==> start <= cuts[k]
  }

  /**
   * The pieces of `s[start..]` delimited by the candidate positions that lie
   * inside `s`; the others are skipped, as the loop of `sliceIndexes` does.
   */
  function Pieces(s: string, start: int, cuts: seq<int>): (r: seq<string>)
    requires CutsFrom(s, start, cuts)
    ensures |r| == |Filter(cuts, Within(|s|))| + 1
    ensures Concat(r) == s[start..]
    decreases |cuts|
  {
    if cuts == [] then [s[start..]]
    else if !(0 <= cuts[0] < |s|) then Pieces(s, start, cuts[1..])
    else
      var rest := Pieces(s, cuts[0], cuts[1..]);
      assert s[start..] == s[start..cuts[0]] + s[cuts[0]..];
      [s[start..cuts[0]]] + rest
  }

  lemma FilterCutsFrom(s: string, start: int, cuts: seq<int>)
    requires CutsFrom(s, start, cuts)
    ensures CutsFrom(s, start, Filter(cuts, Within(|s|)))
  {
    FilterIncreasing(cuts, Within(|s|));
    var f := Filter(cuts, Within(|s|));
    forall k | 0 <= k < |f| && 0 <= f[k] < |s| ensures start <= f[k] {
      assert f[k] in f;
      var i :| 0 <= i < |cuts| && cuts[i] == f[k];
    }
  }

  /** Dropping the first candidate keeps the others valid, from the same start or from that candidate. */
  lemma CutsFromTail(s: string, start: int, cuts: seq<int>)
    requires CutsFrom(s, start, cuts) && cuts != []
    ensures CutsFrom(s, start, cuts[1..])
    ensures 0 <= cuts[0] < |s| ==> CutsFrom(s, cuts[0], cuts[1..])
  {
    assert forall k :: 0 <= k < |cuts[1..]| ==> cuts[1..][k] == cuts[k + 1];
  }

  /** One step of `Pieces`: a candidate inside the string closes a piece, any other is skipped. */
  lemma PiecesStep(s: string, start: int, cuts: seq<int>)
    requires CutsFrom(s, start, cuts) && cuts != []
    ensures CutsFrom(s, start, cuts[1..])
    ensures 0 <= cuts[0] < |s| ==> CutsFrom(s, cuts[0], cuts[1..])
    ensures Pieces(s, start, cuts) ==
      (if 0 <= cuts[0] < |s| then [s[start..cuts[0]]] + Pieces(s, cuts[0], cuts[1..])
       else Pieces(s, start, cuts[1..]))
  {
    CutsFromTail(s, start, cuts);
  }

  /** Skipping the out-of-range candidates beforehand changes nothing. */
  lemma {:induction false} PiecesInRange(s: string, start: int, cuts: seq<int>)
    requires CutsFrom(s, start, cuts)
    ensures CutsFrom(s, start, Filter(cuts, Within(|s|)))
    ensures Pieces(s, start, cuts) == Pieces(s, start, Filter(cuts, Within(|s|)))
    decreases |cuts|
  {
    FilterCutsFrom(s, start, cuts);
    if cuts != [] {
      CutsFromTail(s, start, cuts);
      var f := Filter(cuts, Within(|s|));
      var tail := Filter(cuts[1..], Within(|s|));
      if 0 <= cuts[0] < |s| {
        assert f == [cuts[0]] + tail;
        PiecesInRange(s, cuts[0], cuts[1..]);
        assert f[0] == cuts[0] && f[1..] == tail;
        calc {
          Pieces(s, start, f);
          [s[start..cuts[0]]] + Pieces(s, cuts[0], tail);
          [s[start..cuts[0]]] + Pieces(s, cuts[0], cuts[1..]);
          Pieces(s, start, cuts);
        }
      } else {
        assert f == tail;
        PiecesInRange(s, start, cuts[1..]);
      }
    }
  }

  /** What `sliceIndexes(str, indexes)` returns. */
  function Slices(str: string, indexes: seq<int>): (r: seq<string>)
    ensures str == "" ==> r == []
    ensures str != "" ==> |r| == |Cuts(str, indexes)| + 1 && Concat(r) == str
  {
    if str == "" then [] else Pieces(str, 0, SortedUnique(indexes))
  }

  /**
   * sliceIndexes: cuts `str` at every distinct index inside the string,
   * in ascending order; the empty string gives no slice at all.
   */
  method SliceIndexes(str: string, indexes: seq<int>) returns (result: seq<string>)
    ensures result == Slices(str, indexes)
  {
    if |str| == 0 {
      return [];
    }
    var ordered := SortedUnique(indexes);
    result := [];
    var currentIndex := 0;
    assert ordered[0..] == ordered;
    ghost var pieces := Pieces(str, 0, ordered);
    for k := 0 to |ordered|
      invariant 0 <= currentIndex < |str|
      invariant CutsFrom(str, currentIndex, ordered[k..])
      invariant result + Pieces(str, currentIndex, ordered[k..]) == pieces
    {
      assert ordered[k..][0] == ordered[k] && ordered[k..][1..] == ordered[k + 1..];
      PiecesStep(str, currentIndex, ordered[k..]);
      var index := ordered[k];
      if index >= 0 && index < |str| {
        AppendAssociative(result, [str[currentIndex..index]], Pieces(str, index, ordered[k + 1..]));
        result := result + [str[currentIndex..index]];
        currentIndex := index;
      }
    }
    assert ordered[|ordered|..] == [];
    assert Pieces(str, currentIndex, []) == [str[currentIndex..]];
    assert pieces == Slices(str, indexes);
    result := result + [str[currentIndex..]];
  }

  lemma SlicesAsCuts(str: string, indexes: seq<int>)
    requires str != ""
    ensures CutsFrom(str, 0, Cuts(str, indexes))
    ensures Slices(str, indexes) == Pieces(str, 0, Cuts(str, indexes))
  {
    PiecesInRange(str, 0, SortedUnique(indexes));
  }

  /**
   * Only the distinct in-range indexes matter: their order, repetitions and
   * any index below 0 or at or beyond the end leave the slices unchanged.
   */
  lemma SlicesDependOnInRangeIndexes(str: string, a: seq<int>, b: seq<int>)
    requires forall i :: 0 <= i < |str| ==> (i in a <==> i in b)
    ensures Slices(str, a) == Slices(str, b)
  {
    if str != "" {
      IncreasingUnique(Cuts(str, a), Cuts(str, b));
      SlicesAsCuts(str, a);
      SlicesAsCuts(str, b);
    }
  }

  /** With no index inside the string, the only slice is the whole string. */
  lemma SlicesWithoutCut(str: string, indexes: seq<int>)
    requires str != ""
    requires forall i :: i in indexes ==> i < 0 || i >= |str|
    ensures Slices(str, indexes) == [str]
  {
    SlicesAsCuts(str, indexes);
  }

  /** The number of slices is one more than the number of distinct in-range indexes. */
  lemma SlicesCount(str: string, indexes: seq<int>)
    requires str != ""
    ensures |Slices(str, indexes)| == |(set i | i in indexes && 0 <= i < |str|)| + 1
  {
    var c := Cuts(str, indexes);
    assert (set i | i in indexes && 0 <= i < |str|) == (set i | i in c);
    IncreasingCard(c);
  }

  lemma {:induction false} IncreasingCard(s: seq<int>)
    requires Increasing(s)
    ensures |(set i | i in s)| == |s|
  {
    if s != [] {
      IncreasingCard(s[1..]);
      assert (set i | i in s) == {s[0]} + (set i | i in s[1..]);
    }
  }

  /** Index 0 produces a leading empty slice. */
  lemma SlicesAtZero(str: string, indexes: seq<int>)
    requires str != "" && 0 in indexes
    ensures Slices(str, indexes)[0] == ""
  {
    var c := Cuts(str, indexes);
    assert 0 in c;
    var k :| 0 <= k < |c| && c[k] == 0;
    SlicesAsCuts(str, indexes);
  }

  // ---------------------------------------------------------------------
  // highlight
  // ---------------------------------------------------------------------

  /** A mark to insert: its display content, its position in the text and an optional category. */
  datatype Mark = Mark(content: string, index: int, category: string)

  ghost predicate SortedByIndex(ms: seq<Mark>) {
    forall i, j :: 0 <= i < j < |ms| ==> ms[i].index <= ms[j].index
  }

  ghost predicate StrictlySortedByIndex(ms: seq<Mark>) {
    forall i, j :: 0 <= i < j < |ms| ==> ms[i].index < ms[j].index
  }

  /** A mark no later than the first of a sorted sequence can be put in front of it. */
  lemma SortedCons(x: Mark, ms: seq<Mark>)
    requires SortedByIndex(ms)
    requires ms != [] ==> x.index <= ms[0].index
    ensures SortedByIndex([x] + ms)
  {
    var r := [x] + ms;
    forall i, j | 0 <= i < j < |r| ensures r[i].index <= r[j].index {
      if i == 0 && j > 1 {
        assert r[j] == ms[j - 1] && ms[0].index <= ms[j - 1].index;
      }
    }
  }

  /** Places `m` after every mark whose index is not larger, which keeps the sort stable. */
  function InsertByIndex(m: Mark, ms: seq<Mark>): (r: seq<Mark>)
    requires SortedByIndex(ms)
    ensures SortedByIndex(r)
    ensures |r| == |ms| + 1
    ensures r[0] == m || (ms != [] && r[0] == ms[0])
    ensures multiset(r) == multiset(ms) + multiset{m}
  {
    if ms == [] then [m]
    else if m.index < ms[0].index then
      SortedCons(m, ms);
      [m] + ms
    else
      var rest := InsertByIndex(m, ms[1..]);
      InsertBehindHead(m, ms, rest);
      [ms[0]] + rest
  }

  /** A mark inserted into the rest of a sorted sequence can stay behind its first mark. */
  lemma InsertBehindHead(m: Mark, ms: seq<Mark>, rest: seq<Mark>)
    requires ms != [] && SortedByIndex(ms) && ms[0].index <= m.index
    requires SortedByIndex(rest) && rest != []
    requires rest[0] == m || (|ms| > 1 && rest[0] == ms[1])
    requires multiset(rest) == multiset(ms[1..]) + multiset{m}
    ensures SortedByIndex([ms[0]] + rest)
    ensures multiset([ms[0]] + rest) == multiset(ms) + multiset{m}
  {
    assert ms[0].index <= rest[0].index by {
      if rest[0] != m {
        assert rest[0] == ms[1];
      }
    }
    SortedCons(ms[0], rest);
    HeadMultiset(ms);
    assert multiset([ms[0]] + rest) == multiset{ms[0]} + multiset(rest);
  }

  /** lodash `sortBy(marks, m => m.index)`: a stable sort by index. */
  function SortByIndex(ms: seq<Mark>): (r: seq<Mark>)
    ensures SortedByIndex(r)
    ensures multiset(r) == multiset(ms)
    ensures |r| == |ms|
  {
    if ms == [] then []
    else
      assert ms == ms[..|ms| - 1] + [ms[|ms| - 1]];
      InsertByIndex(ms[|ms| - 1], SortByIndex(ms[..|ms| - 1]))
  }

  /** `map(marks, m => m.index)`. */
  function IndexesOf(ms: seq<Mark>): (r: seq<int>)
    ensures |r| == |ms|
    ensures forall k :: 0 <= k < |ms| ==> r[k] == ms[k].index
  {
    seq(|ms|, k requires 0 <= k < |ms| => ms[k].index)
  }

  /** `string.substring(k)` for a non-negative `k`. */
  function Drop(s: string, k: nat): string {
    if k >= |s| then "" else s[k..]
  }

  /** lodash `takeRight`. */
  function TakeRight<T>(s: seq<T>, n: nat): seq<T> {
    if n >= |s| then s else s[|s| - n..]
  }

  /**
   * The marks paired with the slices after the first, one piece per mark:
   * the mark's own rendering, then the rest of its slice once the mark's
   * content is cut from the front. A mark with no slice left to pair with
   * gets the empty string, as lodash `zip` pads the shorter list.
   */
  function MarkedPieces(rests: seq<string>, marks: seq<Mark>,
                        markFun: Mark -> string, restFun: string -> string, contentFun: Mark -> string): (r: seq<string>)
    ensures |r| == |marks|
    decreases |marks|
  {
    if marks == [] then []
    else
      var slice := if rests == [] then "" else rests[0];
      [markFun(marks[0]) + restFun(Drop(slice, |contentFun(marks[0])|))]
        + MarkedPieces(if rests == [] then [] else rests[1..], marks[1..], markFun, restFun, contentFun)
  }

  /**
   * highlight(str, marks, markFun, restFun, contentFun). For the empty string
   * `sliceIndexes` gives no slice, `docContentSlices[0]` is undefined and the
   * result starts with the text "undefined".
   */
  function Highlight(str: string, marks: seq<Mark>,
                     markFun: Mark -> string, restFun: string -> string, contentFun: Mark -> string): string
  {
    var sortedMarks := SortByIndex(marks);
    var slices := Slices(str, IndexesOf(sortedMarks));
    var marked := MarkedPieces(TakeRight(slices, |sortedMarks|), sortedMarks, markFun, restFun, contentFun);
    (if slices == [] then "undefined" else slices[0]) + Concat(marked)
  }

  /** The default `markFun`: m => `<mark>${m.content}</mark>`. */
  function DefaultMark(m: Mark): string {
    "<mark>" + m.content + "</mark>"
  }

  /** The default `restFun`: lodash `identity`. */
  function Identity(s: string): string {
    s
  }

  /** The default `contentFun`: m => m.content. */
  function Content(m: Mark): string {
    m.content
  }

  /** Where the text after the first mark of `ms` ends: at the next mark, or at the end of `str`. */
  function NextIndex(str: string, ms: seq<Mark>): int {
    if |ms| > 1 then ms[1].index else |str|
  }

  /**
   * Marks sorted by strictly increasing index, each inside `str`, whose
   * contents (as measured by `contentFun`) do not run into the next mark
   * or past the end of the text; stated mark by mark.
   */
  ghost predicate Placed(str: string, ms: seq<Mark>, contentFun: Mark -> string)
    decreases |ms|
  {
    ms == [] ||
    (&& 0 <= ms[0].index < |str|
     && (|ms| > 1 ==> ms[0].index < ms[1].index)
     && ms[0].index + |contentFun(ms[0])| <= NextIndex(str, ms)
     && Placed(str, ms[1..], contentFun))
  }

  lemma {:induction false} PlacedIndexes(str: string, ms: seq<Mark>, contentFun: Mark -> string)
    requires Placed(str, ms, contentFun)
    ensures Increasing(IndexesOf(ms))
    ensures forall k :: 0 <= k < |ms| ==> 0 <= IndexesOf(ms)[k] < |str|
    decreases |ms|
  {
    if ms != [] {
      PlacedIndexes(str, ms[1..], contentFun);
      IndexesOfTail(ms);
      var t := IndexesOf(ms[1..]);
      forall j | 0 <= j < |t| ensures ms[0].index < t[j] {
        assert t[0] == ms[1].index;
      }
      IncreasingCons(ms[0].index, t);
    }
  }

  lemma PlacedHead(str: string, ms: seq<Mark>, contentFun: Mark -> string)
    requires ms != [] && Placed(str, ms, contentFun)
    ensures 0 <= ms[0].index <= ms[0].index + |contentFun(ms[0])| <= NextIndex(str, ms) <= |str|
    ensures Placed(str, ms[1..], contentFun)
  {
    if |ms| > 1 {
      assert ms[1..][0] == ms[1];
    }
  }

  function FirstIndex(str: string, ms: seq<Mark>): int {
    if ms == [] then |str| else ms[0].index
  }

  /**
   * The highlighted text by construction: for every mark its formatted mark,
   * followed by the formatted text that runs from the end of its content to
   * the next mark (or to the end).
   */
  function Rendered(str: string, ms: seq<Mark>,
                    markFun: Mark -> string, restFun: string -> string, contentFun: Mark -> string): string
    requires Placed(str, ms, contentFun)
    decreases |ms|
  {
    if ms == [] then ""
    else
      PlacedHead(str, ms, contentFun);
      markFun(ms[0]) + restFun(str[ms[0].index + |contentFun(ms[0])|..NextIndex(str, ms)])
        + Rendered(str, ms[1..], markFun, restFun, contentFun)
  }

  lemma IndexesOfTail(ms: seq<Mark>)
    requires ms != []
    ensures IndexesOf(ms) == [ms[0].index] + IndexesOf(ms[1..])
  {
  }

  lemma PlacedCuts(str: string, ms: seq<Mark>, contentFun: Mark -> string)
    requires ms != [] && Placed(str, ms, contentFun)
    ensures CutsFrom(str, ms[0].index, IndexesOf(ms[1..]))
    ensures CutsFrom(str, 0, IndexesOf(ms))
    ensures Filter(IndexesOf(ms[1..]), Within(|str|)) == IndexesOf(ms[1..])
  {
    PlacedHead(str, ms, contentFun);
    PlacedIndexes(str, ms, contentFun);
    PlacedIndexes(str, ms[1..], contentFun);
    var idx := IndexesOf(ms[1..]);
    forall k | 0 <= k < |idx| ensures ms[0].index <= idx[k] {
      assert ms[1..][k] == ms[k + 1];
    }
    forall x | x in idx ensures Within(|str|)(x) {
      var k :| 0 <= k < |idx| && idx[k] == x;
    }
    FilterAll(idx, Within(|str|));
  }

  /** Pieces at a cut position inside the text. */
  lemma PiecesCons(s: string, start: int, c: int, rest: seq<int>)
    requires CutsFrom(s, start, [c] + rest) && start <= c < |s|
    ensures CutsFrom(s, c, rest)
    ensures Pieces(s, start, [c] + rest) == [s[start..c]] + Pieces(s, c, rest)
  {
    assert ([c] + rest)[0] == c && ([c] + rest)[1..] == rest;
  }

  lemma MarkedPiecesCons(p: string, ps: seq<string>, ms: seq<Mark>,
                         markFun: Mark -> string, restFun: string -> string, contentFun: Mark -> string)
    requires ms != []
    ensures Concat(MarkedPieces([p] + ps, ms, markFun, restFun, contentFun))
         == markFun(ms[0]) + restFun(Drop(p, |contentFun(ms[0])|)) + Concat(MarkedPieces(ps, ms[1..], markFun, restFun, contentFun))
  {
    assert ([p] + ps)[0] == p && ([p] + ps)[1..] == ps;
  }

  /** The text after a mark's content, up to the next cut. */
  lemma DropSlice(s: string, i: int, j: int, n: nat)
    requires 0 <= i <= i + n <= j <= |s|
    ensures Drop(s[i..j], n) == s[i + n..j]
  {
  }

  lemma {:induction false} RenderedPieces(str: string, ms: seq<Mark>,
                                          markFun: Mark -> string, restFun: string -> string, contentFun: Mark -> string)
    requires ms != [] && Placed(str, ms, contentFun)
    ensures CutsFrom(str, ms[0].index, IndexesOf(ms[1..]))
    ensures Concat(MarkedPieces(Pieces(str, ms[0].index, IndexesOf(ms[1..])), ms, markFun, restFun, contentFun))
         == Rendered(str, ms, markFun, restFun, contentFun)
    decreases |ms|
  {
    PlacedCuts(str, ms, contentFun);
    PlacedHead(str, ms, contentFun);
    var i := ms[0].index;
    var n := |contentFun(ms[0])|;
    var next := NextIndex(str, ms);
    var tail := ms[1..];
    if tail == [] {
      assert IndexesOf(tail) == [];
      assert Pieces(str, i, []) == [str[i..]] + [];
      DropSlice(str, i, next, n);
      assert str[i..] == str[i..next];
      MarkedPiecesCons(str[i..], [], ms, markFun, restFun, contentFun);
    } else {
      var j := tail[0].index;
      IndexesOfTail(tail);
      PiecesCons(str, i, j, IndexesOf(tail[1..]));
      DropSlice(str, i, j, n);
      MarkedPiecesCons(str[i..j], Pieces(str, j, IndexesOf(tail[1..])), ms, markFun, restFun, contentFun);
      RenderedPieces(str, tail, markFun, restFun, contentFun);
    }
  }

  lemma PiecesAllInRange(str: string, idx: seq<int>)
    requires Increasing(idx)
    requires forall k :: 0 <= k < |idx| ==> 0 <= idx[k] < |str|
    ensures str != "" ==> Slices(str, idx) == Pieces(str, 0, idx)
  {
    if str != "" {
      SlicesAsCuts(str, idx);
      IncreasingUnique(Cuts(str, idx), idx);
    }
  }

  /**
   * For non-overlapping marks inside a non-empty text, `highlight` emits the
   * text before the first mark raw, then each formatted mark, with
   * `restFun` applied only to the text that follows a mark.
   */
  lemma HighlightPlaced(str: string, marks: seq<Mark>,
                        markFun: Mark -> string, restFun: string -> string, contentFun: Mark -> string)
    requires str != ""
    requires Placed(str, SortByIndex(marks), contentFun)
    ensures var ms := SortByIndex(marks);
      Highlight(str, marks, markFun, restFun, contentFun)
        == str[..FirstIndex(str, ms)] + Rendered(str, ms, markFun, restFun, contentFun)
  {
    var ms := SortByIndex(marks);
    var idx := IndexesOf(ms);
    PlacedIndexes(str, ms, contentFun);
    PiecesAllInRange(str, idx);
    var slices := Slices(str, idx);
    if ms == [] {
      assert slices == [str];
    } else {
      PlacedCuts(str, ms, contentFun);
      IndexesOfTail(ms);
      PiecesCons(str, 0, ms[0].index, IndexesOf(ms[1..]));
      var tail := Pieces(str, ms[0].index, IndexesOf(ms[1..]));
      assert slices == [str[..ms[0].index]] + tail;
      assert |tail| == |ms|;
      assert TakeRight(slices, |ms|) == tail;
      RenderedPieces(str, ms, markFun, restFun, contentFun);
    }
  }

  /** With no marks, a non-empty text comes back unchanged. */
  lemma HighlightWithoutMarks(str: string, markFun: Mark -> string, restFun: string -> string, contentFun: Mark -> string)
    requires str != ""
    ensures Highlight(str, [], markFun, restFun, contentFun) == str
  {
    HighlightPlaced(str, [], markFun, restFun, contentFun);
  }

  /** The empty text: every mark is emitted with an empty rest, after the text "undefined". */
  lemma HighlightEmptyText(marks: seq<Mark>, markFun: Mark -> string, restFun: string -> string, contentFun: Mark -> string)
    ensures Highlight("", marks, markFun, restFun, contentFun)
         == "undefined" + Concat(MarkedPieces([], SortByIndex(marks), markFun, restFun, contentFun))
  {
  }

  /** The content of `m` is what the text holds at the mark's position. */
  ghost predicate Occurs(str: string, m: Mark) {
    0 <= m.index && m.index + |m.content| <= |str| && str[m.index..m.index + |m.content|] == m.content
  }

  /**
   * The text with the span of every mark wrapped in `<mark>` tags and all
   * other text kept as it is.
   */
  function Wrapped(str: string, ms: seq<Mark>): string
    requires Placed(str, ms, Content)
    decreases |ms|
  {
    if ms == [] then ""
    else
      PlacedHead(str, ms, Content);
      var i := ms[0].index;
      var e := i + |Content(ms[0])|;
      "<mark>" + str[i..e] + "</mark>" + str[e..NextIndex(str, ms)] + Wrapped(str, ms[1..])
  }

  /** One mark of the default rendering, written out. */
  lemma WrapStep(m: Mark, span: string, after: string, rendered: string, wrapped: string)
    requires span == m.content && rendered == wrapped
    ensures DefaultMark(m) + Identity(after) + rendered == "<mark>" + span + "</mark>" + after + wrapped
  {
  }

  lemma {:induction false} RenderedDefault(str: string, ms: seq<Mark>)
    requires Placed(str, ms, Content)
    requires forall m :: m in ms ==> Occurs(str, m)
    ensures Rendered(str, ms, DefaultMark, Identity, Content) == Wrapped(str, ms)
    decreases |ms|
  {
    if ms != [] {
      PlacedHead(str, ms, Content);
      assert ms[0] in ms;
      forall x | x in ms[1..] ensures Occurs(str, x) {
        assert x in ms;
      }
      RenderedDefault(str, ms[1..]);
      RenderedDefaultStep(str, ms);
    }
  }

  /** The first mark of the default rendering is its span wrapped, when the rest renders as wrapped. */
  lemma RenderedDefaultStep(str: string, ms: seq<Mark>)
    requires ms != [] && Placed(str, ms, Content) && Occurs(str, ms[0])
    requires Placed(str, ms[1..], Content)
    requires Rendered(str, ms[1..], DefaultMark, Identity, Content) == Wrapped(str, ms[1..])
    ensures Rendered(str, ms, DefaultMark, Identity, Content) == Wrapped(str, ms)
  {
    PlacedHead(str, ms, Content);
    var m := ms[0];
    var e := m.index + |m.content|;
    var next := NextIndex(str, ms);
    RenderedCons(str, ms, DefaultMark, Identity, Content, e, next);
    WrappedCons(str, ms, e, next);
    assert str[m.index..e] == m.content;
    WrapStep(m, str[m.index..e], str[e..next], Rendered(str, ms[1..], DefaultMark, Identity, Content), Wrapped(str, ms[1..]));
  }

  /** `Rendered` of a non-empty sequence, unfolded once. */
  lemma RenderedCons(str: string, ms: seq<Mark>,
                     markFun: Mark -> string, restFun: string -> string, contentFun: Mark -> string, e: int, next: int)
    requires ms != [] && Placed(str, ms, contentFun) && Placed(str, ms[1..], contentFun)
    requires e == ms[0].index + |contentFun(ms[0])| && next == NextIndex(str, ms) && 0 <= e <= next <= |str|
    ensures Rendered(str, ms, markFun, restFun, contentFun)
         == markFun(ms[0]) + restFun(str[e..next]) + Rendered(str, ms[1..], markFun, restFun, contentFun)
  {
  }

  /** `Wrapped` of a non-empty sequence, unfolded once. */
  lemma WrappedCons(str: string, ms: seq<Mark>, e: int, next: int)
    requires ms != [] && Placed(str, ms, Content) && Placed(str, ms[1..], Content)
    requires e == ms[0].index + |ms[0].content| && next == NextIndex(str, ms) && 0 <= ms[0].index <= e <= next <= |str|
    ensures Wrapped(str, ms) == "<mark>" + str[ms[0].index..e] + "</mark>" + str[e..next] + Wrapped(str, ms[1..])
  {
  }

  /**
   * With the default formatters, marks whose contents occur in the text at
   * their positions come out wrapped in `<mark>` tags, and the rest of the
   * text is kept as it is.
   */
  lemma HighlightDefault(str: string, marks: seq<Mark>)
    requires str != ""
    requires Placed(str, SortByIndex(marks), Content)
    requires forall m :: m in marks ==> Occurs(str, m)
    ensures var ms := SortByIndex(marks);
      Highlight(str, marks, DefaultMark, Identity, Content) == str[..FirstIndex(str, ms)] + Wrapped(str, ms)
  {
    var ms := SortByIndex(marks);
    forall m | m in ms ensures Occurs(str, m) {
      assert m in multiset(ms);
    }
    HighlightPlaced(str, marks, DefaultMark, Identity, Content);
    RenderedDefault(str, ms);
  }

  // Marks are sorted first, so the order in which they are given is irrelevant.

  lemma {:induction false} DistinctCount<T>(s: seq<T>, x: T)
    requires Distinct(s)
    ensures multiset(s)[x] <= 1
  {
    if s != [] {
      assert s == [s[0]] + s[1..];
      assert s[0] !in s[1..];
      DistinctCount(s[1..], x);
    }
  }

  lemma DistinctPermutation<T>(a: seq<T>, b: seq<T>)
    requires Distinct(a) && multiset(a) == multiset(b)
    ensures Distinct(b)
  {
    forall i, j | 0 <= i < j < |b| ensures b[i] != b[j] {
      if b[i] == b[j] {
        assert b == b[..j] + b[j..];
        assert b[i] in b[..j] && b[j] in b[j..];
        assert multiset(b)[b[i]] == multiset(b[..j])[b[i]] + multiset(b[j..])[b[i]];
        DistinctCount(a, b[i]);
      }
    }
  }

  /** Marks whose index identifies them, none given twice. */
  ghost predicate DistinctIndexes(ms: seq<Mark>) {
    forall i, j :: 0 <= i < j < |ms| ==> ms[i].index != ms[j].index
  }

  /** The first mark of a strictly sorted sequence has the least index, and only it has that index. */
  lemma StrictlySortedHead(a: seq<Mark>, x: Mark)
    requires a != [] && StrictlySortedByIndex(a) && x in multiset(a)
    ensures a[0].index <= x.index
    ensures x.index == a[0].index ==> x == a[0]
  {
    var i :| 0 <= i < |a| && a[i] == x;
  }

  /** Two strictly sorted permutations of each other start with the same mark. */
  lemma StrictlySortedSameHead(a: seq<Mark>, b: seq<Mark>)
    requires a != [] && b != []
    requires StrictlySortedByIndex(a) && StrictlySortedByIndex(b)
    requires multiset(a) == multiset(b)
    ensures a[0] == b[0]
  {
    assert a[0] in multiset(b) && b[0] in multiset(a);
    StrictlySortedHead(b, a[0]);
    StrictlySortedHead(a, b[0]);
  }

  lemma {:induction false} StrictlySortedUnique(a: seq<Mark>, b: seq<Mark>)
    requires StrictlySortedByIndex(a) && StrictlySortedByIndex(b)
    requires multiset(a) == multiset(b)
    ensures a == b
    decreases |a|
  {
    assert |a| == |multiset(a)| == |multiset(b)| == |b|;
    if a != [] {
      StrictlySortedSameHead(a, b);
      TailMultiset(a);
      TailMultiset(b);
      StrictlySortedUnique(a[1..], b[1..]);
      assert a == [a[0]] + a[1..] && b == [b[0]] + b[1..];
    }
  }

  lemma SortedStrictly(marks: seq<Mark>)
    requires DistinctIndexes(marks)
    ensures StrictlySortedByIndex(SortByIndex(marks))
  {
    var r := SortByIndex(marks);
    assert Distinct(marks);
    DistinctPermutation(marks, r);
    forall i, j | 0 <= i < j < |r| ensures r[i].index < r[j].index {
      assert r[i] in multiset(marks) && r[j] in multiset(marks);
      var a :| 0 <= a < |marks| && marks[a] == r[i];
      var b :| 0 <= b < |marks| && marks[b] == r[j];
      assert a != b;
    }
  }

  /** Reordering marks with distinct indexes does not change the highlighted text. */
  lemma HighlightIgnoresMarkOrder(str: string, marks: seq<Mark>, others: seq<Mark>,
                                  markFun: Mark -> string, restFun: string -> string, contentFun: Mark -> string)
    requires DistinctIndexes(marks)
    requires multiset(others) == multiset(marks)
    ensures Highlight(str, others, markFun, restFun, contentFun) == Highlight(str, marks, markFun, restFun, contentFun)
  {
    SortedStrictly(marks);
    var r1 := SortByIndex(marks);
    var r2 := SortByIndex(others);
    SortedPermutationStrictly(r1, r2);
    StrictlySortedUnique(r1, r2);
  }

  /** A sorted permutation of a strictly sorted sequence is strictly sorted. */
  lemma SortedPermutationStrictly(r1: seq<Mark>, r2: seq<Mark>)
    requires StrictlySortedByIndex(r1) && SortedByIndex(r2)
    requires multiset(r1) == multiset(r2)
    ensures StrictlySortedByIndex(r2)
  {
    forall i, j | 0 <= i < j < |r2| ensures r2[i].index < r2[j].index {
      assert r2[i] in multiset(r1) && r2[j] in multiset(r1);
      DistinctPermutation(r1, r2);
      var a :| 0 <= a < |r1| && r1[a] == r2[i];
      var b :| 0 <= b < |r1| && r1[b] == r2[j];
      assert a != b;
      assert r2[i].index <= r2[j].index;
    }
  }

  // ---------------------------------------------------------------------
  // slugger
  // ---------------------------------------------------------------------

  /**
   * The characters removed by the first `replace` of `slugger`: the General
   * Punctuation block U+2000..U+206F, the Supplemental Punctuation block
   * U+2E00..U+2E7F and the ASCII punctuation listed in the character class.
   */
  predicate IsSlugPunctuation(c: char) {
    || ('\U{2000}' <= c <= '\U{206F}')
    || ('\U{2E00}' <= c <= '\U{2E7F}')
    || c in "\\'!\"#$%&()*+,./:;<=>?@[]^`{|}~"
  }

  /** The characters the punctuation `replace` of `slugger` keeps. */
  predicate KeptInSlug(c: char) {
    !IsSlugPunctuation(c)
  }

  /** `r` is a middle stretch of `s`, and everything outside it is whitespace. */
  ghost predicate OuterStripped(s: string, r: string, isSpace: char -> bool) {
    exists i, j :: 0 <= i <= j <= |s| && r == s[i..j]
      && forall k :: (0 <= k < i || j <= k < |s|) ==> isSpace(s[k])
  }

  /**
   * `String.prototype.trim`, for the whitespace class `isSpace` (the same
   * class as the regex `\s`): only whitespace at either end goes, the middle
   * is kept as it is, and the result neither starts nor ends with whitespace.
   */
  function Trim(s: string, isSpace: char -> bool): (r: string)
    ensures |r| <= |s|
    ensures OuterStripped(s, r, isSpace)
    ensures r != [] ==> !isSpace(r[0]) && !isSpace(r[|r| - 1])
    decreases |s|
  {
    if s == [] then
      assert s[0..0] == s;
      s
    else if isSpace(s[0]) then
      var r := Trim(s[1..], isSpace);
      StrippedFront(s, r, isSpace);
      r
    else if isSpace(s[|s| - 1]) then
      var r := Trim(s[..|s| - 1], isSpace);
      StrippedBack(s, r, isSpace);
      r
    else
      assert s[0..|s|] == s;
      s
  }

  /** Stripping a leading whitespace character first changes nothing. */
  lemma StrippedFront(s: string, r: string, isSpace: char -> bool)
    requires s != [] && isSpace(s[0]) && OuterStripped(s[1..], r, isSpace)
    ensures OuterStripped(s, r, isSpace)
  {
    var i, j :| 0 <= i <= j <= |s[1..]| && r == s[1..][i..j]
      && forall k :: (0 <= k < i || j <= k < |s[1..]|) ==> isSpace(s[1..][k]);
    assert r == s[i + 1..j + 1];
    forall k | 0 <= k < i + 1 || j + 1 <= k < |s|
      ensures isSpace(s[k])
    {
      if k > 0 {
        assert s[k] == s[1..][k - 1];
      }
    }
  }

  /** Stripping a trailing whitespace character first changes nothing. */
  lemma StrippedBack(s: string, r: string, isSpace: char -> bool)
    requires s != [] && isSpace(s[|s| - 1]) && OuterStripped(s[..|s| - 1], r, isSpace)
    ensures OuterStripped(s, r, isSpace)
  {
    var t := s[..|s| - 1];
    var i, j :| 0 <= i <= j <= |t| && r == t[i..j]
      && forall k :: (0 <= k < i || j <= k < |t|) ==> isSpace(t[k]);
    assert r == s[i..j];
    forall k | 0 <= k < i || j <= k < |s|
      ensures isSpace(s[k])
    {
      if k < |t| {
        assert s[k] == t[k];
      }
    }
  }

  /** `.replace(/\s/g, '-')`. */
  function Dashed(s: string, isSpace: char -> bool): (r: string)
    ensures |r| == |s|
    ensures forall k :: 0 <= k < |s| ==> r[k] == if isSpace(s[k]) then '-' else s[k]
    ensures forall c :: c in r ==> c == '-' || (c in s && !isSpace(c))
  {
    seq(|s|, k requires 0 <= k < |s| => if isSpace(s[k]) then '-' else s[k])
  }

  /**
   * slugger(value): lower-case, trim, drop the punctuation, then turn every
   * whitespace character into '-'. Lower-casing is the abstract `lower`.
   */
  function Slugger(value: string, lower: string -> string, isSpace: char -> bool): (r: string)
    ensures forall c :: c in r ==> !IsSlugPunctuation(c)
    ensures forall c :: c in r ==> c == '-' || !isSpace(c)
    ensures |r| <= |lower(value)|
  {
    Dashed(Filter(Trim(lower(value), isSpace), KeptInSlug), isSpace)
  }

  /** A lower-case word without whitespace or punctuation is its own slug. */
  lemma SluggerKeepsWord(value: string, lower: string -> string, isSpace: char -> bool)
    requires lower(value) == value
    requires forall c :: c in value ==> !isSpace(c) && !IsSlugPunctuation(c)
    ensures Slugger(value, lower, isSpace) == value
  {
    FilterAll(value, KeptInSlug);
    if value != [] {
      assert !isSpace(value[0]) && !isSpace(value[|value| - 1]);
    }
  }
}
