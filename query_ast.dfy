/**
 * The query-term logic of the search store over the lucene query AST:
 * listing the terms of a query (`retrieveQueryTerms`), keeping those that
 * search the content (`retrieveContentQueryTerms`), counting literal terms
 * in a text (`retrieveContentQueryTermsInContent`) and removing a term from
 * a query (`deleteQueryTermFromSimpleQuery`). The lucene parser itself is an
 * abstract, possibly failing function.
 */
module QueryAst {
  import opened Collections

  /**
   * A lucene AST node: an inner node with optional children, start keyword
   * (`NOT`), operator (`AND`, `OR NOT`, `<implicit>`, ...) and parenthesis
   * flag, or a leaf holding one term.
   */
  datatype Node =
    | Branch(left: Option<Node>, right: Option<Node>, start: Option<string>, operator: Option<string>, parenthesized: bool)
    | Leaf(term: string, field: string, prefix: string, regex: bool)

  /** An entry of `retrieveQueryTerms`; `text` is the source's `label`. */
  datatype QueryTerm = QueryTerm(field: string, text: string, negation: bool, regex: bool)

  datatype Side = Left | Right

  // ---------------------------------------------------------------------
  // Reading the AST the way lodash `get`/`has` do
  // ---------------------------------------------------------------------

  /** `get(query, side)`. */
  function Child(q: Node, side: Side): Option<Node> {
    if q.Leaf? then None else if side == Left then q.left else q.right
  }

  /** `get(node, 'term', '')`. */
  function TermAt(n: Option<Node>): string {
    if n.Some? && n.value.Leaf? then n.value.term else ""
  }

  /** `has(node, 'left')`. */
  predicate HasLeft(n: Option<Node>) {
    n.Some? && n.value.Branch? && n.value.left.Some?
  }

  /** `has(node, 'right')`. */
  predicate HasRight(n: Option<Node>) {
    n.Some? && n.value.Branch? && n.value.right.Some?
  }

  function StartOf(q: Node): Option<string> {
    if q.Branch? then q.start else None
  }

  function OperatorOf(q: Node): Option<string> {
    if q.Branch? then q.operator else None
  }

  // ---------------------------------------------------------------------
  // String helpers
  // ---------------------------------------------------------------------

  predicate OccursAt(s: string, pat: string, j: int) {
    0 <= j && j + |pat| <= |s| && s[j..j + |pat|] == pat
  }

  /** The first position at or after `i` where `pat` occurs in `s`, or -1 (`indexOf`). */
  function FindFrom(s: string, pat: string, i: nat): (k: int)
    requires i <= |s|
    ensures k == -1 || (i <= k && OccursAt(s, pat, k))
    ensures k == -1 ==> forall j :: i <= j ==> !OccursAt(s, pat, j)
    ensures k != -1 ==> forall j :: i <= j < k ==> !OccursAt(s, pat, j)
    decreases |s| - i
  {
    if i + |pat| > |s| then -1
    else if s[i..i + |pat|] == pat then i
    else FindFrom(s, pat, i + 1)
  }

  /** `s.replace(pat, rep)` with a string pattern: only the first occurrence is replaced. */
  function ReplaceFirst(s: string, pat: string, rep: string): (r: string)
    ensures FindFrom(s, pat, 0) == -1 ==> r == s
    ensures FindFrom(s, pat, 0) != -1 ==>
      && |r| == |s| - |pat| + |rep|
      && r[..FindFrom(s, pat, 0)] == s[..FindFrom(s, pat, 0)]
      && r[FindFrom(s, pat, 0)..FindFrom(s, pat, 0) + |rep|] == rep
      && r[FindFrom(s, pat, 0) + |rep|..] == s[FindFrom(s, pat, 0) + |pat|..]
  {
    var k := FindFrom(s, pat, 0);
    if k < 0 then s else s[..k] + rep + s[k + |pat|..]
  }

  /** `s.includes(sub)`. */
  predicate Contains(s: string, sub: string) {
    FindFrom(s, sub, 0) != -1
  }

  /** lodash `endsWith(s, suffix)`; a missing string reads as ''. */
  predicate EndsWith(s: Option<string>, suffix: string) {
    s.Some? && |suffix| <= |s.value| && s.value[|s.value| - |suffix|..] == suffix
  }

  /** `term.replace('\\', '')`: removes the first backslash. */
  function StripFirstBackslash(t: string): (r: string)
    ensures '\\' !in t ==> r == t
    ensures '\\' in t ==> |r| == |t| - 1
  {
    DeleteAt(t, IndexOf(t, '\\'))
  }

  // ---------------------------------------------------------------------
  // retrieveQueryTerms
  // ---------------------------------------------------------------------

  /** One call of `getTerm`: the child it reads, the start keyword and the operator it was given. */
  datatype Visit = Visit(child: Option<Node>, start: Option<string>, operator: Option<string>)

  /**
   * The `getTerm` calls that `retTerms(q, operator)` makes, in order: the
   * left child with the node's start keyword; then either the right child
   * with the node's operator, or (when the right child has a left child)
   * the right subtree, carrying the node's operator.
   */
  function Visits(q: Node, operator: Option<string>): seq<Visit>
    decreases q, 1
  {
    SideVisits(q, Left, StartOf(q), operator) +
      if q.Branch? && HasLeft(q.right) then Visits(q.right.value, q.operator)
      else SideVisits(q, Right, None, OperatorOf(q))
  }

  /**
   * `getTerm(q, side, start, operator)`; a child without a term that has a
   * left child of its own makes `getTerm` descend into `q.left` (always the
   * left one, as the source does).
   */
  function SideVisits(q: Node, side: Side, start: Option<string>, operator: Option<string>): seq<Visit>
    decreases q, 0
  {
    var child := Child(q, side);
    [Visit(child, start, operator)] +
      if TermAt(child) == "" && HasLeft(child) && q.Branch? && q.left.Some? then Visits(q.left.value, None)
      else []
  }

  function Labels(terms: seq<QueryTerm>): (r: seq<string>)
    ensures |r| == |terms|
    ensures forall i :: 0 <= i < |terms| ==> r[i] == terms[i].text
  {
    seq(|terms|, i requires 0 <= i < |terms| => terms[i].text)
  }

  /** A visit whose raw term is neither '*' nor ''. */
  predicate Admissible(v: Visit) {
    TermAt(v.child) != "*" && TermAt(v.child) != ""
  }

  /** Negated by a `-`/`!` prefix, a `NOT` start keyword or an operator ending in `NOT`. */
  predicate Negated(prefix: string, start: Option<string>, operator: Option<string>) {
    prefix in ["-", "!"] || start == Some("NOT") || EndsWith(operator, "NOT")
  }

  /** The entry a visit contributes: `<implicit>` field becomes '', first backslash of the label dropped. */
  function TermOf(v: Visit): (t: QueryTerm)
    requires Admissible(v)
    ensures t.text == StripFirstBackslash(TermAt(v.child))
    ensures t.field == "" <==> v.child.value.field in ["", "<implicit>"]
    ensures t.negation <==> Negated(v.child.value.prefix, v.start, v.operator)
  {
    var leaf := v.child.value;
    QueryTerm(if leaf.field == "<implicit>" then "" else leaf.field,
              StripFirstBackslash(leaf.term),
              Negated(leaf.prefix, v.start, v.operator),
              leaf.regex)
  }

  /** What one `getTerm` call does to `terms`: append, unless the raw term is already a label. */
  function AddVisit(terms: seq<QueryTerm>, v: Visit): seq<QueryTerm> {
    if Admissible(v) && TermAt(v.child) !in Labels(terms) then terms + [TermOf(v)] else terms
  }

  function AddAll(terms: seq<QueryTerm>, vs: seq<Visit>): seq<QueryTerm>
    decreases |vs|
  {
    if vs == [] then terms else AddAll(AddVisit(terms, vs[0]), vs[1..])
  }

  lemma {:induction false} AddAllAppend(terms: seq<QueryTerm>, a: seq<Visit>, b: seq<Visit>)
    ensures AddAll(terms, a + b) == AddAll(AddAll(terms, a), b)
    decreases |a|
  {
    if a != [] {
      assert (a + b)[0] == a[0] && (a + b)[1..] == a[1..] + b;
      AddAllAppend(AddVisit(terms, a[0]), a[1..], b);
    } else {
      assert a + b == b;
    }
  }

  /** Two `getTerm` calls in a row. */
  lemma AddAllTwo(terms: seq<QueryTerm>, v1: Visit, v2: Visit)
    ensures AddAll(terms, [v1, v2]) == AddVisit(AddVisit(terms, v1), v2)
  {
    assert [v1, v2][0] == v1 && [v1, v2][1..] == [v2] && [v2][1..] == [];
    assert AddAll(terms, [v1, v2]) == AddAll(AddVisit(terms, v1), [v2]);
    assert AddAll(AddVisit(terms, v1), [v2]) == AddAll(AddVisit(AddVisit(terms, v1), v2), []);
  }

  /** The terms of a parsed query: `retTerms` run on the root with an empty accumulator. */
  function Collect(root: Node): seq<QueryTerm> {
    AddAll([], Visits(root, None))
  }

  /**
   * retrieveQueryTerms on the query text: `\@` is unescaped (first
   * occurrence only) before parsing, and a query the parser rejects has no
   * terms.
   */
  function QueryTermsOf(query: string, parse: string -> Option<Node>): (r: seq<QueryTerm>)
    ensures parse(ReplaceFirst(query, "\\@", "@")).None? ==> r == []
  {
    match parse(ReplaceFirst(query, "\\@", "@"))
    case None => []
    case Some(root) => Collect(root)
  }

  /** `getTerm`, threading the captured `terms` accumulator through. */
  method GetTerm(terms: seq<QueryTerm>, query: Node, side: Side, start: Option<string>, operator: Option<string>)
    returns (result: seq<QueryTerm>)
    ensures result == AddAll(terms, SideVisits(query, side, start, operator))
    decreases query, 0
  {
    var child := Child(query, side);
    var term := TermAt(child);
    var field := if child.Some? && child.value.Leaf? then child.value.field else "";
    var prefix := if child.Some? && child.value.Leaf? then child.value.prefix else "";
    var regex := child.Some? && child.value.Leaf? && child.value.regex;
    var negation := prefix in ["-", "!"] || start == Some("NOT") || EndsWith(operator, "NOT");
    result := terms;
    if term != "*" && term != "" && term !in Labels(result) {
      result := result + [QueryTerm(if field == "<implicit>" then "" else field, StripFirstBackslash(term), negation, regex)];
    }
    assert result == AddAll(terms, [Visit(child, start, operator)]);
    if term == "" && HasLeft(child) && query.Branch? && query.left.Some? {
      result := RetTerms(result, query.left.value, None);
      AddAllAppend(terms, [Visit(child, start, operator)], Visits(query.left.value, None));
    } else {
      assert SideVisits(query, side, start, operator) == [Visit(child, start, operator)];
    }
  }

  /** `retTerms(query, operator)`. */
  method RetTerms(terms: seq<QueryTerm>, query: Node, operator: Option<string>) returns (result: seq<QueryTerm>)
    ensures result == AddAll(terms, Visits(query, operator))
    decreases query, 1
  {
    result := GetTerm(terms, query, Left, StartOf(query), operator);
    if query.Branch? && HasLeft(query.right) {
      result := RetTerms(result, query.right.value, query.operator);
      AddAllAppend(terms, SideVisits(query, Left, StartOf(query), operator), Visits(query.right.value, query.operator));
    } else {
      result := GetTerm(result, query, Right, None, OperatorOf(query));
      AddAllAppend(terms, SideVisits(query, Left, StartOf(query), operator), SideVisits(query, Right, None, OperatorOf(query)));
    }
  }

  /** retrieveQueryTerms: the terms of the query, or none when it does not parse. */
  method RetrieveQueryTerms(query: string, parse: string -> Option<Node>) returns (terms: seq<QueryTerm>)
    ensures terms == QueryTermsOf(query, parse)
  {
    var parsed := parse(ReplaceFirst(query, "\\@", "@"));
    if parsed.None? {
      return [];
    }
    terms := RetTerms([], parsed.value, None);
  }

  /** Collecting only ever appends. */
  lemma {:induction false} AddAllExtends(terms: seq<QueryTerm>, vs: seq<Visit>)
    ensures |terms| <= |AddAll(terms, vs)|
    ensures AddAll(terms, vs)[..|terms|] == terms
    decreases |vs|
  {
    if vs != [] {
      AddAllExtends(AddVisit(terms, vs[0]), vs[1..]);
    }
  }

  /** Every collected entry comes from an admissible visit, in visiting order. */
  lemma {:induction false} AddAllSound(terms: seq<QueryTerm>, vs: seq<Visit>)
    ensures forall t :: t in AddAll(terms, vs) ==> t in terms || exists v :: v in vs && Admissible(v) && t == TermOf(v)
    decreases |vs|
  {
    if vs != [] {
      AddAllSound(AddVisit(terms, vs[0]), vs[1..]);
    }
  }

  /** Every admissible visit is either collected or matched by its raw term to a label already there. */
  lemma {:induction false} AddAllComplete(terms: seq<QueryTerm>, vs: seq<Visit>)
    ensures var r := AddAll(terms, vs);
      forall v :: v in vs && Admissible(v) ==> TermOf(v) in r || TermAt(v.child) in Labels(r)
    decreases |vs|
  {
    if vs != [] {
      var t1 := AddVisit(terms, vs[0]);
      AddAllComplete(t1, vs[1..]);
      AddAllExtends(t1, vs[1..]);
      var r := AddAll(terms, vs);
      if Admissible(vs[0]) {
        if TermOf(vs[0]) in t1 {
          var i :| 0 <= i < |t1| && t1[i] == TermOf(vs[0]);
          assert r[i] == t1[i];
        } else {
          var i :| 0 <= i < |t1| && Labels(t1)[i] == TermAt(vs[0].child);
          assert r[i] == t1[i];
          assert Labels(r)[i] == TermAt(vs[0].child);
        }
      }
    }
  }

  /** The entries of the admissible visits, one per visit, in visiting order. */
  function Candidates(vs: seq<Visit>): (r: seq<QueryTerm>)
    ensures |r| <= |vs|
    decreases |vs|
  {
    if vs == [] then []
    else if Admissible(vs[0]) then [TermOf(vs[0])] + Candidates(vs[1..])
    else Candidates(vs[1..])
  }

  /** What collecting appends is the admissible visits' entries with some left out, in visiting order. */
  lemma {:induction false} AddAllInOrder(terms: seq<QueryTerm>, vs: seq<Visit>)
    ensures |terms| <= |AddAll(terms, vs)|
    ensures IsSubsequence(AddAll(terms, vs)[|terms|..], Candidates(vs))
    decreases |vs|
  {
    AddAllExtends(terms, vs);
    if vs != [] {
      var t1 := AddVisit(terms, vs[0]);
      var r := AddAll(terms, vs);
      AddAllInOrder(t1, vs[1..]);
      AddAllExtends(t1, vs[1..]);
      var x := r[|t1|..];
      if Admissible(vs[0]) && TermAt(vs[0].child) !in Labels(terms) {
        assert r[|terms|..] == [TermOf(vs[0])] + x by {
          assert r[..|t1|] == t1;
        }
        assert Candidates(vs) == [TermOf(vs[0])] + Candidates(vs[1..]);
        assert ([TermOf(vs[0])] + x)[1..] == x;
      } else if Admissible(vs[0]) {
        assert Candidates(vs)[1..] == Candidates(vs[1..]);
        if x != [] {
          assert IsSubsequence(x, Candidates(vs)[1..]);
        }
      }
    }
  }

  /** The raw terms of the admissible visits, one per visit, in visiting order. */
  function RawTerms(vs: seq<Visit>): (r: seq<string>)
    ensures |r| <= |vs|
    decreases |vs|
  {
    if vs == [] then []
    else if Admissible(vs[0]) then [TermAt(vs[0].child)] + RawTerms(vs[1..])
    else RawTerms(vs[1..])
  }

  /**
   * Without backslashes the labels are the raw terms, and collecting lists
   * each raw term once, at its first appearance: lodash `uniq` of them all.
   */
  lemma {:induction false} AddAllLabels(terms: seq<QueryTerm>, vs: seq<Visit>)
    requires Distinct(Labels(terms))
    requires forall v :: v in vs ==> '\\' !in TermAt(v.child)
    ensures Labels(AddAll(terms, vs)) == Uniq(Labels(terms) + RawTerms(vs))
    decreases |vs|
  {
    if vs == [] {
      assert Labels(terms) + RawTerms(vs) == Labels(terms);
      UniqOfDistinct(Labels(terms));
    } else {
      AddVisitLabels(terms, vs);
      AddAllLabels(AddVisit(terms, vs[0]), vs[1..]);
    }
  }

  /** One backslash-free visit keeps the labels distinct and `uniq` of what is still to come unchanged. */
  lemma AddVisitLabels(terms: seq<QueryTerm>, vs: seq<Visit>)
    requires Distinct(Labels(terms)) && vs != [] && '\\' !in TermAt(vs[0].child)
    ensures Distinct(Labels(AddVisit(terms, vs[0])))
    ensures Uniq(Labels(AddVisit(terms, vs[0])) + RawTerms(vs[1..])) == Uniq(Labels(terms) + RawTerms(vs))
  {
    var t1 := AddVisit(terms, vs[0]);
    var rest := vs[1..];
    if Admissible(vs[0]) {
      var raw := TermAt(vs[0].child);
      assert RawTerms(vs) == [raw] + RawTerms(rest);
      assert Labels(terms) + RawTerms(vs) == Labels(terms) + [raw] + RawTerms(rest);
      if raw !in Labels(terms) {
        assert Labels(t1) == Labels(terms) + [raw];
        DistinctConcat(Labels(terms), [raw]);
      } else {
        UniqSkipPresent(Labels(terms), raw, RawTerms(rest));
      }
    }
  }

  /** Visit `j` is admissible and no admissible visit before it has the same raw term. */
  ghost predicate FirstWithRaw(vs: seq<Visit>, j: int) {
    && 0 <= j < |vs|
    && Admissible(vs[j])
    && forall i :: 0 <= i < j && Admissible(vs[i]) ==> TermAt(vs[i].child) != TermAt(vs[j].child)
  }

  /** `t` is the entry of the first admissible visit with its raw term. */
  ghost predicate FromFirstVisit(vs: seq<Visit>, t: QueryTerm) {
    exists j :: FirstWithRaw(vs, j) && t == TermOf(vs[j])
  }

  /** `t` is the entry of the first admissible visit with its raw term, a raw term not among `labels`. */
  ghost predicate FreshFromFirstVisit(vs: seq<Visit>, labels: seq<string>, t: QueryTerm) {
    exists j :: FirstWithRaw(vs, j) && TermAt(vs[j].child) !in labels && t == TermOf(vs[j])
  }

  /**
   * Without backslashes, every entry collected after `terms` is the entry
   * of the first admissible visit with its raw term, a raw term not already
   * among the labels of `terms`: the first occurrence wins.
   */
  lemma {:induction false} AddAllFirstWins(terms: seq<QueryTerm>, vs: seq<Visit>)
    requires forall v :: v in vs ==> '\\' !in TermAt(v.child)
    ensures |terms| <= |AddAll(terms, vs)|
    ensures forall k :: |terms| <= k < |AddAll(terms, vs)| ==>
      FreshFromFirstVisit(vs, Labels(terms), AddAll(terms, vs)[k])
    decreases |vs|
  {
    AddAllExtends(terms, vs);
    if vs != [] {
      var t1 := AddVisit(terms, vs[0]);
      var rest := vs[1..];
      var r := AddAll(terms, vs);
      assert r == AddAll(t1, rest);
      AddAllFirstWins(t1, rest);
      AddAllExtends(t1, rest);
      forall k | |terms| <= k < |r|
        ensures FreshFromFirstVisit(vs, Labels(terms), r[k])
      {
        FirstWinsAt(terms, vs, k);
      }
    }
  }

  /** One entry of the step of `AddAllFirstWins`, given the claim for the later visits. */
  lemma FirstWinsAt(terms: seq<QueryTerm>, vs: seq<Visit>, k: int)
    requires vs != [] && forall v :: v in vs ==> '\\' !in TermAt(v.child)
    requires |AddVisit(terms, vs[0])| <= |AddAll(AddVisit(terms, vs[0]), vs[1..])|
    requires AddAll(terms, vs) == AddAll(AddVisit(terms, vs[0]), vs[1..])
    requires AddAll(terms, vs)[..|AddVisit(terms, vs[0])|] == AddVisit(terms, vs[0])
    requires forall m :: |AddVisit(terms, vs[0])| <= m < |AddAll(AddVisit(terms, vs[0]), vs[1..])| ==>
      FreshFromFirstVisit(vs[1..], Labels(AddVisit(terms, vs[0])), AddAll(AddVisit(terms, vs[0]), vs[1..])[m])
    requires |terms| <= k < |AddAll(terms, vs)|
    ensures FreshFromFirstVisit(vs, Labels(terms), AddAll(terms, vs)[k])
  {
    var t1 := AddVisit(terms, vs[0]);
    var r := AddAll(terms, vs);
    if k < |t1| {
      assert t1 == terms + [TermOf(vs[0])];
      assert r[k] == t1[k];
      assert FirstWithRaw(vs, 0);
    } else {
      assert FreshFromFirstVisit(vs[1..], Labels(t1), r[k]);
      var j :| FirstWithRaw(vs[1..], j) && TermAt(vs[1..][j].child) !in Labels(t1) && r[k] == TermOf(vs[1..][j]);
      assert vs[0] in vs;
      FirstWinsStep(terms, vs, j);
    }
  }

  /** The first appearance of a raw term among the later visits is a first appearance overall. */
  lemma FirstWinsStep(terms: seq<QueryTerm>, vs: seq<Visit>, j: int)
    requires vs != [] && '\\' !in TermAt(vs[0].child)
    requires FirstWithRaw(vs[1..], j) && TermAt(vs[1..][j].child) !in Labels(AddVisit(terms, vs[0]))
    ensures FirstWithRaw(vs, j + 1) && TermAt(vs[j + 1].child) !in Labels(terms)
  {
    var t1 := AddVisit(terms, vs[0]);
    assert vs[j + 1] == vs[1..][j];
    var raw := TermAt(vs[j + 1].child);
    assert Labels(t1)[..|terms|] == Labels(terms) by {
      assert t1[..|terms|] == terms;
    }
    if Admissible(vs[0]) {
      var raw0 := TermAt(vs[0].child);
      assert raw0 in Labels(t1) by {
        if raw0 !in Labels(terms) {
          assert Labels(t1)[|terms|] == raw0;
        }
      }
    }
    forall i | 0 <= i < j + 1 && Admissible(vs[i])
      ensures TermAt(vs[i].child) != raw
    {
      if i > 0 {
        assert vs[i] == vs[1..][i - 1];
      }
    }
  }

  /** When no raw term holds a backslash, labels are never repeated. */
  lemma {:induction false} AddAllDistinct(terms: seq<QueryTerm>, vs: seq<Visit>)
    requires Distinct(Labels(terms))
    requires forall v :: v in vs ==> '\\' !in TermAt(v.child)
    ensures Distinct(Labels(AddAll(terms, vs)))
    decreases |vs|
  {
    if vs != [] {
      var t1 := AddVisit(terms, vs[0]);
      if Admissible(vs[0]) && TermAt(vs[0].child) !in Labels(terms) {
        assert Labels(t1) == Labels(terms) + [TermAt(vs[0].child)];
      }
      AddAllDistinct(t1, vs[1..]);
    }
  }

  /**
   * retrieveQueryTerms in full: skipped '*' and '' terms, the entries in
   * visiting order, and, for backslash-free queries, each raw term listed
   * once, by the entry of its first admissible visit.
   */
  lemma CollectSpec(root: Node)
    ensures forall t :: t in Collect(root) ==> exists v :: v in Visits(root, None) && Admissible(v) && t == TermOf(v)
    ensures forall v :: v in Visits(root, None) && Admissible(v) ==>
      TermOf(v) in Collect(root) || TermAt(v.child) in Labels(Collect(root))
    ensures (forall v :: v in Visits(root, None) ==> '\\' !in TermAt(v.child)) ==> Distinct(Labels(Collect(root)))
    ensures IsSubsequence(Collect(root), Candidates(Visits(root, None)))
    ensures (forall v :: v in Visits(root, None) ==> '\\' !in TermAt(v.child)) ==>
      Labels(Collect(root)) == Uniq(RawTerms(Visits(root, None)))
    ensures (forall v :: v in Visits(root, None) ==> '\\' !in TermAt(v.child)) ==>
      forall t :: t in Collect(root) ==> FromFirstVisit(Visits(root, None), t)
  {
    CollectFirstWins(root);
    AddAllInOrder([], Visits(root, None));
    assert Collect(root)[0..] == Collect(root);
    AddAllSound([], Visits(root, None));
    AddAllComplete([], Visits(root, None));
    if forall v :: v in Visits(root, None) ==> '\\' !in TermAt(v.child) {
      AddAllDistinct([], Visits(root, None));
    }
  }

  lemma CollectFirstWins(root: Node)
    ensures (forall v :: v in Visits(root, None) ==> '\\' !in TermAt(v.child)) ==>
      Labels(Collect(root)) == Uniq(RawTerms(Visits(root, None)))
    ensures (forall v :: v in Visits(root, None) ==> '\\' !in TermAt(v.child)) ==>
      forall t :: t in Collect(root) ==> FromFirstVisit(Visits(root, None), t)
  {
    var vs := Visits(root, None);
    if forall v :: v in vs ==> '\\' !in TermAt(v.child) {
      FromEmptyFirstWins(vs);
    }
  }

  /** Collecting from scratch over backslash-free visits: lodash `uniq` of the raw terms, first visit wins. */
  lemma FromEmptyFirstWins(vs: seq<Visit>)
    requires forall v :: v in vs ==> '\\' !in TermAt(v.child)
    ensures Labels(AddAll([], vs)) == Uniq(RawTerms(vs))
    ensures forall t :: t in AddAll([], vs) ==> FromFirstVisit(vs, t)
  {
    var none: seq<QueryTerm> := [];
    AddAllLabels(none, vs);
    assert Labels(none) + RawTerms(vs) == RawTerms(vs);
    AddAllFirstWins(none, vs);
    forall t | t in AddAll(none, vs)
      ensures FromFirstVisit(vs, t)
    {
      var k :| 0 <= k < |AddAll(none, vs)| && AddAll(none, vs)[k] == t;
      assert FreshFromFirstVisit(vs, Labels(none), t);
    }
  }

  /** A branch without a start keyword whose children are leaves (or missing) is read in two `getTerm` calls. */
  lemma LeafBranchVisits(l: Option<Node>, r: Option<Node>, op: Option<string>)
    requires l.Some? ==> l.value.Leaf?
    requires r.Some? ==> r.value.Leaf?
    ensures Visits(Branch(l, r, None, op, false), None) == [Visit(l, None, None), Visit(r, None, op)]
  {
    var q := Branch(l, r, None, op, false);
    assert !HasLeft(l) && !HasLeft(r);
    assert SideVisits(q, Left, None, None) == [Visit(l, None, None)];
    assert SideVisits(q, Right, None, op) == [Visit(r, None, op)];
  }

  /** `-term_02`: one negated term on the implicit field. */
  lemma NegatedTermExample()
    ensures Collect(Branch(Some(Leaf("term_02", "<implicit>", "-", false)), None, None, None, false))
         == [QueryTerm("", "term_02", true, false)]
  {
    var leaf := Leaf("term_02", "<implicit>", "-", false);
    var v1 := Visit(Some(leaf), None, None);
    var v2 := Visit(None, None, None);
    LeafBranchVisits(Some(leaf), None, None);
    AddAllTwo([], v1, v2);
    NegatedTermAdded(leaf, v1);
  }

  lemma NegatedTermAdded(leaf: Node, v: Visit)
    requires leaf == Leaf("term_02", "<implicit>", "-", false) && v == Visit(Some(leaf), None, None)
    ensures AddVisit([], v) == [QueryTerm("", "term_02", true, false)]
  {
    assert '\\' !in "term_02";
    PlainTermAdded([], v, QueryTerm("", "term_02", true, false));
  }

  /** `a AND NOT b`: the operator negates the right-hand term. */
  lemma NotOperatorExample()
    ensures Collect(Branch(Some(Leaf("a", "<implicit>", "", false)), Some(Leaf("b", "<implicit>", "", false)),
                           None, Some("AND NOT"), false))
         == [QueryTerm("", "a", false, false), QueryTerm("", "b", true, false)]
  {
    var a := Leaf("a", "<implicit>", "", false);
    var b := Leaf("b", "<implicit>", "", false);
    var va := Visit(Some(a), None, None);
    var vb := Visit(Some(b), None, Some("AND NOT"));
    LeafBranchVisits(Some(a), Some(b), Some("AND NOT"));
    AddAllTwo([], va, vb);
    NotOperatorTerms(a, b, va, vb);
  }

  lemma NotOperatorTerms(a: Node, b: Node, va: Visit, vb: Visit)
    requires a == Leaf("a", "<implicit>", "", false) && b == Leaf("b", "<implicit>", "", false)
    requires va == Visit(Some(a), None, None) && vb == Visit(Some(b), None, Some("AND NOT"))
    ensures AddVisit(AddVisit([], va), vb) == [QueryTerm("", "a", false, false), QueryTerm("", "b", true, false)]
  {
    var ta := QueryTerm("", "a", false, false);
    var tb := QueryTerm("", "b", true, false);
    assert '\\' !in "a";
    PlainTermAdded([], va, ta);
    assert '\\' !in "b";
    assert EndsWith(Some("AND NOT"), "NOT");
    assert Labels([ta]) == ["a"];
    PlainTermAdded([ta], vb, tb);
  }

  /**
   * Labels are compared before stripping the backslash: `a\:b a\:b` lists
   * the label `a:b` twice.
   */
  lemma EscapedTermRepeated()
    ensures var t := Leaf("a\\:b", "<implicit>", "", false);
      Collect(Branch(Some(t), Some(t), None, Some("<implicit>"), false))
        == [QueryTerm("", "a:b", false, false), QueryTerm("", "a:b", false, false)]
  {
    var t := Leaf("a\\:b", "<implicit>", "", false);
    var v1 := Visit(Some(t), None, None);
    var v2 := Visit(Some(t), None, Some("<implicit>"));
    LeafBranchVisits(Some(t), Some(t), Some("<implicit>"));
    AddAllTwo([], v1, v2);
    EscapedTermsAdded(t, v1, v2);
  }

  lemma EscapedTermsAdded(t: Node, v1: Visit, v2: Visit)
    requires t == Leaf("a\\:b", "<implicit>", "", false)
    requires v1 == Visit(Some(t), None, None) && v2 == Visit(Some(t), None, Some("<implicit>"))
    ensures AddVisit(AddVisit([], v1), v2) == [QueryTerm("", "a:b", false, false), QueryTerm("", "a:b", false, false)]
  {
    var entry := QueryTerm("", "a:b", false, false);
    EscapedFirst(t, v1, entry);
    EscapedSecond(t, v2, entry);
  }

  lemma EscapedFirst(t: Node, v: Visit, entry: QueryTerm)
    requires t == Leaf("a\\:b", "<implicit>", "", false) && v == Visit(Some(t), None, None)
    requires entry == QueryTerm("", "a:b", false, false)
    ensures AddVisit([], v) == [entry]
  {
    EscapedLabel();
  }

  lemma EscapedSecond(t: Node, v: Visit, entry: QueryTerm)
    requires t == Leaf("a\\:b", "<implicit>", "", false) && v == Visit(Some(t), None, Some("<implicit>"))
    requires entry == QueryTerm("", "a:b", false, false)
    ensures AddVisit([entry], v) == [entry, entry]
  {
    EscapedLabel();
    assert Labels([entry]) == ["a:b"];
    assert !EndsWith(Some("<implicit>"), "NOT");
  }

  /** Only the first backslash goes: `a\:b` becomes `a:b`. */
  lemma EscapedLabel()
    ensures StripFirstBackslash("a\\:b") == "a:b"
  {
    var s := "a\\:b";
    assert IndexOf(s, '\\') == 1;
    assert s[..1] == "a" && s[2..] == ":b";
  }

  // ---------------------------------------------------------------------
  // retrieveContentQueryTerms
  // ---------------------------------------------------------------------

  predicate SearchesContent(t: QueryTerm) {
    t.field in ["", "content"]
  }

  /** retrieveContentQueryTerms: the terms on the implicit or the `content` field, in order. */
  function ContentQueryTerms(terms: seq<QueryTerm>): (r: seq<QueryTerm>)
    ensures forall t :: t in r <==> t in terms && t.field in ["", "content"]
    ensures Distinct(Labels(terms)) ==> Distinct(Labels(r))
  {
    ContentTermsDistinct(terms);
    Filter(terms, SearchesContent)
  }

  lemma {:induction false} ContentTermsDistinct(terms: seq<QueryTerm>)
    ensures Distinct(Labels(terms)) ==> Distinct(Labels(Filter(terms, SearchesContent)))
  {
    if terms != [] {
      ContentTermsDistinct(terms[1..]);
      var rest := Filter(terms[1..], SearchesContent);
      if Distinct(Labels(terms)) && SearchesContent(terms[0]) {
        var x := terms[0].text;
        assert Labels(terms[1..]) == Labels(terms)[1..];
        assert x !in Labels(terms[1..]) by {
          DistinctHead(Labels(terms));
        }
        forall y | y in Labels(rest) ensures y != x {
          var i :| 0 <= i < |rest| && Labels(rest)[i] == y;
          LabelsMember(terms[1..], rest[i]);
        }
        DistinctConcat([x], Labels(rest));
        assert Labels([terms[0]] + rest) == [x] + Labels(rest);
      }
    }
  }

  /** Every entry's label is among the labels. */
  lemma LabelsMember(terms: seq<QueryTerm>, t: QueryTerm)
    requires t in terms
    ensures t.text in Labels(terms)
  {
    var i :| 0 <= i < |terms| && terms[i] == t;
    assert Labels(terms)[i] == t.text;
  }

  /** `content:term_01 field_name:term_02`: both terms, with their fields. */
  lemma TwoFieldsExample()
    ensures Collect(Branch(Some(Leaf("term_01", "content", "", false)),
                           Some(Leaf("term_02", "field_name", "", false)),
                           None, Some("<implicit>"), false))
         == [QueryTerm("content", "term_01", false, false), QueryTerm("field_name", "term_02", false, false)]
  {
    var a := Leaf("term_01", "content", "", false);
    var b := Leaf("term_02", "field_name", "", false);
    var root := Branch(Some(a), Some(b), None, Some("<implicit>"), false);
    assert Visits(root, None) == [Visit(Some(a), None, None), Visit(Some(b), None, Some("<implicit>"))];
    TwoFieldsTerms(a, b);
  }

  lemma TwoFieldsTerms(a: Node, b: Node)
    requires a == Leaf("term_01", "content", "", false) && b == Leaf("term_02", "field_name", "", false)
    ensures AddAll([], [Visit(Some(a), None, None), Visit(Some(b), None, Some("<implicit>"))])
         == [QueryTerm("content", "term_01", false, false), QueryTerm("field_name", "term_02", false, false)]
  {
    var v1 := Visit(Some(a), None, None);
    var v2 := Visit(Some(b), None, Some("<implicit>"));
    var t1 := QueryTerm("content", "term_01", false, false);
    var t2 := QueryTerm("field_name", "term_02", false, false);
    FirstOfTwoFields(a, v1, t1);
    SecondOfTwoFields(b, v2, t1, t2);
    AddAllTwo([], v1, v2);
  }

  lemma FirstOfTwoFields(a: Node, v1: Visit, t1: QueryTerm)
    requires a == Leaf("term_01", "content", "", false) && v1 == Visit(Some(a), None, None)
    requires t1 == QueryTerm("content", "term_01", false, false)
    ensures AddVisit([], v1) == [t1]
  {
    assert '\\' !in "term_01";
    PlainTermAdded([], v1, t1);
  }

  lemma SecondOfTwoFields(b: Node, v2: Visit, t1: QueryTerm, t2: QueryTerm)
    requires b == Leaf("term_02", "field_name", "", false) && v2 == Visit(Some(b), None, Some("<implicit>"))
    requires t1 == QueryTerm("content", "term_01", false, false)
    requires t2 == QueryTerm("field_name", "term_02", false, false)
    ensures AddVisit([t1], v2) == [t1, t2]
  {
    assert '\\' !in "term_02";
    assert !EndsWith(Some("<implicit>"), "NOT");
    assert Labels([t1]) == ["term_01"];
    PlainTermAdded([t1], v2, t2);
  }

  /** A backslash-free term not yet listed is appended as it is. */
  lemma PlainTermAdded(terms: seq<QueryTerm>, v: Visit, t: QueryTerm)
    requires Admissible(v) && '\\' !in TermAt(v.child) && TermAt(v.child) !in Labels(terms)
    requires t == QueryTerm(if v.child.value.field == "<implicit>" then "" else v.child.value.field,
                            TermAt(v.child), Negated(v.child.value.prefix, v.start, v.operator), v.child.value.regex)
    ensures AddVisit(terms, v) == terms + [t]
  {
  }

  /** ... of which only the content term is kept. */
  lemma ContentFieldExample()
    ensures ContentQueryTerms([QueryTerm("content", "term_01", false, false), QueryTerm("field_name", "term_02", false, false)])
         == [QueryTerm("content", "term_01", false, false)]
  {
    var terms := [QueryTerm("content", "term_01", false, false), QueryTerm("field_name", "term_02", false, false)];
    assert Filter(terms[1..], SearchesContent) == [] + Filter(terms[2..], SearchesContent);
  }

  // ---------------------------------------------------------------------
  // retrieveContentQueryTermsInContent (literal terms)
  // ---------------------------------------------------------------------

  /** `pat` occurs at position `i` of `text`, comparing characters after the case fold `fold`. */
  predicate MatchesAt(text: string, pat: string, i: int, fold: char -> char) {
    0 <= i && i + |pat| <= |text| && forall j :: 0 <= j < |pat| ==> fold(text[i + j]) == fold(pat[j])
  }

  /**
   * `(text.match(new RegExp(escapeRegExp(pat), 'gi')) || []).length` from
   * position `i`: non-overlapping matches, searched left to right; an empty
   * pattern matches at every position, the end included.
   */
  function CountFrom(text: string, pat: string, fold: char -> char, i: nat): nat
    requires i <= |text|
    decreases |text| - i
  {
    if |pat| == 0 then |text| - i + 1
    else if i + |pat| > |text| then 0
    else if MatchesAt(text, pat, i, fold) then 1 + CountFrom(text, pat, fold, i + |pat|)
    else CountFrom(text, pat, fold, i + 1)
  }

  /** Non-overlapping matches of a non-empty pattern fit in the text. */
  lemma {:induction false} CountBound(text: string, pat: string, fold: char -> char, i: nat)
    requires i <= |text| && |pat| > 0
    ensures CountFrom(text, pat, fold, i) * |pat| <= |text| - i
    decreases |text| - i
  {
    if i + |pat| <= |text| {
      if MatchesAt(text, pat, i, fold) {
        CountBound(text, pat, fold, i + |pat|);
      } else {
        CountBound(text, pat, fold, i + 1);
      }
    }
  }

  /** A term is counted at least once exactly when it occurs (case-insensitively) in the text. */
  lemma {:induction false} CountPositive(text: string, pat: string, fold: char -> char, i: nat)
    requires i <= |text| && |pat| > 0
    ensures CountFrom(text, pat, fold, i) > 0 <==> exists k :: i <= k && MatchesAt(text, pat, k, fold)
    decreases |text| - i
  {
    if i + |pat| <= |text| {
      if !MatchesAt(text, pat, i, fold) {
        CountPositive(text, pat, fold, i + 1);
        if exists k :: i <= k && MatchesAt(text, pat, k, fold) {
          var k :| i <= k && MatchesAt(text, pat, k, fold);
          assert k != i;
        }
      } else {
        assert MatchesAt(text, pat, i, fold);
      }
    } else {
      assert forall k :: i <= k ==> !MatchesAt(text, pat, k, fold);
    }
  }

  function TermCount(t: QueryTerm, text: string, fold: char -> char, regexCount: (string, string) -> nat): nat {
    if t.regex then regexCount(t.text, text) else CountFrom(text, t.text, fold, 0)
  }

  /**
   * The count each content term receives for one text: regex terms through
   * the abstract `regexCount`, literal terms by `CountFrom`.
   */
  function TermCounts(terms: seq<QueryTerm>, text: string, fold: char -> char,
                      regexCount: (string, string) -> nat): (r: seq<nat>)
    ensures |r| == |terms|
    ensures forall k :: 0 <= k < |terms| && !terms[k].regex && terms[k].text != "" ==>
      (r[k] > 0 <==> exists i :: 0 <= i && MatchesAt(text, terms[k].text, i, fold))
  {
    var r := seq(|terms|, k requires 0 <= k < |terms| => TermCount(terms[k], text, fold, regexCount));
    assert forall k :: 0 <= k < |terms| && !terms[k].regex && terms[k].text != "" ==>
      (r[k] > 0 <==> exists i :: 0 <= i && MatchesAt(text, terms[k].text, i, fold)) by {
      forall k | 0 <= k < |terms| && !terms[k].regex && terms[k].text != "" {
        CountPositive(text, terms[k].text, fold, 0);
      }
    }
    r
  }

  // ---------------------------------------------------------------------
  // deleteQueryTermFromSimpleQuery
  // ---------------------------------------------------------------------

  /**
   * The node `deleteQueryTermFromSimpleQuery` returns: direct children whose
   * term is `term` are dropped, children with a left child are pruned in
   * turn, a right child left with only a right child turns a `NOT`
   * operator into `<implicit>`, and `start`, `operator` and `parenthesized`
   * are dropped once a child they need is gone.
   */
  function Pruned(q: Node, term: string): (r: Node)
    ensures q.Leaf? ==> r == q
    ensures q.Branch? ==> r.Branch?
    ensures r.Branch? ==> (r.left.Some? ==> TermAt(r.left) != term) && (r.right.Some? ==> TermAt(r.right) != term)
    ensures r.Branch? ==> (r.start.Some? ==> r.left.Some?)
    ensures r.Branch? ==> (r.operator.Some? || r.parenthesized ==> r.left.Some? && r.right.Some?)
    ensures q.Branch? && q.left.Some? && q.left.value.Leaf? && q.left.value.term != term ==> r.left == q.left
    ensures q.Branch? && q.right.Some? && q.right.value.Leaf? && q.right.value.term != term ==> r.right == q.right
    decreases q
  {
    if q.Leaf? then q
    else
      var left1 := if TermAt(q.left) == term then None else q.left;
      var right1 := if TermAt(q.right) == term then None else q.right;
      var left2 := if HasLeft(left1) then Some(Pruned(left1.value, term)) else left1;
      var right2 := if HasLeft(right1) then Some(Pruned(right1.value, term)) else right1;
      var op1 := q.operator;
      var operator := if HasRight(right2) && !HasLeft(right2) && op1.Some? && Contains(op1.value, "NOT")
        then Some("<implicit>") else op1;
      Branch(left2, right2,
             if left2.Some? then q.start else None,
             if left2.Some? && right2.Some? then operator else None,
             q.parenthesized && left2.Some? && right2.Some?)
  }

  /** deleteQueryTermFromSimpleQuery, reassigning `query` step by step. */
  method DeleteQueryTermFromSimpleQuery(q: Node, term: string) returns (query: Node)
    ensures query == Pruned(q, term)
    decreases q
  {
    query := q;
    if query.Leaf? {
      return;
    }
    if TermAt(query.left) == term {
      query := query.(left := None);
    }
    if TermAt(query.right) == term {
      query := query.(right := None);
    }
    if HasLeft(query.left) {
      var left := DeleteQueryTermFromSimpleQuery(query.left.value, term);
      query := query.(left := Some(left));
    }
    if HasLeft(query.right) {
      var right := DeleteQueryTermFromSimpleQuery(query.right.value, term);
      query := query.(right := Some(right));
    }
    if HasRight(query.right) && !HasLeft(query.right) && query.operator.Some? && Contains(query.operator.value, "NOT") {
      query := query.(operator := Some("<implicit>"));
    }
    if query.start.Some? && query.left.None? {
      query := query.(start := None);
    }
    if query.operator.Some? && (query.left.None? || query.right.None?) {
      query := query.(operator := None);
    }
    if query.parenthesized && (query.left.None? || query.right.None?) {
      query := query.(parenthesized := false);
    }
  }

  /** Every inner node has a left child, as the parser builds them. */
  predicate WellFormed(n: Node) {
    n.Branch? ==> (n.left.Some? && WellFormed(n.left.value) && (n.right.Some? ==> WellFormed(n.right.value)))
  }

  /** The node or one of its descendants is a leaf with that term. */
  predicate Mentions(n: Node, term: string) {
    if n.Leaf? then n.term == term
    else (n.left.Some? && Mentions(n.left.value, term)) || (n.right.Some? && Mentions(n.right.value, term))
  }

  /** In a parsed query the term is gone from every level, not just from the root's children. */
  lemma {:induction false} PrunedRemovesTerm(q: Node, term: string)
    requires q.Branch? && WellFormed(q)
    ensures !Mentions(Pruned(q, term), term)
    decreases q
  {
    var r := Pruned(q, term);
    if r.left.Some? && r.left.value.Branch? {
      PrunedRemovesTerm(q.left.value, term);
    }
    if r.right.Some? && r.right.value.Branch? {
      PrunedRemovesTerm(q.right.value, term);
    }
  }

  /** Every other term survives: children that do not hold the term are kept, and inner ones pruned in turn. */
  lemma {:induction false} PrunedKeepsOtherTerms(q: Node, term: string, t: string)
    requires term != "" && t != term && Mentions(q, t)
    ensures Mentions(Pruned(q, term), t)
    decreases q
  {
    if q.Branch? {
      var r := Pruned(q, term);
      if q.left.Some? && Mentions(q.left.value, t) {
        if HasLeft(q.left) {
          PrunedKeepsOtherTerms(q.left.value, term, t);
        }
        assert r.left.Some? && Mentions(r.left.value, t);
      } else {
        if HasLeft(q.right) {
          PrunedKeepsOtherTerms(q.right.value, term, t);
        }
        assert r.right.Some? && Mentions(r.right.value, t);
      }
    }
  }

  /**
   * The shape the parser gives inner nodes: a start keyword only with a left
   * child, an operator or parentheses only with both children.
   */
  predicate ParserShaped(n: Node) {
    n.Branch? ==>
      && (n.start.Some? ==> n.left.Some?)
      && (n.operator.Some? || n.parenthesized ==> n.left.Some? && n.right.Some?)
      && (n.left.Some? ==> ParserShaped(n.left.value))
      && (n.right.Some? ==> ParserShaped(n.right.value))
  }

  /** Deleting a term the parsed query does not hold gives the query back unchanged. */
  lemma {:induction false} PrunedAbsentTerm(q: Node, term: string)
    requires term != "" && WellFormed(q) && ParserShaped(q) && !Mentions(q, term)
    ensures Pruned(q, term) == q
    decreases q
  {
    if q.Branch? {
      if HasLeft(q.left) {
        PrunedAbsentTerm(q.left.value, term);
      }
      if HasLeft(q.right) {
        PrunedAbsentTerm(q.right.value, term);
      }
    }
  }

  /** Deleting the same term twice is the same as deleting it once. */
  lemma {:induction false} PrunedIdempotent(q: Node, term: string)
    ensures Pruned(Pruned(q, term), term) == Pruned(q, term)
    decreases q
  {
    if q.Branch? {
      var r := Pruned(q, term);
      if HasLeft(r.left) {
        PrunedIdempotent(q.left.value, term);
      }
      if HasLeft(r.right) {
        PrunedIdempotent(q.right.value, term);
      }
    }
  }
}
