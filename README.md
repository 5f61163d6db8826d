# datashare-client search, strings and indexing cores in Dafny

This project models three pieces of the datashare-client front end and proves
properties of them:

- **The search store** (`src/store/modules/search.js`). It models the state of a
  document search:
  - query, paging, sort, search field and index;
  - the filter definitions, the values selected for each filter, and the list of
    reversed (negated) filters;
  - the starred documents.

  Every mutation and action that changes this state is a method of the class
  `Search.SearchStore`, whose fields are the store's state keys. Each method is
  specified by a function on the `Search.State` record that `Snapshot()` returns.
  The methods `Load`, `LoadSearch`, `LoadFilters` and `LoadView` only write a
  computed `State` back into the fields; the actions use them, and they have
  no row of their own.
  The route encoding (`filterValuesAsRouteQuery`, `toRouteQuery`) and its
  decoding (`updateFromRouteQuery`) are proved to round-trip.
- **The query-term logic** (also `search.js`). It models how
  `retrieveQueryTerms` walks the parsed lucene tree and collects terms, and
  how `deleteQueryTermFromSimpleQuery` prunes the tree. The tree is the
  datatype `QueryAst.Node`. The recursive walk, which grows a captured
  accumulator, is the pair of methods `GetTerm` / `RetTerms`. Both are proved
  equal to a specification built from the sequence of visits the walk makes.
- **String slicing and highlighting** (`src/utils/strings.js`):
  - `sliceIndexes` is a method with its loop. It is proved equal to a
    function whose slices concatenate back to the input;
  - `highlight` is a function. For marks at distinct positions inside the
    text, none running into the next, it is proved to wrap each mark and keep
    the rest of the text; for other marks only its general shape is stated;
  - `slugger` is a function over abstract lower-casing and whitespace classes.
- **The indexing store** (`src/store/modules/indexing.js`). It models:
  - the task list, which lodash `remove` filters in place;
  - the extraction and named-entity forms and their partial resets;
  - the poll handle;
  - the requests that `submitExtract` and `submitFindNamedEntities` send.

Layout:

| File | Module | What it holds |
|---|---|---|
| `collections.dfy` | `Collections` | the lodash and JavaScript sequence helpers the stores use |
| `strings.dfy` | `Strings` | slicing, highlighting and the slug |
| `query_ast.dfy` | `QueryAst` | the query tree, term collection and term deletion |
| `search_store.dfy` | `Search` | the search store |
| `indexing_store.dfy` | `Indexing` | the indexing store |

Calls into code that is not modelled are parameters of the model:
- `lucene.parse` is a function `string -> Option<Node>`, where `None` is a parse error;
- `lucene.toString` is `serialize`;
- JavaScript's `Number` on a route parameter is `toNumber`;
- the router's writing of numbers is `numberText`;
- `toLowerCase` is `lower`, and the `\s` class is `isSpace`;
- the case folding of the `i` regex flag is `fold`;
- `isNarrowScreen()` is `narrowScreen`;
- the search settings are a `Settings` value;
- whether the backend accepted a star or unstar call is `saved`.

Behaviour of the code worth knowing, which the model reproduces:
- **`addFilter`** appends a definition without checking for an existing filter
  of the same name.
- **`addFilterValue` and `setFilterValue`** accept any name, whether or not a
  filter of that name is defined.
- **The route round trip** is not an exact inverse:
  - values come back without duplicates;
  - `language`, reversed in the initial state, stays reversed after decoding
    whatever the route says;
  - an empty sort is not restored.
  `Search.RouteRoundTrip` states exactly what does come back.
- **Term labels** are de-duplicated by comparing the raw term with the labels
  already stored. The stored labels have their first backslash removed, so a
  term with a backslash can be listed twice (`QueryAst.EscapedTermRepeated`).
- **Deleting the empty term** with `deleteQueryTermFromSimpleQuery` drops
  every inner child as well, because an inner node's `term` reads as `''`.
  The lemmas `QueryAst.PrunedKeepsOtherTerms` and `QueryAst.PrunedAbsentTerm`
  are therefore stated for a non-empty term.
- **`highlight('')`** returns text starting with `undefined`
  (`Strings.HighlightEmptyText`).

## Model

| member | source | states |
|---|---|---|
| Collections.Uniq | src/store/modules/search.js:277 | lodash `uniq`: the result has no duplicates, holds the same elements as its input, and is no longer |
| Collections.UniqOfDistinct | src/store/modules/search.js:277 | `uniq` of a duplicate-free sequence is that sequence |
| Collections.UniqKeepsPrefix | src/store/modules/search.js:277 | `uniq(a ++ b)` starts with `uniq(a)`: first-seen order is kept |
| Collections.UniqAppendPresent | src/store/modules/search.js:277 | appending elements already present leaves `uniq` unchanged |
| Collections.UniqAbsorbs | src/store/modules/search.js:284 | `uniq(uniq(a) ++ b) == uniq(a ++ b)` |
| Collections.Filter | src/store/modules/search.js:290 | lodash `filter`: exactly the elements satisfying the predicate, never more elements than the input |
| Collections.FilterDistinct | src/store/modules/search.js:327 | filtering keeps a duplicate-free sequence duplicate-free |
| Collections.IndexOf | src/store/modules/search.js:303 | `indexOf`: -1 exactly when absent, otherwise a position holding the element with no earlier occurrence |
| Collections.DeleteFirstOccurrence | src/store/modules/search.js:308 | deleting `indexOf(x)` from a duplicate-free sequence removes `x`, keeps every other element, and keeps it duplicate-free |
| Strings.SortedUnique | src/utils/strings.js:57 | `Array.from(new Set(indexes)).sort((a, b) => a - b)`: strictly increasing, with the same elements as the input |
| Strings.Cuts | src/utils/strings.js:57-61 | the positions at which the string is cut: strictly increasing, and exactly the input indexes inside the string |
| Strings.Pieces | src/utils/strings.js:60-67 | the loop's pieces from a start position: one more than the in-range cuts, and they concatenate to the rest of the string |
| Strings.Slices | src/utils/strings.js:55-69 | the empty string gives no slice; otherwise there is one slice more than cuts, and the slices concatenate back to the input |
| Strings.SliceIndexes | src/utils/strings.js:55-69 | the loop with `currentIndex` and `result` returns exactly `Slices(str, indexes)` |
| Strings.PiecesInRange | src/utils/strings.js:61 | skipping the out-of-range indexes before the loop changes no piece |
| Strings.SlicesDependOnInRangeIndexes | src/utils/strings.js:57-61 | two index lists with the same in-range members give the same slices: order, repeats and out-of-range values do not matter |
| Strings.SlicesWithoutCut | src/utils/strings.js:61-67 | with no index inside the string, the only slice is the whole string |
| Strings.SlicesCount | src/utils/strings.js:60-68 | the number of slices is one plus the number of distinct in-range indexes |
| Strings.SlicesAtZero | src/utils/strings.js:61-64 | index 0 produces a leading empty slice |
| Strings.SortByIndex | src/utils/strings.js:72 | `sortBy(marks, m => m.index)`: sorted by index, and a permutation of the marks |
| Strings.MarkedPieces | src/utils/strings.js:74-76 | the zip/map step gives one formatted piece per mark |
| Strings.HighlightPlaced | src/utils/strings.js:71-77 | for non-overlapping marks in a non-empty text, the result is the raw text before the first mark, then each formatted mark followed by `restFun` of the text after its content up to the next mark |
| Strings.HighlightWithoutMarks | src/utils/strings.js:71-77 | no marks: a non-empty text comes back unchanged |
| Strings.HighlightEmptyText | src/utils/strings.js:77 | the empty text gives `undefined` followed by the marks formatted with empty rests |
| Strings.RenderedDefault | src/utils/strings.js:71 | with the default formatters, each mark whose content is in the text at its index is rendered as that span inside `<mark>` tags, and the other text is kept |
| Strings.HighlightDefault | src/utils/strings.js:71-77 | the default `highlight` is the text before the first mark, then each mark's span wrapped in `<mark>` … `</mark>`, with all other text preserved |
| Strings.HighlightIgnoresMarkOrder | src/utils/strings.js:72 | for marks with distinct indexes, any reordering of the marks gives the same highlighted text |
| Strings.Trim | src/utils/strings.js:12 | `trim`: the result is a middle stretch of the input with only whitespace outside it, and it neither starts nor ends with whitespace |
| Strings.Dashed | src/utils/strings.js:14 | `.replace(/\s/g, '-')`: same length, each whitespace character replaced by `-` and every other character kept |
| Strings.Slugger | src/utils/strings.js:9-15 | the slug holds none of the removed punctuation and no whitespace except as `-`, and is no longer than the lower-cased input |
| Strings.SluggerKeepsWord | src/utils/strings.js:9-15 | a lower-case word without whitespace or punctuation is its own slug |
| QueryAst.FindFrom | src/store/modules/search.js:185 | string `indexOf` from a position: the first occurrence at or after it, or -1 when there is none |
| QueryAst.ReplaceFirst | src/store/modules/search.js:185 | `replace` with a string pattern: a string without the pattern is unchanged; otherwise the text before the first occurrence is kept, the occurrence becomes the replacement, and the text after it is kept |
| QueryAst.StripFirstBackslash | src/store/modules/search.js:170 | `term.replace('\\', '')` removes one character exactly when the term holds a backslash |
| QueryAst.TermOf | src/store/modules/search.js:164-170 | an entry's label is the term without its first backslash; its field is empty exactly for `''` and `<implicit>`; it is negated exactly for a `-`/`!` prefix, a `NOT` start or an operator ending in `NOT` |
| QueryAst.QueryTermsOf | src/store/modules/search.js:184-189 | a query whose unescaped text does not parse has no terms |
| QueryAst.GetTerm | src/store/modules/search.js:163-175 | `getTerm` grows the accumulator by exactly the entries its visits add, descending into `left` when the side has no term |
| QueryAst.RetTerms | src/store/modules/search.js:176-183 | `retTerms` grows the accumulator by exactly the entries of the visits of the right-leaning walk |
| QueryAst.RetrieveQueryTerms | src/store/modules/search.js:161-190 | the getter returns exactly `QueryTermsOf(query, parse)`, `[]` on a parse error |
| QueryAst.AddAllExtends | src/store/modules/search.js:169-170 | collecting only appends: earlier entries are never changed or removed |
| QueryAst.AddAllSound | src/store/modules/search.js:169-170 | every collected entry is the entry of an admissible visit (raw term neither `*` nor empty) |
| QueryAst.AddAllComplete | src/store/modules/search.js:169-170 | every admissible visit is collected, or its raw term is already a label |
| QueryAst.AddAllDistinct | src/store/modules/search.js:169-170 | when no raw term holds a backslash, no label is listed twice |
| QueryAst.AddAllInOrder | src/store/modules/search.js:161-183 | what the walk appends is the admissible visits' entries with some left out, in visiting order |
| QueryAst.AddAllLabels | src/store/modules/search.js:169-170 | without backslashes, the labels after collecting are lodash `uniq` of the labels before and the admissible visits' raw terms |
| QueryAst.AddAllFirstWins | src/store/modules/search.js:169-170 | without backslashes, each newly collected entry is the entry of the first admissible visit with that raw term, a term not already listed |
| QueryAst.CollectSpec | src/store/modules/search.js:161-190 | `retrieveQueryTerms` on a tree: every entry comes from an admissible visit; the entries follow the visiting order with some visits left out; a visit is left out only when its raw term is already a label; for backslash-free queries the first occurrence wins: the labels are `uniq` of the raw terms in visiting order, each entry being that of the first admissible visit with its raw term |
| QueryAst.LeafBranchVisits | src/store/modules/search.js:176-183 | a branch with leaf children is read by two `getTerm` calls: left without an operator, right with the node's operator |
| QueryAst.NegatedTermExample | src/store/modules/search.js:168 | `-term_02` gives one negated term on the implicit field |
| QueryAst.NotOperatorExample | src/store/modules/search.js:179 | `a AND NOT b` gives `a` plain and `b` negated by the carried operator |
| QueryAst.EscapedTermRepeated | src/store/modules/search.js:169-170 | `a\:b a\:b` lists the label `a:b` twice, because the raw term is compared with stripped labels |
| QueryAst.EscapedLabel | src/store/modules/search.js:170 | only the first backslash goes: `a\:b` becomes `a:b` |
| QueryAst.PlainTermAdded | src/store/modules/search.js:169-170 | a backslash-free term not yet listed is appended with its field, label, negation and regex flag |
| QueryAst.TwoFieldsExample | src/store/modules/search.js:161-190 | `content:term_01 field_name:term_02` gives both terms with their fields, in order |
| QueryAst.ContentQueryTerms | src/store/modules/search.js:191-194 | `retrieveContentQueryTerms` keeps exactly the terms on the `''` or `content` field, and keeps labels distinct |
| QueryAst.ContentFieldExample | src/store/modules/search.js:191-194 | of `content:term_01 field_name:term_02` only the content term is kept |
| QueryAst.CountBound | src/store/modules/search.js:197-198 | the non-overlapping matches of a non-empty literal term fit in the text |
| QueryAst.CountPositive | src/store/modules/search.js:197-198 | a literal term is counted at least once exactly when it occurs in the text, up to the case fold |
| QueryAst.TermCounts | src/store/modules/search.js:195-201 | one count per content term; a non-empty literal term's count is positive exactly when it occurs case-insensitively |
| QueryAst.Pruned | src/store/modules/search.js:425-435 | no direct child left or right has the deleted term; `start` survives only with a left child; `operator` and `parenthesized` survive only with both children; leaf children with other terms are kept as they are |
| QueryAst.PrunedKeepsOtherTerms | src/store/modules/search.js:425-429 | every other term of the tree survives the deletion of a non-empty term: inner children are kept and pruned in turn |
| QueryAst.PrunedAbsentTerm | src/store/modules/search.js:425-435 | on a tree of the parser's shape, deleting a non-empty term it does not hold returns the tree unchanged |
| QueryAst.DeleteQueryTermFromSimpleQuery | src/store/modules/search.js:425-435 | the step-by-step reassignment of `query` returns exactly `Pruned(q, term)` |
| QueryAst.PrunedRemovesTerm | src/store/modules/search.js:425-429 | in a tree whose inner nodes have left children, the term is gone at every depth |
| QueryAst.PrunedIdempotent | src/store/modules/search.js:425-435 | deleting the same term twice is deleting it once |
| Search.InitialNamesDistinct | src/store/modules/search.js:49-61 | the eleven initial filter definitions have eleven different names |
| Search.InitialStateValid | src/store/modules/search.js:43-76 | the initial state has a known search field and a duplicate-free reversed list |
| Search.ResetValues | src/store/modules/search.js:219-225 | after `reset`, each key not excluded holds its initial value and each excluded key its old one |
| Search.RestoredValues | src/store/modules/search.js:223 | `state[key] = s[key]` changes that key and no other |
| Search.RouteReset | src/store/modules/search.js:399 | the reset of `updateFromRouteQuery` keeps index, global search, starred documents, filter panel, layout, field and download permission, and restores everything else |
| Search.DefaultReset | src/store/modules/search.js:219 | the default reset keeps index, filter panel, layout, page size and sort, and restores everything else |
| Search.ResetValid | src/store/modules/search.js:219-225 | a reset with any exclusions keeps the state valid |
| Search.ResetIdempotent | src/store/modules/search.js:219-225 | resetting twice with the same exclusions is resetting once |
| Search.ValidatedField | src/store/modules/search.js:258-261 | the stored field is a known field or the default, and it equals the argument exactly when the argument is one of those |
| Search.AddValues | src/store/modules/search.js:272-285 | the filter's values are the old ones and the added ones, without duplicates; other filters keep theirs |
| Search.AddValuesKeepsOrder | src/store/modules/search.js:277 | values already selected keep their places at the front |
| Search.AddPresentValues | src/store/modules/search.js:272-278 | re-adding selected values changes nothing |
| Search.AddValuesTwice | src/store/modules/search.js:282-285 | adding `a` then `b` is adding `a ++ b` at once |
| Search.RemoveValue | src/store/modules/search.js:286-291 | every copy of the value goes and the other values stay; other filters keep theirs |
| Search.RemoveAbsentValue | src/store/modules/search.js:286-291 | removing a value not selected changes nothing |
| Search.RemoveUndoesAdd | src/store/modules/search.js:272-291 | removing a value just added restores the selection |
| Search.RemoveDefinition | src/store/modules/search.js:292-294 | an absent name changes nothing; otherwise the first definition with that name is spliced out and the others stay, in order and unchanged; with distinct names no definition of that name is left |
| Search.Excluded | src/store/modules/search.js:302-306 | the name becomes reversed, an already reversed name changes nothing, and no duplicate appears |
| Search.Included | src/store/modules/search.js:307-309 | an absent name changes nothing; in a duplicate-free list the name goes and the others stay |
| Search.Toggled | src/store/modules/search.js:310-316 | the name's membership flips, the others stay, and no duplicate appears |
| Search.IncludeUndoesExclude | src/store/modules/search.js:302-309 | including a name just excluded restores the list |
| Search.ToggleTwice | src/store/modules/search.js:310-316 | toggling twice restores which filters are reversed |
| Search.Starred | src/store/modules/search.js:323-325 | the starred list becomes the union, each document once |
| Search.Unstarred | src/store/modules/search.js:326-328 | the starred documents that are not unstarred, and no others; a duplicate-free list stays duplicate-free |
| Search.UnstarredInOrder | src/store/modules/search.js:326-328 | `difference` works piece by piece over the starred list, keeping its order, and keeps a single document exactly when it is not unstarred |
| Search.StarToggled | src/store/modules/search.js:450-457 | toggling flips the document's membership and no other |
| Search.UnstarUndoesStar | src/store/modules/search.js:323-328 | unstarring documents just starred restores the list |
| Search.Queried | src/store/modules/search.js:349-357 | the `query` action: a text replaces the query and keeps index, offset, size and sort; in a parameter object each of index, offset, size, sort and field is the given value or, when the key is missing, the current one, and an object without `query` is stored as the query; either way the field is passed through `ValidatedField` |
| Search.FlagOrToggle | src/store/modules/search.js:246-248 | the `isReady`/`toggleFilters` argument, or without one the negation of the current flag |
| Search.FlagToggleTwice | src/store/modules/search.js:320-322 | two calls without an argument restore the flag |
| Search.QueryDefaultUnchanged | src/store/modules/search.js:349-357 | re-running the current search changes nothing |
| Search.QueryTextOnly | src/store/modules/search.js:350-356 | a text query changes the query and nothing else |
| Search.NextPageState | src/store/modules/search.js:394-397 | `nextPage` moves the offset forward by one page and changes nothing else |
| Search.PreviousPageState | src/store/modules/search.js:390-393 | `previousPage` moves the offset back by one page and changes nothing else |
| Search.PreviousUndoesNext | src/store/modules/search.js:390-397 | one page forward then one back is the identity |
| Search.QueryTerms | src/store/modules/search.js:161-190 | a query that is not a text has no terms; a text has the terms of the query-tree walk |
| Search.FilterValuesAsRouteQuery | src/store/modules/search.js:125-142 | one parameter per defined filter with values, keyed `f[-name]` exactly when reversed, holding its values |
| Search.DecodeFilterStep | src/store/modules/search.js:411-420 | one filter's turn adds the values of its two keys, reverses it for the `f[-name]` key, and touches no other filter |
| Search.DecodeFiltersAt | src/store/modules/search.js:408-422 | decoding touches only defined filters: each gets the values of its parameters and is reversed exactly when it has an `f[-name]` parameter; the reversed list stays duplicate-free |
| Search.RouteScalars | src/store/modules/search.js:401-406 | the scalar commits keep the state valid and leave the filters alone |
| Search.WithRouteFilters | src/store/modules/search.js:408-422 | the filter decoding changes only the values and the reversed list, and keeps the reversed list duplicate-free |
| Search.FromRoute | src/store/modules/search.js:398-423 | `updateFromRouteQuery` keeps the state valid, restores the initial filters, and keeps global search, starred documents, filter panel, layout and download permission |
| Search.FromRouteParts | src/store/modules/search.js:398-423 | each key after `updateFromRouteQuery`: the route's non-empty parameter or the initial value; index and field kept when absent; the filters decoded from an empty selection with `language` reversed |
| Search.RouteFiltersRoundTrip | src/store/modules/search.js:125-142 | decoding the encoded filters gives each filter defined both initially and in the state its values back without duplicates, and its reversed flag back; `language` stays reversed |
| Search.RouteRoundTrip | src/store/modules/search.js:398-423 | decoding the route built by `toRouteQuery` restores query text, paging, index, field, non-empty sort, filter values without duplicates and reversed flags |
| Search.RouteRoundTripValues | src/store/modules/search.js:398-423 | with duplicate-free selections, each filter's values come back exactly |
| Search.SearchStore.constructor | src/store/modules/search.js:43-76 | the store starts in `initialState()` and is valid |
| Search.SearchStore.Reset | src/store/modules/search.js:219-225 | the loop over the initial keys leaves exactly `ResetState` of the old state, and the store stays valid |
| Search.SearchStore.SetField | src/store/modules/search.js:258-261 | the field becomes the validated field |
| Search.SearchStore.AddFilterValue | src/store/modules/search.js:272-278 | the values become `AddValues` of the old values with the cast value |
| Search.SearchStore.SetFilterValue | src/store/modules/search.js:279-281 | the filter's values become the cast value; other filters keep theirs |
| Search.SearchStore.AddFilterValues | src/store/modules/search.js:282-285 | the values become `AddValues` of the old values with the cast values |
| Search.SearchStore.RemoveFilterValue | src/store/modules/search.js:286-291 | a single value: the values become `RemoveValue` of the old values; an array value is `!==` to every value, so the filter keeps all its values |
| Search.SearchStore.RemoveFilter | src/store/modules/search.js:292-298 | the definition goes as `RemoveDefinition` says, and so does the filter's entry in the values |
| Search.SearchStore.AddFilter | src/store/modules/search.js:299-301 | the definition is appended |
| Search.SearchStore.ExcludeFilter | src/store/modules/search.js:302-306 | the reversed list becomes `Excluded` of the old one |
| Search.SearchStore.IncludeFilter | src/store/modules/search.js:307-309 | the reversed list becomes `Included` of the old one |
| Search.SearchStore.ToggleFilter | src/store/modules/search.js:310-316 | the reversed list becomes `Toggled` of the old one |
| Search.SearchStore.ResetFilterValues | src/store/modules/search.js:317-319 | the filter's values become empty; other filters keep theirs |
| Search.SearchStore.SetReady | src/store/modules/search.js:246-248 | `isReady` becomes `FlagOrToggle` of the argument and the old flag |
| Search.SearchStore.ToggleFilters | src/store/modules/search.js:320-322 | `showFilters` becomes `FlagOrToggle` of the argument and the old flag |
| Search.SearchStore.Query | src/store/modules/search.js:349-357 | the six commits leave the search keys as `Queried` says |
| Search.SearchStore.NextPage | src/store/modules/search.js:394-397 | the store becomes `NextPageState` of the old state |
| Search.SearchStore.PreviousPage | src/store/modules/search.js:390-393 | the store becomes `PreviousPageState` of the old state |
| Search.SearchStore.UpdateFromRouteQuery | src/store/modules/search.js:398-423 | the store becomes `FromRoute` of the old state and the route |
| Search.SearchStore.ApplyRouteScalars | src/store/modules/search.js:401-406 | the store becomes `RouteScalars` of the old state |
| Search.SearchStore.ApplyRouteFilters | src/store/modules/search.js:408-422 | the loop over the definitions leaves `WithRouteFilters` of the old state |
| Search.SearchStore.ApplyRouteFilter | src/store/modules/search.js:411-420 | one filter's two keys leave the values and the reversed list as `DecodeFilter` says, and the store stays valid |
| Search.SearchStore.DeleteQueryTerm | src/store/modules/search.js:424-439 | a text query that parses is replaced by the serialized pruned tree and nothing else changes; otherwise nothing changes |
| Search.SearchStore.StarDocuments | src/store/modules/search.js:440-444 | once saved, the starred list becomes `Starred` of the old one |
| Search.SearchStore.UnstarDocuments | src/store/modules/search.js:445-449 | once saved, the starred list becomes `Unstarred` of the old one |
| Search.SearchStore.ToggleStarDocument | src/store/modules/search.js:450-457 | once saved, the starred list becomes `StarToggled` of the old one |
| Indexing.Remove | src/store/modules/indexing.js:33-41 | what lodash `remove` leaves: exactly the tasks not selected |
| Indexing.Removed | src/store/modules/indexing.js:33-41 | what lodash `remove` takes out: exactly the tasks selected |
| Indexing.RemovePartition | src/store/modules/indexing.js:33-41 | the kept and the removed tasks together are the original tasks, as a multiset and in number |
| Indexing.RemoveAppend | src/store/modules/indexing.js:33-41 | removal works task by task, so the kept tasks stay in order |
| Indexing.RemoveNothing | src/store/modules/indexing.js:33-41 | when no task is selected the list is unchanged |
| Indexing.RemoveIdempotent | src/store/modules/indexing.js:33-41 | removing twice removes nothing more |
| Indexing.RemoveCommutes | src/store/modules/indexing.js:33-41 | stopping pending tasks and deleting finished ones commute |
| Indexing.StopTaskExample | src/store/modules/indexing.js:36-38 | of `foo.bar@123` and `foo.bar@456`, stopping the first leaves the second |
| Indexing.FindNamesRequest | src/store/modules/indexing.js:68-86 | a call is made exactly for the five known pipelines, under their backend names; `syncModels` is `!offline` except for `email`, where it is false |
| Indexing.FindNamesInjective | src/store/modules/indexing.js:68-86 | different pipelines reach different backend names |
| Indexing.FindNamesReadsPipelineAndOffline | src/store/modules/indexing.js:68-86 | only `pipeline` and `offline` decide the call |
| Indexing.DefaultRequests | src/store/modules/indexing.js:7-18 | the initial form extracts without OCR with the filter on, and asks CORENLP with model synchronisation |
| Indexing.ResetExtractRequest | src/store/modules/indexing.js:52-54 | after `resetExtractForm`, extraction runs without OCR and keeps its filter option |
| Indexing.ResetFindNamesRequest | src/store/modules/indexing.js:55-58 | after `resetFindNamedEntitiesForm`, the named-entity call is the default one |
| Indexing.IndexingStore.constructor | src/store/modules/indexing.js:7-20 | the store starts in `initialState()` |
| Indexing.IndexingStore.Reset | src/store/modules/indexing.js:28-32 | the loop over the keys restores form, poll handle and tasks to their initial values |
| Indexing.IndexingStore.StopPendingTasks | src/store/modules/indexing.js:33-35 | the tasks in state `RUNNING` are removed, the others kept in order |
| Indexing.IndexingStore.StopTask | src/store/modules/indexing.js:36-38 | the tasks with that name are removed, the others kept in order |
| Indexing.IndexingStore.DeleteDoneTasks | src/store/modules/indexing.js:39-41 | the tasks in state `DONE` are removed, the others kept in order |
| Indexing.IndexingStore.UpdateTasks | src/store/modules/indexing.js:42-44 | the task list becomes the raw list |
| Indexing.IndexingStore.SetPollHandle | src/store/modules/indexing.js:45-47 | the handle is stored |
| Indexing.IndexingStore.StopPolling | src/store/modules/indexing.js:48-51 | the old handle is handed to `clearInterval` and the store holds none, so a second call clears nothing |
| Indexing.IndexingStore.ResetExtractForm | src/store/modules/indexing.js:52-54 | only `ocr` goes back to its initial value |
| Indexing.IndexingStore.ResetFindNamedEntitiesForm | src/store/modules/indexing.js:55-58 | only `pipeline` and `offline` go back to their initial values |
| Indexing.IndexingStore.SubmitExtract | src/store/modules/indexing.js:62-64 | the options sent are `ExtractRequest` of the form |
| Indexing.IndexingStore.SubmitFindNamedEntities | src/store/modules/indexing.js:68-86 | the call made, if any, is `FindNamesRequest` of the form |

## Left out

- The backend and its asynchrony:
  - Elasticsearch `searchDocs`/`searchFilter`, and with them `refresh`, `queryFilter`, `response`, `error` and `buildResponse`;
  - the `api.*` calls (`index`, `findNames`, `runBatchSearch`, the task calls, `deleteAll`, star, unstar, the starred list).

  They are foreign, asynchronous I/O. The model keeps only their effect on the local state:
  - the search that each action dispatches at its end is not run. `Search.QueryDefaultUnchanged` shows that the `query` action re-commits the current values without changing the state;
  - `runBatchSearch` and `deleteAll` have no local effect at all;
  - in `indexing.js`, `.then(commit(...))` performs the commit at once, so the `stopPendingTasks`, `stopTask` and `deleteDoneTasks` actions are their mutations;
  - `loadTasks` is `UpdateTasks` with the backend's list.
- `lucene.parse` and `lucene.toString` belong to an external library. They are parameters, and serialisation is not modelled. The `\@` unescaping is applied before parsing, as the getter does.
- Search.SearchStore.DeleteQueryTerm: when the parser rejects the query, the source throws before any commit. The model reports this as `ok == false` with nothing changed. A query that is not a text is treated the same way.
- The filter classes and `instantiateFilter` live in `@/store/filters`, which is not part of this model. A filter is taken to be:
  - its values: `values[name]`, or `[]` when there are none;
  - its reversal flag: the name being in `reversed`;
  - `itemParam({ key })`: the filter's name with that value.
- `hasFilterValue` is left out. It searches `state.instantiatedFilters`, which is not a state key (the getter of that name lives in `getters`), so it finds nothing and is always `false`.
- `findFilter`, `instantiatedFilters`, `activeFilters`, `hasFilterValues`, `isFilterReversed`, `sortBy` and the other read-only getters are left out, because they depend on the filter classes.
- `updateField`/`getField` from vuex-map-fields are left out.
- The setters `setGlobalSearch`, `layout`, `isDownloadAllowed` and `starredDocuments` are left out; each is a plain assignment. The `error` mutation is left out with the rest of `error`; called without an argument it stores `null`.
- The lookup of a `starred` definition at the end of `reset`, and the `starredDocuments` it sets on it, are left out. The definitions have `type` and `options` but no `name`, so the lookup never finds one.
- `response` and `error` are not part of the modelled search state, and `isNarrowScreen()` is the parameter `narrowScreen`.
- `toRouteQueryWithStamp` is left out: it adds a random stamp.
- `retrieveContentQueryTermsInDocument`, and the `.sort` with a one-argument comparator, are left out; the comparator's effect depends on the JavaScript engine.
- QueryAst.TermCounts: the count of a regex term is an abstract `regexCount`. The in-place writing of the count onto the term objects is not modelled.
- Route keys are pairs of a name and a reversed flag. That `f[-x]` is also the plain key of a filter named `-x` is not captured.
- JavaScript `Number` on a route string is the abstract `toNumber`; `NaN` is not modelled.
- `addLocalSearchMarks` and `replaceInChildNodes` in `strings.js` are left out: they manipulate a cheerio DOM.
- Strings.Slugger: `toLowerCase` and the `\s` class are abstract, so the contract bounds the slug's length by that of the lower-cased text rather than computing it.
- Strings.Slices, Strings.Highlight: JavaScript strings count UTF-16 code units, and the backend's mark indexes are in those units. The model's strings are sequences of Unicode scalar values. For text with characters outside the Basic Multilingual Plane (emoji, for example), the model cuts and highlights at other positions than the source, and `length` differs.
- Strings highlighting: the precise result is proved for marks with distinct in-range indexes whose contents do not overlap the next mark. For other marks only the general shape of `highlight` is stated.
- The indexing store's timers:
  - `setInterval` in `startPollTasks` is a handle passed to `SetPollHandle`;
  - the handle given to `clearInterval` is the result of `StopPolling`;
  - the `reset` mutation forgets the handle without clearing the timer, and the model does the same.
- A task's `progress` is a `real`. No arithmetic is done on it.
