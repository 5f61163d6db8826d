/**
 * The search store: the state of a document search (query, paging, sort,
 * search field, the filter definitions with their selected and reversed
 * values, the starred documents), the mutations and actions that change it,
 * the encoding of that state as route parameters and its decoding back into
 * the store.
 *
 * Every mutation and action is a method of `SearchStore`, specified by a
 * function on the `State` record that `Snapshot()` gives; the properties of
 * the store are lemmas about those functions.
 */
module Search {
  import opened Collections
  import QueryAst

  /** The parts of the application settings the store reads. */
  datatype Settings = Settings(defaultSort: string, defaultField: string, fieldKeys: seq<string>)

  /** A filter definition `{ type, options }`: its class and its name (the first option). */
  datatype FilterDef = FilterDef(kind: string, name: string)

  /**
   * What the store holds as `query`: a query text, or an object of search
   * parameters in which every key may be missing.
   */
  datatype QueryValue =
    | Text(text: string)
    | Params(index: Option<string>, query: Option<QueryValue>, from: Option<int>,
             size: Option<int>, sort: Option<string>, field: Option<string>)

  /** A filter value as passed to the mutations: one value or several. */
  datatype FilterValue = One(value: string) | Many(values: seq<string>)

  datatype State = State(
    query: QueryValue,
    from: int,
    size: int,
    globalSearch: bool,
    filters: seq<FilterDef>,
    values: map<string, seq<string>>,
    reversed: seq<string>,
    sort: string,
    field: string,
    isReady: bool,
    index: string,
    showFilters: bool,
    starredDocuments: seq<string>,
    layout: string,
    isDownloadAllowed: bool)

  function InitialFilters(): seq<FilterDef> {
    [ FilterDef("FilterStarred", "starred"),
      FilterDef("FilterText", "tags"),
      FilterDef("FilterText", "contentType"),
      FilterDef("FilterDateRange", "creationDate"),
      FilterDef("FilterText", "language"),
      FilterDef("FilterNamedEntity", "namedEntityPerson"),
      FilterDef("FilterNamedEntity", "namedEntityOrganization"),
      FilterDef("FilterNamedEntity", "namedEntityLocation"),
      FilterDef("FilterPath", "path"),
      FilterDef("FilterText", "extractionLevel"),
      FilterDef("FilterDate", "indexingDate") ]
  }

  function Names(filters: seq<FilterDef>): (r: seq<string>)
    ensures |r| == |filters|
    ensures forall i :: 0 <= i < |r| ==> r[i] == filters[i].name
  {
    seq(|filters|, i requires 0 <= i < |filters| => filters[i].name)
  }

  lemma NamesAppend(a: seq<FilterDef>, b: seq<FilterDef>)
    ensures Names(a + b) == Names(a) + Names(b)
  {
  }

  /** The eleven initial filters have eleven different names. */
  lemma InitialNamesDistinct()
    ensures Distinct(Names(InitialFilters()))
  {
    var names := Names(InitialFilters());
    assert names == ["starred", "tags", "contentType", "creationDate", "language", "namedEntityPerson",
                     "namedEntityOrganization", "namedEntityLocation", "path", "extractionLevel", "indexingDate"];
    forall i, j | 0 <= i < j < |names| ensures names[i] != names[j] {
      if |names[i]| == |names[j]| {
        assert names[i][0] != names[j][0];
      }
    }
  }

  /** `initialState()`; whether the screen is narrow is a parameter. */
  function InitialState(settings: Settings, narrowScreen: bool): State {
    State(Text(""), 0, 25, true, InitialFilters(), map[], ["language"], settings.defaultSort,
          settings.defaultField, true, "", true, [], if narrowScreen then "table" else "list", false)
  }

  /** The search field is a known one or the default, and no filter is reversed twice. */
  ghost predicate ValidState(settings: Settings, st: State) {
    && (st.field in settings.fieldKeys || st.field == settings.defaultField)
    && Distinct(st.reversed)
  }

  lemma InitialStateValid(settings: Settings, narrowScreen: bool)
    ensures ValidState(settings, InitialState(settings, narrowScreen))
  {
  }

  // ---------------------------------------------------------------------
  // reset

  /** The keys of the state. */
  datatype Key =
    | Query | From | Size | GlobalSearch | Filters | Values | Reversed | Sort | Field
    | IsReady | Index | ShowFilters | StarredDocuments | Layout | IsDownloadAllowed

  /** The keys of the state, in the order of `initialState()`. */
  const StateKeys: seq<Key> :=
    [Key.Query, Key.From, Key.Size, Key.GlobalSearch, Key.Filters, Key.Values, Key.Reversed, Key.Sort,
     Key.Field, Key.IsReady, Key.Index, Key.ShowFilters, Key.StarredDocuments, Key.Layout, Key.IsDownloadAllowed]

  /** The keys a plain `reset` keeps. */
  const DefaultResetExclusions: seq<Key> := [Key.Index, Key.ShowFilters, Key.Layout, Key.Size, Key.Sort]

  /** The keys the reset at the start of `updateFromRouteQuery` keeps. */
  const RouteResetExclusions: seq<Key> :=
    [Key.Index, Key.GlobalSearch, Key.StarredDocuments, Key.ShowFilters, Key.Layout, Key.Field, Key.IsDownloadAllowed]

  /** One key after the reset: its initial value, unless the key is excluded. */
  function Keep<T>(excluded: seq<Key>, key: Key, initial: T, current: T): T {
    if key in excluded then current else initial
  }

  /** The `reset` mutation: every key not excluded takes its initial value, every excluded key keeps its own. */
  function ResetState(st: State, init: State, excluded: seq<Key>): State {
    State(
      Keep(excluded, Key.Query, init.query, st.query),
      Keep(excluded, Key.From, init.from, st.from),
      Keep(excluded, Key.Size, init.size, st.size),
      Keep(excluded, Key.GlobalSearch, init.globalSearch, st.globalSearch),
      Keep(excluded, Key.Filters, init.filters, st.filters),
      Keep(excluded, Key.Values, init.values, st.values),
      Keep(excluded, Key.Reversed, init.reversed, st.reversed),
      Keep(excluded, Key.Sort, init.sort, st.sort),
      Keep(excluded, Key.Field, init.field, st.field),
      Keep(excluded, Key.IsReady, init.isReady, st.isReady),
      Keep(excluded, Key.Index, init.index, st.index),
      Keep(excluded, Key.ShowFilters, init.showFilters, st.showFilters),
      Keep(excluded, Key.StarredDocuments, init.starredDocuments, st.starredDocuments),
      Keep(excluded, Key.Layout, init.layout, st.layout),
      Keep(excluded, Key.IsDownloadAllowed, init.isDownloadAllowed, st.isDownloadAllowed))
  }

  /** The value under one key of the state, as JavaScript sees it: untyped. */
  datatype Value =
    | QueryText(q: QueryValue)
    | Number(n: int)
    | Flag(b: bool)
    | Word(s: string)
    | Definitions(defs: seq<FilterDef>)
    | Selected(m: map<string, seq<string>>)
    | List(items: seq<string>)

  /** `state[key]`. */
  function ValueOf(st: State, key: Key): Value {
    match key
    case Query => QueryText(st.query)
    case From => Number(st.from)
    case Size => Number(st.size)
    case GlobalSearch => Flag(st.globalSearch)
    case Filters => Definitions(st.filters)
    case Values => Selected(st.values)
    case Reversed => List(st.reversed)
    case Sort => Word(st.sort)
    case Field => Word(st.field)
    case IsReady => Flag(st.isReady)
    case Index => Word(st.index)
    case ShowFilters => Flag(st.showFilters)
    case StarredDocuments => List(st.starredDocuments)
    case Layout => Word(st.layout)
    case IsDownloadAllowed => Flag(st.isDownloadAllowed)
  }

  /** A state is given by its values under all keys. */
  lemma SameValues(a: State, b: State)
    requires forall k :: ValueOf(a, k) == ValueOf(b, k)
    ensures a == b
  {
    assert ValueOf(a, Key.Query) == ValueOf(b, Key.Query);
    assert ValueOf(a, Key.From) == ValueOf(b, Key.From);
    assert ValueOf(a, Key.Size) == ValueOf(b, Key.Size);
    assert ValueOf(a, Key.GlobalSearch) == ValueOf(b, Key.GlobalSearch);
    assert ValueOf(a, Key.Filters) == ValueOf(b, Key.Filters);
    assert ValueOf(a, Key.Values) == ValueOf(b, Key.Values);
    assert ValueOf(a, Key.Reversed) == ValueOf(b, Key.Reversed);
    assert ValueOf(a, Key.Sort) == ValueOf(b, Key.Sort);
    assert ValueOf(a, Key.Field) == ValueOf(b, Key.Field);
    assert ValueOf(a, Key.IsReady) == ValueOf(b, Key.IsReady);
    assert ValueOf(a, Key.Index) == ValueOf(b, Key.Index);
    assert ValueOf(a, Key.ShowFilters) == ValueOf(b, Key.ShowFilters);
    assert ValueOf(a, Key.StarredDocuments) == ValueOf(b, Key.StarredDocuments);
    assert ValueOf(a, Key.Layout) == ValueOf(b, Key.Layout);
    assert ValueOf(a, Key.IsDownloadAllowed) == ValueOf(b, Key.IsDownloadAllowed);
  }

  lemma ResetValues(st: State, init: State, excluded: seq<Key>)
    ensures forall k :: ValueOf(ResetState(st, init, excluded), k) == Keep(excluded, k, ValueOf(init, k), ValueOf(st, k))
  {
    forall k ensures ValueOf(ResetState(st, init, excluded), k) == Keep(excluded, k, ValueOf(init, k), ValueOf(st, k)) {
      match k
      case Query =>
      case From =>
      case Size =>
      case GlobalSearch =>
      case Filters =>
      case Values =>
      case Reversed =>
      case Sort =>
      case Field =>
      case IsReady =>
      case Index =>
      case ShowFilters =>
      case StarredDocuments =>
      case Layout =>
      case IsDownloadAllowed =>
    }
  }

  /** `state[key] = s[key]`. */
  function Restored(st: State, key: Key, init: State): State {
    match key
    case Query => st.(query := init.query)
    case From => st.(from := init.from)
    case Size => st.(size := init.size)
    case GlobalSearch => st.(globalSearch := init.globalSearch)
    case Filters => st.(filters := init.filters)
    case Values => st.(values := init.values)
    case Reversed => st.(reversed := init.reversed)
    case Sort => st.(sort := init.sort)
    case Field => st.(field := init.field)
    case IsReady => st.(isReady := init.isReady)
    case Index => st.(index := init.index)
    case ShowFilters => st.(showFilters := init.showFilters)
    case StarredDocuments => st.(starredDocuments := init.starredDocuments)
    case Layout => st.(layout := init.layout)
    case IsDownloadAllowed => st.(isDownloadAllowed := init.isDownloadAllowed)
  }

  lemma RestoredValues(st: State, key: Key, init: State)
    ensures forall k :: ValueOf(Restored(st, key, init), k) == if k == key then ValueOf(init, k) else ValueOf(st, k)
  {
    match key
    case Query =>
    case From =>
    case Size =>
    case GlobalSearch =>
    case Filters =>
    case Values =>
    case Reversed =>
    case Sort =>
    case Field =>
    case IsReady =>
    case Index =>
    case ShowFilters =>
    case StarredDocuments =>
    case Layout =>
    case IsDownloadAllowed =>
  }

  /** Every key of the state is among `StateKeys`. */
  lemma AllKeys(k: Key)
    ensures k in StateKeys
  {
    match k
    case Query => assert StateKeys[0] == k;
    case From => assert StateKeys[1] == k;
    case Size => assert StateKeys[2] == k;
    case GlobalSearch => assert StateKeys[3] == k;
    case Filters => assert StateKeys[4] == k;
    case Values => assert StateKeys[5] == k;
    case Reversed => assert StateKeys[6] == k;
    case Sort => assert StateKeys[7] == k;
    case Field => assert StateKeys[8] == k;
    case IsReady => assert StateKeys[9] == k;
    case Index => assert StateKeys[10] == k;
    case ShowFilters => assert StateKeys[11] == k;
    case StarredDocuments => assert StateKeys[12] == k;
    case Layout => assert StateKeys[13] == k;
    case IsDownloadAllowed => assert StateKeys[14] == k;
  }

  /** The reset of `updateFromRouteQuery` keeps index, global search, starred documents, filter panel, layout, field and download permission. */
  lemma RouteReset(st: State, init: State)
    ensures ResetState(st, init, RouteResetExclusions)
         == init.(index := st.index, globalSearch := st.globalSearch, starredDocuments := st.starredDocuments,
                  showFilters := st.showFilters, layout := st.layout, field := st.field,
                  isDownloadAllowed := st.isDownloadAllowed)
  {
  }

  /** A reset keeps the store valid, whatever it excludes. */
  lemma ResetValid(settings: Settings, st: State, narrowScreen: bool, excluded: seq<Key>)
    requires ValidState(settings, st)
    ensures ValidState(settings, ResetState(st, InitialState(settings, narrowScreen), excluded))
  {
  }

  /** Resetting twice with the same exclusions is resetting once. */
  lemma ResetIdempotent(st: State, init: State, excluded: seq<Key>)
    ensures ResetState(ResetState(st, init, excluded), init, excluded) == ResetState(st, init, excluded)
  {
  }

  /** The default reset keeps index, filter panel, layout, page size and sort, and restores the rest. */
  lemma DefaultReset(settings: Settings, st: State, narrowScreen: bool)
    ensures ResetState(st, InitialState(settings, narrowScreen), DefaultResetExclusions)
         == InitialState(settings, narrowScreen).(index := st.index, showFilters := st.showFilters,
                                                  layout := st.layout, size := st.size, sort := st.sort)
  {
  }

  // ---------------------------------------------------------------------
  // search field

  /** The `field` mutation: a field that is not one of the search fields becomes the default one. */
  function ValidatedField(settings: Settings, field: string): (r: string)
    ensures r in settings.fieldKeys || r == settings.defaultField
    ensures r == field <==> field in settings.fieldKeys || field == settings.defaultField
  {
    if IndexOf(settings.fieldKeys, field) > -1 then field else settings.defaultField
  }

  // ---------------------------------------------------------------------
  // filter values

  /** lodash `castArray`. */
  function CastArray(v: FilterValue): seq<string> {
    match v
    case One(x) => [x]
    case Many(xs) => xs
  }

  /** `get(state, ['values', name], [])`. */
  function Get(values: map<string, seq<string>>, name: string): seq<string> {
    if name in values then values[name] else []
  }

  /**
   * `addFilterValue` and `addFilterValues`: the new values are merged after
   * the existing ones without duplicates; the other filters keep theirs.
   */
  function AddValues(values: map<string, seq<string>>, name: string, added: seq<string>): (r: map<string, seq<string>>)
    ensures r.Keys == values.Keys + {name}
    ensures forall n :: n in values && n != name ==> r[n] == values[n]
    ensures Distinct(r[name])
    ensures forall v :: v in r[name] <==> v in Get(values, name) || v in added
  {
    values[name := Uniq(Get(values, name) + added)]
  }

  /** Values already selected keep their place; new ones come after them. */
  lemma AddValuesKeepsOrder(values: map<string, seq<string>>, name: string, added: seq<string>)
    requires Distinct(Get(values, name))
    ensures |Get(values, name)| <= |AddValues(values, name, added)[name]|
    ensures AddValues(values, name, added)[name][..|Get(values, name)|] == Get(values, name)
  {
    UniqKeepsPrefix(Get(values, name), added);
    UniqOfDistinct(Get(values, name));
  }

  /** Adding values that are all selected already changes nothing. */
  lemma AddPresentValues(values: map<string, seq<string>>, name: string, added: seq<string>)
    requires Distinct(Get(values, name))
    requires forall v :: v in added ==> v in Get(values, name)
    ensures AddValues(values, name, added)[name] == Get(values, name)
  {
    UniqAppendPresent(Get(values, name), added);
    UniqOfDistinct(Get(values, name));
  }

  /** Adding `a` and then `b` is adding `a + b` at once. */
  lemma AddValuesTwice(values: map<string, seq<string>>, name: string, a: seq<string>, b: seq<string>)
    ensures AddValues(AddValues(values, name, a), name, b) == AddValues(values, name, a + b)
  {
    var x := Get(values, name);
    var once := AddValues(values, name, a);
    assert Get(once, name) == Uniq(x + a);
    UniqAbsorbs(x + a, b);
    AppendAssociative(x, a, b);
    assert AddValues(once, name, b) == values[name := Uniq(x + a)][name := Uniq(x + (a + b))];
  }

  function Unequal(value: string): string -> bool {
    v => v != value
  }

  /** `removeFilterValue`: every occurrence of the value goes, the other values stay in order. */
  function RemoveValue(values: map<string, seq<string>>, name: string, value: string): (r: map<string, seq<string>>)
    ensures r.Keys == values.Keys + {name}
    ensures forall n :: n in values && n != name ==> r[n] == values[n]
    ensures forall v :: v in r[name] <==> v in Get(values, name) && v != value
    ensures |r[name]| <= |Get(values, name)|
  {
    values[name := Filter(Get(values, name), Unequal(value))]
  }

  /** Removing a value that is not selected leaves the selection as it is. */
  lemma RemoveAbsentValue(values: map<string, seq<string>>, name: string, value: string)
    requires value !in Get(values, name)
    ensures RemoveValue(values, name, value)[name] == Get(values, name)
  {
    FilterAll(Get(values, name), Unequal(value));
  }

  /** Removing a value just added gives back the selection from before. */
  lemma RemoveUndoesAdd(values: map<string, seq<string>>, name: string, value: string)
    requires Distinct(Get(values, name)) && value !in Get(values, name)
    ensures RemoveValue(AddValues(values, name, [value]), name, value)[name] == Get(values, name)
  {
    var x := Get(values, name);
    DistinctConcat(x, [value]);
    UniqOfDistinct(x + [value]);
    assert AddValues(values, name, [value])[name] == x + [value];
    FilterAppend(x, [value], Unequal(value));
    FilterAll(x, Unequal(value));
    assert Filter([value], Unequal(value)) == [];
  }

  // ---------------------------------------------------------------------
  // filter definitions

  /** `removeFilter` on the definitions: the first definition with that name is spliced out. */
  function RemoveDefinition(filters: seq<FilterDef>, name: string): (r: seq<FilterDef>)
    ensures name !in Names(filters) ==> r == filters
    ensures name in Names(filters) ==> |r| == |filters| - 1
    ensures name in Names(filters) ==>
      exists i :: 0 <= i < |filters| && filters[i].name == name && name !in Names(filters[..i])
                  && r == filters[..i] + filters[i + 1..]
    ensures Distinct(Names(filters)) ==>
      && Distinct(Names(r))
      && name !in Names(r)
      && forall n :: n != name ==> (n in Names(r) <==> n in Names(filters))
  {
    RemoveDefinitionShape(filters, name);
    RemoveDefinitionFirst(filters, name);
    RemoveDefinitionNames(filters, name);
    DeleteAt(filters, IndexOf(Names(filters), name))
  }

  /** Nothing is removed when no definition has the name, and one definition otherwise. */
  lemma RemoveDefinitionShape(filters: seq<FilterDef>, name: string)
    ensures name !in Names(filters) ==> DeleteAt(filters, IndexOf(Names(filters), name)) == filters
    ensures name in Names(filters) ==> |DeleteAt(filters, IndexOf(Names(filters), name))| == |filters| - 1
  {
    var i := IndexOf(Names(filters), name);
    assert |Names(filters)| == |filters|;
    assert name in Names(filters) <==> 0 <= i < |filters|;
  }

  /** The definition spliced out is the first one with the name; the others stay, in order. */
  lemma RemoveDefinitionFirst(filters: seq<FilterDef>, name: string)
    ensures name in Names(filters) ==>
      var i := IndexOf(Names(filters), name);
      && 0 <= i < |filters| && filters[i].name == name && name !in Names(filters[..i])
      && DeleteAt(filters, i) == filters[..i] + filters[i + 1..]
  {
    if name in Names(filters) {
      var i := IndexOf(Names(filters), name);
      assert Names(filters)[..i] == Names(filters[..i]);
    }
  }

  /** What splicing out the first definition named `name` does to the list and its names. */
  lemma RemoveDefinitionNames(filters: seq<FilterDef>, name: string)
    ensures var r := Names(DeleteAt(filters, IndexOf(Names(filters), name)));
      Distinct(Names(filters)) ==>
        && Distinct(r)
        && name !in r
        && forall n :: n != name ==> (n in r <==> n in Names(filters))
  {
    if Distinct(Names(filters)) {
      var names := Names(filters);
      var i := IndexOf(names, name);
      NamesDeleteAt(filters, i);
      assert Names(DeleteAt(filters, i)) == DeleteAt(names, i);
      DeleteFirstOccurrence(names, name);
    }
  }

  /** Deleting the first occurrence of a name from a duplicate-free list removes that name only. */
  lemma DeleteFirstIfDistinct(names: seq<string>, name: string)
    ensures Distinct(names) ==>
      var r := DeleteAt(names, IndexOf(names, name));
      Distinct(r) && name !in r && forall n :: n != name ==> (n in r <==> n in names)
  {
    if Distinct(names) {
      DeleteFirstOccurrence(names, name);
    }
  }

  lemma NamesDeleteAt(filters: seq<FilterDef>, i: int)
    ensures Names(DeleteAt(filters, i)) == DeleteAt(Names(filters), i)
  {
    if 0 <= i < |filters| {
      NamesAppend(filters[..i], filters[i + 1..]);
      assert Names(filters)[..i] == Names(filters[..i]);
      assert Names(filters)[i + 1..] == Names(filters[i + 1..]);
    }
  }

  // ---------------------------------------------------------------------
  // reversed filters

  /** `excludeFilter`: the name is reversed, appended once. */
  function Excluded(reversed: seq<string>, name: string): (r: seq<string>)
    ensures name in r
    ensures forall n :: n != name ==> (n in r <==> n in reversed)
    ensures name in reversed ==> r == reversed
    ensures Distinct(reversed) ==> Distinct(r)
  {
    if IndexOf(reversed, name) == -1 then reversed + [name] else reversed
  }

  /** `includeFilter`: the first occurrence of the name is deleted. */
  function Included(reversed: seq<string>, name: string): (r: seq<string>)
    ensures name !in reversed ==> r == reversed
    ensures Distinct(reversed) ==>
      && Distinct(r)
      && name !in r
      && forall n :: n != name ==> (n in r <==> n in reversed)
  {
    DeleteFirstIfDistinct(reversed, name);
    DeleteAt(reversed, IndexOf(reversed, name))
  }

  /** `toggleFilter`: a reversed name is included, any other is excluded. */
  function Toggled(reversed: seq<string>, name: string): (r: seq<string>)
    ensures Distinct(reversed) ==>
      && Distinct(r)
      && (name in r <==> name !in reversed)
      && forall n :: n != name ==> (n in r <==> n in reversed)
  {
    if IndexOf(reversed, name) > -1 then Included(reversed, name) else reversed + [name]
  }

  /** Including a name just excluded gives back the list from before. */
  lemma IncludeUndoesExclude(reversed: seq<string>, name: string)
    requires name !in reversed
    ensures Included(Excluded(reversed, name), name) == reversed
  {
    var r := reversed + [name];
    assert Excluded(reversed, name) == r;
    assert IndexOf(r, name) == |reversed|;
    assert DeleteAt(r, |reversed|) == r[..|reversed|] + r[|reversed| + 1..];
    assert r[..|reversed|] == reversed && r[|reversed| + 1..] == [];
  }

  /** Toggling twice restores which filters are reversed. */
  lemma ToggleTwice(reversed: seq<string>, name: string)
    requires Distinct(reversed)
    ensures Distinct(Toggled(Toggled(reversed, name), name))
    ensures forall n :: n in Toggled(Toggled(reversed, name), name) <==> n in reversed
  {
  }

  // ---------------------------------------------------------------------
  // starred documents

  /** `pushFromStarredDocuments`: the union, each document once. */
  function Starred(starred: seq<string>, ids: seq<string>): (r: seq<string>)
    ensures Distinct(r)
    ensures forall x :: x in r <==> x in starred || x in ids
  {
    Uniq(starred + ids)
  }

  function Outside(ids: seq<string>): string -> bool {
    x => x !in ids
  }

  /** `removeFromStarredDocuments` (lodash `difference`): the others, in order. */
  function Unstarred(starred: seq<string>, ids: seq<string>): (r: seq<string>)
    ensures forall x :: x in r <==> x in starred && x !in ids
    ensures Distinct(starred) ==> Distinct(r)
  {
    assert Distinct(starred) ==> Distinct(Filter(starred, Outside(ids))) by {
      if Distinct(starred) {
        FilterDistinct(starred, Outside(ids));
      }
    }
    Filter(starred, Outside(ids))
  }

  /**
   * `difference` keeps the order of the starred list: unstarring works piece
   * by piece, and a single document stays exactly when it is not unstarred.
   */
  lemma UnstarredInOrder(a: seq<string>, b: seq<string>, ids: seq<string>)
    ensures Unstarred(a + b, ids) == Unstarred(a, ids) + Unstarred(b, ids)
    ensures Unstarred([], ids) == []
    ensures forall x :: Unstarred([x], ids) == if x in ids then [] else [x]
  {
    FilterAppend(a, b, Outside(ids));
    forall x
      ensures Unstarred([x], ids) == if x in ids then [] else [x]
    {
      assert [x][1..] == [];
    }
  }

  /** `toggleStarDocument`: a starred document is unstarred, any other is starred. */
  function StarToggled(starred: seq<string>, id: string): (r: seq<string>)
    ensures id in r <==> id !in starred
    ensures forall x :: x != id ==> (x in r <==> x in starred)
  {
    if IndexOf(starred, id) >= 0 then Unstarred(starred, [id]) else Starred(starred, [id])
  }

  /** Unstarring documents just starred gives back the list from before. */
  lemma UnstarUndoesStar(starred: seq<string>, ids: seq<string>)
    requires Distinct(starred) && Distinct(ids)
    requires forall x :: x in ids ==> x !in starred
    ensures Unstarred(Starred(starred, ids), ids) == starred
  {
    DistinctConcat(starred, ids);
    UniqOfDistinct(starred + ids);
    FilterAppend(starred, ids, Outside(ids));
    FilterAll(starred, Outside(ids));
    var rest := Filter(ids, Outside(ids));
    assert rest != [] ==> rest[0] in rest;
  }

  // ---------------------------------------------------------------------
  // the query action and paging

  /** A key of the argument object, or the current value when the key is missing. */
  function Given<T>(v: Option<T>, current: T): T {
    if v.Some? then v.value else current
  }

  /**
   * The flag the `isReady` and `toggleFilters` mutations store: their
   * argument, or, when they are called without one, the negated current flag.
   */
  function FlagOrToggle(arg: Option<bool>, current: bool): (r: bool)
    ensures arg.Some? ==> r == arg.value
    ensures arg.None? ==> r != current
  {
    if arg.Some? then arg.value else !current
  }

  /** Calling such a mutation twice without an argument restores the flag. */
  lemma FlagToggleTwice(current: bool)
    ensures FlagOrToggle(None, FlagOrToggle(None, current)) == current
  {
  }

  /** The default argument of the `query` action: the current values. */
  function DefaultQuery(st: State): QueryValue {
    Params(Some(st.index), Some(st.query), Some(st.from), Some(st.size), Some(st.sort), Some(st.field))
  }

  /**
   * The commits of the `query` action. A text argument is the new query and
   * keeps every other value; in a parameter object each missing key keeps
   * the current value, and an object without a `query` key is itself stored
   * as the query. The field is validated either way.
   */
  function Queried(settings: Settings, st: State, arg: QueryValue): (r: State)
    ensures r == st.(index := r.index, query := r.query, from := r.from, size := r.size,
                     sort := r.sort, field := r.field)
    ensures ValidState(settings, st) ==> ValidState(settings, r)
    ensures arg.Text? ==> r.query == arg && r.index == st.index && r.from == st.from
                           && r.size == st.size && r.sort == st.sort
    ensures arg.Params? && arg.query.None? ==> r.query == arg
    ensures arg.Params? && arg.query.Some? ==> r.query == arg.query.value
    ensures arg.Params? ==> r.from == Given(arg.from, st.from) && r.size == Given(arg.size, st.size)
    ensures arg.Params? ==> r.index == Given(arg.index, st.index) && r.sort == Given(arg.sort, st.sort)
    ensures arg.Params? ==> r.field == ValidatedField(settings, Given(arg.field, st.field))
    ensures arg.Text? ==> r.field == ValidatedField(settings, st.field)
  {
    match arg
    case Text(_) =>
      st.(query := arg, field := ValidatedField(settings, st.field))
    case Params(index, query, from, size, sort, field) =>
      st.(index := Given(index, st.index),
          query := Given(query, arg),
          from := Given(from, st.from),
          size := Given(size, st.size),
          sort := Given(sort, st.sort),
          field := ValidatedField(settings, Given(field, st.field)))
  }

  /** Re-running the current search changes nothing. */
  lemma QueryDefaultUnchanged(settings: Settings, st: State)
    requires ValidState(settings, st)
    ensures Queried(settings, st, DefaultQuery(st)) == st
  {
  }

  /** A text query replaces the query and nothing else. */
  lemma QueryTextOnly(settings: Settings, st: State, text: string)
    requires ValidState(settings, st)
    ensures Queried(settings, st, Text(text)) == st.(query := Text(text))
  {
  }

  /** `nextPage`: the offset moves forward by one page and the search is re-run. */
  function NextPageState(settings: Settings, st: State): (r: State)
    ensures ValidState(settings, st) ==> r == st.(from := st.from + st.size)
  {
    var moved := st.(from := st.from + st.size);
    Queried(settings, moved, DefaultQuery(moved))
  }

  /** `previousPage`: the offset moves back by one page and the search is re-run. */
  function PreviousPageState(settings: Settings, st: State): (r: State)
    ensures ValidState(settings, st) ==> r == st.(from := st.from - st.size)
  {
    var moved := st.(from := st.from - st.size);
    Queried(settings, moved, DefaultQuery(moved))
  }

  /** Going one page forward and one back returns to the same state. */
  lemma PreviousUndoesNext(settings: Settings, st: State)
    requires ValidState(settings, st)
    ensures PreviousPageState(settings, NextPageState(settings, st)) == st
  {
  }

  // ---------------------------------------------------------------------
  // query terms of the current query

  /** `retrieveQueryTerms` on the store: a query that is not a text has no terms. */
  function QueryTerms(st: State, parse: string -> Option<QueryAst.Node>): (r: seq<QueryAst.QueryTerm>)
    ensures st.query.Params? ==> r == []
    ensures st.query.Text? ==> r == QueryAst.QueryTermsOf(st.query.text, parse)
  {
    if st.query.Text? then QueryAst.QueryTermsOf(st.query.text, parse) else []
  }

  // ---------------------------------------------------------------------
  // route encoding and decoding

  /** A filter's route parameter: `f[name]`, or `f[-name]` when the filter is reversed. */
  datatype RouteKey = RouteKey(name: string, reversed: bool)

  /**
   * `filterValuesAsRouteQuery`: one parameter per filter that is defined and
   * has values, under its plain or reversed key, holding those values.
   */
  function FilterValuesAsRouteQuery(st: State): (r: map<RouteKey, seq<string>>)
    ensures forall k :: k in r <==>
      k.name in st.values && k.name in Names(st.filters) && st.values[k.name] != []
      && k.reversed == (k.name in st.reversed)
    ensures forall k :: k in r ==> r[k] == st.values[k.name]
  {
    map name | name in st.values.Keys && name in Names(st.filters) && st.values[name] != []
      :: RouteKey(name, name in st.reversed) := st.values[name]
  }

  /** `toRouteQuery`. */
  datatype RouteParams = RouteParams(q: QueryValue, from: int, size: int, sort: string, index: string,
                                     field: string, filters: map<RouteKey, seq<string>>)

  function ToRouteQuery(st: State): RouteParams {
    RouteParams(st.query, st.from, st.size, st.sort, st.index, st.field, FilterValuesAsRouteQuery(st))
  }

  /** A route query as `updateFromRouteQuery` receives it: every scalar is a string or missing. */
  datatype RouteQuery = RouteQuery(q: Option<string>, index: Option<string>, from: Option<string>,
                                   size: Option<string>, sort: Option<string>, field: Option<string>,
                                   filters: map<RouteKey, seq<string>>)

  /** A string parameter that JavaScript counts as true: present and not empty. */
  predicate Truthy(v: Option<string>) {
    v.Some? && v.value != ""
  }

  /** The route a router builds from `toRouteQuery()`, numbers written with `numberText`. */
  function InRoute(p: RouteParams, numberText: int -> string): RouteQuery {
    RouteQuery(if p.q.Text? then Some(p.q.text) else None, Some(p.index), Some(numberText(p.from)),
               Some(numberText(p.size)), Some(p.sort), Some(p.field), p.filters)
  }

  /** The selected and reversed values, as the decoding loop updates them. */
  datatype Selection = Selection(values: map<string, seq<string>>, reversed: seq<string>)

  /** One filter's turn: its plain key adds values, its reversed key adds values and reverses it. */
  function DecodeFilter(sel: Selection, name: string, route: map<RouteKey, seq<string>>): Selection {
    var plain := RouteKey(name, false);
    var minus := RouteKey(name, true);
    var values := if plain in route then AddValues(sel.values, name, route[plain]) else sel.values;
    if minus in route then Selection(AddValues(values, name, route[minus]), Excluded(sel.reversed, name))
    else Selection(values, sel.reversed)
  }

  /** The decoding loop over the filter definitions, in order. */
  function DecodeFilters(sel: Selection, defs: seq<FilterDef>, route: map<RouteKey, seq<string>>): Selection
    decreases |defs|
  {
    if defs == [] then sel
    else DecodeFilter(DecodeFilters(sel, defs[..|defs| - 1], route), defs[|defs| - 1].name, route)
  }

  /** What decoding leaves as one filter's values, starting from `x`. */
  function Decoded(x: seq<string>, name: string, route: map<RouteKey, seq<string>>): seq<string> {
    var plain := RouteKey(name, false);
    var minus := RouteKey(name, true);
    var y := if plain in route then Uniq(x + route[plain]) else x;
    if minus in route then Uniq(y + route[minus]) else y
  }

  /**
   * Decoding a route touches only the filters that have a definition: a
   * defined filter gets the values of its parameters and is reversed when it
   * has a reversed parameter; every other name keeps what it had.
   */
  lemma {:induction false} DecodeFiltersAt(sel: Selection, defs: seq<FilterDef>, route: map<RouteKey, seq<string>>, n: string)
    ensures var r := DecodeFilters(sel, defs, route);
      && (n in r.values <==>
            (n in sel.values || (n in Names(defs) && (RouteKey(n, false) in route || RouteKey(n, true) in route))))
      && (n !in Names(defs) ==> Get(r.values, n) == Get(sel.values, n))
      && (Distinct(Names(defs)) && n in Names(defs) ==> Get(r.values, n) == Decoded(Get(sel.values, n), n, route))
      && (n in r.reversed <==> n in sel.reversed || (n in Names(defs) && RouteKey(n, true) in route))
      && (Distinct(sel.reversed) ==> Distinct(r.reversed))
    decreases |defs|
  {
    if defs != [] {
      var init := defs[..|defs| - 1];
      var last := defs[|defs| - 1].name;
      assert defs == init + [defs[|defs| - 1]];
      NamesAppend(init, [defs[|defs| - 1]]);
      assert Names(defs) == Names(init) + [last];
      DecodeFiltersAt(sel, init, route, n);
      if Distinct(Names(defs)) {
        DistinctInit(Names(defs));
      }
      DecodeFilterStep(DecodeFilters(sel, init, route), last, route, n);
    }
  }

  /** One filter's turn touches only that filter. */
  lemma DecodeFilterStep(s: Selection, name: string, route: map<RouteKey, seq<string>>, n: string)
    ensures var r := DecodeFilter(s, name, route);
      && (n in r.values <==> n in s.values || (n == name && (RouteKey(n, false) in route || RouteKey(n, true) in route)))
      && (n != name ==> Get(r.values, n) == Get(s.values, n))
      && (n == name ==> Get(r.values, n) == Decoded(Get(s.values, n), n, route))
      && (n in r.reversed <==> n in s.reversed || (n == name && RouteKey(n, true) in route))
      && (Distinct(s.reversed) ==> Distinct(r.reversed))
  {
  }

  /**
   * `updateFromRouteQuery`: a reset that keeps index, global search, starred
   * documents, filter panel, layout, search field and download permission;
   * the scalar parameters that are present and not empty; then the filter
   * parameters of every defined filter. No search is run.
   */
  function FromRoute(settings: Settings, st: State, route: RouteQuery, narrowScreen: bool, toNumber: string -> int): (r: State)
    ensures ValidState(settings, st) ==> ValidState(settings, r)
    ensures r.filters == InitialFilters()
    ensures r.index == OrCurrent(route.index, st.index)
    ensures r.globalSearch == st.globalSearch && r.starredDocuments == st.starredDocuments
    ensures r.showFilters == st.showFilters && r.layout == st.layout && r.isDownloadAllowed == st.isDownloadAllowed
  {
    var reset := ResetState(st, InitialState(settings, narrowScreen), RouteResetExclusions);
    RouteReset(st, InitialState(settings, narrowScreen));
    WithRouteFilters(RouteScalars(settings, reset, route, toNumber), route.filters)
  }

  /** The scalar commits of `updateFromRouteQuery`: each parameter that is present and not empty. */
  function RouteScalars(settings: Settings, st: State, route: RouteQuery, toNumber: string -> int): (r: State)
    ensures ValidState(settings, st) ==> ValidState(settings, r)
    ensures r.filters == st.filters && r.values == st.values && r.reversed == st.reversed
  {
    st.(query := if Truthy(route.q) then Text(route.q.value) else st.query,
        index := OrCurrent(route.index, st.index),
        from := NumberOrCurrent(route.from, toNumber, st.from),
        size := NumberOrCurrent(route.size, toNumber, st.size),
        sort := OrCurrent(route.sort, st.sort),
        field := FieldOrCurrent(settings, route.field, st.field))
  }

  /** A route parameter that is present and not empty, or the current value. */
  function OrCurrent(v: Option<string>, current: string): string {
    if Truthy(v) then v.value else current
  }

  /** A route parameter read as a number by `toNumber`, or the current value. */
  function NumberOrCurrent(v: Option<string>, toNumber: string -> int, current: int): int {
    if Truthy(v) then toNumber(v.value) else current
  }

  /** The `field` commit of a route parameter, or the current field. */
  function FieldOrCurrent(settings: Settings, v: Option<string>, current: string): string {
    if Truthy(v) then ValidatedField(settings, v.value) else current
  }

  /** The filter parameters of a route, decoded over the store's filter definitions. */
  function WithRouteFilters(st: State, route: map<RouteKey, seq<string>>): (r: State)
    ensures Distinct(st.reversed) ==> Distinct(r.reversed)
    ensures r == st.(values := r.values, reversed := r.reversed)
  {
    var sel := DecodeFilters(Selection(st.values, st.reversed), st.filters, route);
    DecodeFiltersAt(Selection(st.values, st.reversed), st.filters, route, "");
    st.(values := sel.values, reversed := sel.reversed)
  }

  /**
   * What `updateFromRouteQuery` leaves: the initial query, paging and sort
   * unless the route gives them, the current index and field unless the
   * route gives them, and the filters decoded from an empty selection with
   * only `language` reversed.
   */
  lemma FromRouteParts(settings: Settings, st: State, route: RouteQuery, narrowScreen: bool, toNumber: string -> int)
    ensures var r := FromRoute(settings, st, route, narrowScreen, toNumber);
      var sel := DecodeFilters(Selection(map[], ["language"]), InitialFilters(), route.filters);
      && r.query == (if Truthy(route.q) then Text(route.q.value) else Text(""))
      && r.from == NumberOrCurrent(route.from, toNumber, 0)
      && r.size == NumberOrCurrent(route.size, toNumber, 25)
      && r.sort == OrCurrent(route.sort, settings.defaultSort)
      && r.index == OrCurrent(route.index, st.index)
      && r.field == FieldOrCurrent(settings, route.field, st.field)
      && r.values == sel.values && r.reversed == sel.reversed
  {
    RouteReset(st, InitialState(settings, narrowScreen));
  }

  /**
   * Decoding the filter parameters of a state over the initial definitions:
   * a filter defined in both gets its values back, without duplicates, and
   * is reversed when it was; `language` stays reversed.
   */
  lemma RouteFiltersRoundTrip(st: State, n: string)
    ensures var sel := DecodeFilters(Selection(map[], ["language"]), InitialFilters(), FilterValuesAsRouteQuery(st));
      && (n in sel.values <==>
            (n in Names(InitialFilters()) && n in Names(st.filters) && n in st.values && st.values[n] != []))
      && (n in Names(InitialFilters()) && n in Names(st.filters) ==> Get(sel.values, n) == Uniq(Get(st.values, n)))
      && (n in sel.reversed <==> n == "language" || (n in sel.values && n in st.reversed))
  {
    var route := FilterValuesAsRouteQuery(st);
    var sel := Selection(map[], ["language"]);
    InitialNamesDistinct();
    DecodeFiltersAt(sel, InitialFilters(), route, n);
    if n in Names(InitialFilters()) && n in Names(st.filters) {
      if n in st.values && st.values[n] != [] {
        var k := RouteKey(n, n in st.reversed);
        assert k in route;
        assert RouteKey(n, !(n in st.reversed)) !in route;
        assert Decoded([], n, route) == Uniq([] + st.values[n]);
        assert [] + st.values[n] == st.values[n];
      } else {
        assert RouteKey(n, true) !in route && RouteKey(n, false) !in route;
      }
    }
  }

  /**
   * Decoding the route built from a state gives that state back: query
   * text, paging, index and field; the values of every filter defined both
   * in the state and initially, without duplicates; and the reversed
   * filters among those with values. `language`, reversed initially, stays
   * reversed. The sort comes back unless it is empty.
   */
  lemma RouteRoundTrip(settings: Settings, st: State, narrowScreen: bool,
                       numberText: int -> string, toNumber: string -> int, n: string)
    requires ValidState(settings, st)
    requires forall k :: toNumber(numberText(k)) == k && numberText(k) != ""
    ensures var r := FromRoute(settings, st, InRoute(ToRouteQuery(st), numberText), narrowScreen, toNumber);
      && (st.query.Text? ==> r.query == st.query)
      && r.from == st.from && r.size == st.size
      && r.index == st.index && r.field == st.field
      && (st.sort != "" ==> r.sort == st.sort)
      && (n in r.values <==>
            (n in Names(InitialFilters()) && n in Names(st.filters) && n in st.values && st.values[n] != []))
      && (n in Names(InitialFilters()) && n in Names(st.filters) ==> Get(r.values, n) == Uniq(Get(st.values, n)))
      && (n in r.reversed <==> n == "language" || (n in r.values && n in st.reversed))
  {
    var route := InRoute(ToRouteQuery(st), numberText);
    FromRouteParts(settings, st, route, narrowScreen, toNumber);
    RouteFiltersRoundTrip(st, n);
    assert toNumber(numberText(st.from)) == st.from && numberText(st.from) != "";
    assert toNumber(numberText(st.size)) == st.size && numberText(st.size) != "";
  }

  /** With duplicate-free selections, the filter values come back exactly. */
  lemma RouteRoundTripValues(settings: Settings, st: State, narrowScreen: bool,
                             numberText: int -> string, toNumber: string -> int, n: string)
    requires ValidState(settings, st)
    requires forall k :: toNumber(numberText(k)) == k && numberText(k) != ""
    requires n in Names(InitialFilters()) && n in Names(st.filters)
    requires Distinct(Get(st.values, n))
    ensures Get(FromRoute(settings, st, InRoute(ToRouteQuery(st), numberText), narrowScreen, toNumber).values, n)
         == Get(st.values, n)
  {
    RouteRoundTrip(settings, st, narrowScreen, numberText, toNumber, n);
    UniqOfDistinct(Get(st.values, n));
  }

  // ---------------------------------------------------------------------
  // the store

  class SearchStore {
    const settings: Settings
    var query: QueryValue
    var from: int
    var size: int
    var globalSearch: bool
    var filters: seq<FilterDef>
    var values: map<string, seq<string>>
    var reversed: seq<string>
    var sort: string
    var field: string
    var isReady: bool
    var index: string
    var showFilters: bool
    var starredDocuments: seq<string>
    var layout: string
    var isDownloadAllowed: bool

    /** The store's state as a value. */
    function Snapshot(): State
      reads this
    {
      State(query, from, size, globalSearch, filters, values, reversed, sort, field, isReady, index,
            showFilters, starredDocuments, layout, isDownloadAllowed)
    }

    ghost predicate Valid()
      reads this
    {
      && (field in settings.fieldKeys || field == settings.defaultField)
      && Distinct(reversed)
    }

    constructor (settings: Settings, narrowScreen: bool)
      ensures this.settings == settings
      ensures Snapshot() == InitialState(settings, narrowScreen)
      ensures Valid()
    {
      this.settings := settings;
      var st := InitialState(settings, narrowScreen);
      query := st.query;
      from := st.from;
      size := st.size;
      globalSearch := st.globalSearch;
      filters := st.filters;
      values := st.values;
      reversed := st.reversed;
      sort := st.sort;
      field := st.field;
      isReady := st.isReady;
      index := st.index;
      showFilters := st.showFilters;
      starredDocuments := st.starredDocuments;
      layout := st.layout;
      isDownloadAllowed := st.isDownloadAllowed;
    }

    /** Every key takes its value in `st`. */
    method Load(st: State)
      modifies this
      ensures Snapshot() == st
    {
      LoadSearch(st);
      LoadFilters(st);
      LoadView(st);
    }

    /** The keys a search is run with take their values in `st`. */
    method LoadSearch(st: State)
      modifies this`query, this`from, this`size, this`sort, this`field, this`index
      ensures query == st.query
      ensures from == st.from
      ensures size == st.size
      ensures sort == st.sort
      ensures field == st.field
      ensures index == st.index
    {
      query := st.query;
      from := st.from;
      size := st.size;
      sort := st.sort;
      field := st.field;
      index := st.index;
    }

    /** The filter keys take their values in `st`. */
    method LoadFilters(st: State)
      modifies this`globalSearch, this`filters, this`values, this`reversed
      ensures globalSearch == st.globalSearch
      ensures filters == st.filters
      ensures values == st.values
      ensures reversed == st.reversed
    {
      globalSearch := st.globalSearch;
      filters := st.filters;
      values := st.values;
      reversed := st.reversed;
    }

    /** The display keys take their values in `st`. */
    method LoadView(st: State)
      modifies this`isReady, this`showFilters, this`starredDocuments, this`layout, this`isDownloadAllowed
      ensures isReady == st.isReady
      ensures showFilters == st.showFilters
      ensures starredDocuments == st.starredDocuments
      ensures layout == st.layout
      ensures isDownloadAllowed == st.isDownloadAllowed
    {
      isReady := st.isReady;
      showFilters := st.showFilters;
      starredDocuments := st.starredDocuments;
      layout := st.layout;
      isDownloadAllowed := st.isDownloadAllowed;
    }

    /**
     * The `reset` mutation: a pass over the keys of the initial state that
     * copies every key not excluded into the state.
     */
    method Reset(excludedKeys: seq<Key>, narrowScreen: bool)
      requires Valid()
      modifies this
      ensures Valid()
      ensures Snapshot() == ResetState(old(Snapshot()), InitialState(settings, narrowScreen), excludedKeys)
    {
      var s := InitialState(settings, narrowScreen);
      var next := Snapshot();
      for i := 0 to |StateKeys|
        invariant forall k :: ValueOf(next, k) == (if k in StateKeys[..i] && k !in excludedKeys then ValueOf(s, k) else ValueOf(old(Snapshot()), k))
      {
        var key := StateKeys[i];
        assert StateKeys[..i + 1] == StateKeys[..i] + [key];
        if IndexOf(excludedKeys, key) == -1 {
          RestoredValues(next, key, s);
          next := Restored(next, key, s);
        }
      }
      assert StateKeys[..|StateKeys|] == StateKeys;
      forall k ensures k in StateKeys {
        AllKeys(k);
      }
      ResetValues(old(Snapshot()), s, excludedKeys);
      SameValues(next, ResetState(old(Snapshot()), s, excludedKeys));
      ResetValid(settings, old(Snapshot()), narrowScreen, excludedKeys);
      Load(next);
    }

    /** The `field` mutation. */
    method SetField(f: string)
      requires Valid()
      modifies this`field
      ensures Valid()
      ensures field == ValidatedField(settings, f)
    {
      field := ValidatedField(settings, f);
    }

    method AddFilterValue(name: string, value: FilterValue)
      requires Valid()
      modifies this`values
      ensures Valid()
      ensures values == AddValues(old(values), name, CastArray(value))
    {
      var existing := Get(values, name);
      values := values[name := Uniq(existing + CastArray(value))];
    }

    method SetFilterValue(name: string, value: FilterValue)
      requires Valid()
      modifies this`values
      ensures Valid()
      ensures values == old(values)[name := CastArray(value)]
    {
      values := values[name := CastArray(value)];
    }

    method AddFilterValues(name: string, added: FilterValue)
      requires Valid()
      modifies this`values
      ensures Valid()
      ensures values == AddValues(old(values), name, CastArray(added))
    {
      var existing := Get(values, name);
      values := values[name := Uniq(existing + CastArray(added))];
    }

    method RemoveFilterValue(name: string, value: FilterValue)
      requires Valid()
      modifies this`values
      ensures Valid()
      ensures value.One? ==> values == RemoveValue(old(values), name, value.value)
      ensures value.Many? ==> values == old(values)[name := Get(old(values), name)]
    {
      var existing := Get(values, name);
      match value {
        case One(v) =>
          values := values[name := Filter(existing, Unequal(v))];
        case Many(_) =>
          // every value is `!==` to an array, so every value stays
          values := values[name := existing];
      }
    }

    /** `removeFilter`: the definition and the filter's values go. */
    method RemoveFilter(name: string)
      requires Valid()
      modifies this`filters, this`values
      ensures Valid()
      ensures filters == RemoveDefinition(old(filters), name)
      ensures values == old(values) - {name}
    {
      var i := IndexOf(Names(filters), name);
      filters := DeleteAt(filters, i);
      if name in values {
        values := values - {name};
      }
    }

    /** `addFilter`: appended, with no check for a definition of the same name. */
    method AddFilter(def: FilterDef)
      requires Valid()
      modifies this`filters
      ensures Valid()
      ensures filters == old(filters) + [def]
    {
      filters := filters + [def];
    }

    method ExcludeFilter(name: string)
      requires Valid()
      modifies this`reversed
      ensures Valid()
      ensures reversed == Excluded(old(reversed), name)
    {
      if IndexOf(reversed, name) == -1 {
        reversed := reversed + [name];
      }
    }

    method IncludeFilter(name: string)
      requires Valid()
      modifies this`reversed
      ensures Valid()
      ensures reversed == Included(old(reversed), name)
    {
      reversed := DeleteAt(reversed, IndexOf(reversed, name));
    }

    method ToggleFilter(name: string)
      requires Valid()
      modifies this`reversed
      ensures Valid()
      ensures reversed == Toggled(old(reversed), name)
    {
      if IndexOf(reversed, name) > -1 {
        reversed := DeleteAt(reversed, IndexOf(reversed, name));
      } else {
        reversed := reversed + [name];
      }
    }

    method ResetFilterValues(name: string)
      requires Valid()
      modifies this`values
      ensures Valid()
      ensures values == old(values)[name := []]
    {
      values := values[name := []];
    }

    /** The `isReady` mutation; without an argument it flips the flag. */
    method SetReady(arg: Option<bool>)
      requires Valid()
      modifies this`isReady
      ensures Valid()
      ensures isReady == FlagOrToggle(arg, old(isReady))
    {
      isReady := if arg.Some? then arg.value else !isReady;
    }

    /** The `toggleFilters` mutation; without an argument it flips `showFilters`. */
    method ToggleFilters(arg: Option<bool>)
      requires Valid()
      modifies this`showFilters
      ensures Valid()
      ensures showFilters == FlagOrToggle(arg, old(showFilters))
    {
      showFilters := if arg.Some? then arg.value else !showFilters;
    }

    /** The `query` action's commits; the search it then runs is not modelled. */
    method Query(arg: QueryValue)
      requires Valid()
      modifies this`index, this`query, this`from, this`size, this`sort, this`field
      ensures Valid()
      ensures var r := Queried(settings, old(Snapshot()), arg);
        && index == r.index && query == r.query && from == r.from
        && size == r.size && sort == r.sort && field == r.field
    {
      match arg {
        case Text(_) =>
          query := arg;
          SetField(field);
        case Params(i, q, f, n, o, d) =>
          index := Given(i, index);
          query := Given(q, arg);
          from := Given(f, from);
          size := Given(n, size);
          sort := Given(o, sort);
          SetField(Given(d, field));
      }
    }

    method NextPage()
      requires Valid()
      modifies this`index, this`query, this`from, this`size, this`sort, this`field
      ensures Valid()
      ensures Snapshot() == NextPageState(settings, old(Snapshot()))
    {
      from := from + size;
      Query(DefaultQuery(Snapshot()));
    }

    method PreviousPage()
      requires Valid()
      modifies this`index, this`query, this`from, this`size, this`sort, this`field
      ensures Valid()
      ensures Snapshot() == PreviousPageState(settings, old(Snapshot()))
    {
      from := from - size;
      Query(DefaultQuery(Snapshot()));
    }

    /**
     * `updateFromRouteQuery`, with `toNumber` for JavaScript's `Number` on
     * a route parameter.
     */
    method UpdateFromRouteQuery(route: RouteQuery, narrowScreen: bool, toNumber: string -> int)
      requires Valid()
      modifies this
      ensures Valid()
      ensures Snapshot() == FromRoute(settings, old(Snapshot()), route, narrowScreen, toNumber)
    {
      Reset(RouteResetExclusions, narrowScreen);
      RouteReset(old(Snapshot()), InitialState(settings, narrowScreen));
      ApplyRouteScalars(route, toNumber);
      ApplyRouteFilters(route.filters);
    }

    /** The scalar commits of `updateFromRouteQuery`, which do not run a search. */
    method ApplyRouteScalars(route: RouteQuery, toNumber: string -> int)
      requires Valid()
      modifies this`query, this`from, this`size, this`sort, this`field, this`index
      ensures Valid()
      ensures Snapshot() == RouteScalars(settings, old(Snapshot()), route, toNumber)
    {
      LoadSearch(RouteScalars(settings, Snapshot(), route, toNumber));
    }

    /** The filter part of `updateFromRouteQuery`: every defined filter's plain and negated parameter. */
    method ApplyRouteFilters(route: map<RouteKey, seq<string>>)
      requires Valid()
      modifies this`values, this`reversed
      ensures Valid()
      ensures Snapshot() == WithRouteFilters(old(Snapshot()), route)
    {
      var defs := filters;
      for i := 0 to |defs|
        invariant Valid()
        invariant var sel := DecodeFilters(Selection(old(values), old(reversed)), defs[..i], route);
          values == sel.values && reversed == sel.reversed
      {
        assert defs[..i + 1][..i] == defs[..i];
        ApplyRouteFilter(defs[i].name, route);
      }
      assert defs[..|defs|] == defs;
    }

    /** One filter's turn: its plain key, then its negated key, which also excludes the filter. */
    method ApplyRouteFilter(name: string, route: map<RouteKey, seq<string>>)
      requires Valid()
      modifies this`values, this`reversed
      ensures Valid()
      ensures var sel := DecodeFilter(Selection(old(values), old(reversed)), name, route);
        values == sel.values && reversed == sel.reversed
    {
      var plain := RouteKey(name, false);
      if plain in route {
        AddFilterValue(name, Many(route[plain]));
      }
      var minus := RouteKey(name, true);
      if minus in route {
        AddFilterValue(name, Many(route[minus]));
        ExcludeFilter(name);
      }
    }

    /**
     * `deleteQueryTerm`: the query text is parsed, the term deleted from the
     * tree and the tree written back as the query. `ok` is false when the
     * query is not a text or does not parse, and then nothing changes.
     */
    method DeleteQueryTerm(term: string, parse: string -> Option<QueryAst.Node>, serialize: QueryAst.Node -> string)
      returns (ok: bool)
      requires Valid()
      modifies this`index, this`query, this`from, this`size, this`sort, this`field
      ensures Valid()
      ensures ok == (old(query).Text? && parse(old(query).text).Some?)
      ensures ok ==> Snapshot() == old(Snapshot()).(query := Text(serialize(QueryAst.Pruned(parse(old(query).text).value, term))))
      ensures !ok ==> Snapshot() == old(Snapshot())
    {
      if query.Params? {
        return false;
      }
      var parsed := parse(query.text);
      if parsed.None? {
        return false;
      }
      var pruned := QueryAst.DeleteQueryTermFromSimpleQuery(parsed.value, term);
      query := Text(serialize(pruned));
      Query(DefaultQuery(Snapshot()));
      ok := true;
    }

    /** `starDocuments`; `saved` says whether the backend accepted the change. */
    method StarDocuments(ids: seq<string>, saved: bool)
      requires Valid()
      modifies this`starredDocuments
      ensures Valid()
      ensures starredDocuments == if saved then Starred(old(starredDocuments), ids) else old(starredDocuments)
    {
      if saved {
        starredDocuments := Uniq(starredDocuments + ids);
      }
    }

    /** `unstarDocuments`; `saved` says whether the backend accepted the change. */
    method UnstarDocuments(ids: seq<string>, saved: bool)
      requires Valid()
      modifies this`starredDocuments
      ensures Valid()
      ensures starredDocuments == if saved then Unstarred(old(starredDocuments), ids) else old(starredDocuments)
    {
      if saved {
        starredDocuments := Filter(starredDocuments, Outside(ids));
      }
    }

    method ToggleStarDocument(id: string, saved: bool)
      requires Valid()
      modifies this`starredDocuments
      ensures Valid()
      ensures starredDocuments == if saved then StarToggled(old(starredDocuments), id) else old(starredDocuments)
    {
      if IndexOf(starredDocuments, id) >= 0 {
        UnstarDocuments([id], saved);
      } else {
        StarDocuments([id], saved);
      }
    }
  }
}
