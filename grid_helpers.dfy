/**
  The row pipeline of `utils/gridHelpers.ts`: the multi-key sort (`sortData`), the search and
  column-filter pass (`filterData`) and pagination (`paginateData`).
*/
module GridHelpers {
  import opened Wrappers
  import opened Text
  import opened GridTypes
  import opened IntMath

  // ===========================================================================
  // sortData
  // ===========================================================================

  /** One key of the comparator: strings by `localeCompare`, numbers by difference, anything else ties. */
  function KeyCompare(a: User, b: User, field: string): int {
    match (Field(a, field), Field(b, field))
    case (Str(x), Str(y)) => LocaleCompare(x, y)
    case (Num(x), Num(y)) => x - y
    case _ => 0
  }

  /** The comparator of `sortData`: the first key that does not tie decides, negated for `desc`. */
  function CompareRows(a: User, b: User, model: SortModel): int
    decreases |model|
  {
    if model == [] then 0
    else
      var c := KeyCompare(a, b, model[0].field);
      if c != 0 then (if model[0].sort == Asc then c else -c)
      else CompareRows(a, b, model[1..])
  }

  /**
    The sort keys name fields whose kind is the same in every row. Every field of `User` has a fixed
    kind except the optional `avatar`; an absent avatar ties with every string, which would make the
    comparator inconsistent (see `AvatarKeyInconsistent`).
  */
  predicate KeysConsistent(model: SortModel) {
    forall k | 0 <= k < |model| :: model[k].field != "avatar"
  }

  /** `s` is in the order `sortData` establishes. */
  predicate Sorted(s: seq<User>, model: SortModel) {
    forall i, j | 0 <= i < j < |s| :: CompareRows(s[i], s[j], model) <= 0
  }

  /**
    Inserts `x` after the last element that does not sort after it, so that `x` stays behind
    every element it ties with.
  */
  function Insert(s: seq<User>, x: User, model: SortModel): seq<User>
    decreases |s|
  {
    if s == [] then [x]
    else if CompareRows(s[|s| - 1], x, model) > 0 then Insert(s[..|s| - 1], x, model) + [s[|s| - 1]]
    else s + [x]
  }

  /**
    A stable sort under `CompareRows`. Section 23.1.3.30 of ECMA-262 requires `Array.prototype.sort`
    to be stable, so for a consistent comparator its result is this one.
  */
  function StableSort(s: seq<User>, model: SortModel): seq<User>
    decreases |s|
  {
    if s == [] then [] else Insert(StableSort(s[..|s| - 1], model), s[|s| - 1], model)
  }

  /** `sortData(data, sortModel)`: an empty model returns the input itself, otherwise a sorted copy. */
  function SortData(data: seq<User>, model: SortModel): seq<User> {
    if |model| == 0 then data else StableSort(data, model)
  }

  /** The subsequence of the rows of `s` that tie with `k` on every key. */
  function Ties(s: seq<User>, k: User, model: SortModel): seq<User>
    decreases |s|
  {
    if s == [] then []
    else Ties(s[..|s| - 1], k, model) + (if CompareRows(s[|s| - 1], k, model) == 0 then [s[|s| - 1]] else [])
  }

  // ---------------------------------------------------------------------------
  // Order properties of the comparator
  // ---------------------------------------------------------------------------

  predicate SameKind(v: Value, w: Value) {
    (v.Str? && w.Str?) || (v.Num? && w.Num?) || (v.Undefined? && w.Undefined?)
  }

  lemma FieldKindFixed(a: User, b: User, field: string)
    requires field != "avatar"
    ensures SameKind(Field(a, field), Field(b, field))
  {
  }

  lemma KeyCompareAntisymmetric(a: User, b: User, field: string)
    ensures KeyCompare(a, b, field) == -KeyCompare(b, a, field)
  {
    var va, vb := Field(a, field), Field(b, field);
    if va.Str? && vb.Str? {
      LocaleCompareAntisymmetric(va.s, vb.s);
    }
  }

  /** Two rows that tie on a key compare alike against every third row. */
  lemma KeyCompareTie(a: User, b: User, c: User, field: string)
    requires field != "avatar"
    requires KeyCompare(a, b, field) == 0
    ensures KeyCompare(a, c, field) == KeyCompare(b, c, field)
  {
    FieldKindFixed(a, b, field);
    FieldKindFixed(a, c, field);
    var va, vb := Field(a, field), Field(b, field);
    if va.Str? {
      LocaleCompareZero(va.s, vb.s);
    }
  }

  lemma KeyCompareStrict(a: User, b: User, c: User, field: string)
    requires field != "avatar"
    requires KeyCompare(a, b, field) < 0 && KeyCompare(b, c, field) < 0
    ensures KeyCompare(a, c, field) < 0
  {
    FieldKindFixed(a, b, field);
    FieldKindFixed(a, c, field);
    var va, vb, vc := Field(a, field), Field(b, field), Field(c, field);
    if va.Str? {
      LocaleCompareTransitive(va.s, vb.s, vc.s);
      LocaleCompareZero(va.s, vc.s);
      LocaleCompareAntisymmetric(va.s, vb.s);
    }
  }

  lemma {:induction false} CompareRowsAntisymmetric(a: User, b: User, model: SortModel)
    ensures CompareRows(a, b, model) == -CompareRows(b, a, model)
    decreases |model|
  {
    if model != [] {
      KeyCompareAntisymmetric(a, b, model[0].field);
      CompareRowsAntisymmetric(a, b, model[1..]);
    }
  }

  lemma CompareRowsReflexive(a: User, model: SortModel)
    ensures CompareRows(a, a, model) == 0
  {
    CompareRowsAntisymmetric(a, a, model);
  }

  /** Rows that tie on every key compare alike against every third row. */
  lemma {:induction false} CompareRowsTie(a: User, b: User, c: User, model: SortModel)
    requires KeysConsistent(model)
    requires CompareRows(a, b, model) == 0
    ensures CompareRows(a, c, model) == CompareRows(b, c, model)
    decreases |model|
  {
    if model != [] {
      var f := model[0].field;
      assert f != "avatar";
      KeyCompareTie(a, b, c, f);
      assert KeysConsistent(model[1..]) by {
        forall k | 0 <= k < |model[1..]| ensures model[1..][k].field != "avatar" {
          assert model[1..][k] == model[k + 1];
        }
      }
      if KeyCompare(a, c, f) == 0 {
        CompareRowsTie(a, b, c, model[1..]);
      }
    }
  }

  lemma {:induction false} CompareRowsTransitive(a: User, b: User, c: User, model: SortModel)
    requires KeysConsistent(model)
    requires CompareRows(a, b, model) <= 0 && CompareRows(b, c, model) <= 0
    ensures CompareRows(a, c, model) <= 0
    decreases |model|
  {
    if model != [] {
      var f := model[0].field;
      assert f != "avatar";
      assert KeysConsistent(model[1..]) by {
        forall k | 0 <= k < |model[1..]| ensures model[1..][k].field != "avatar" {
          assert model[1..][k] == model[k + 1];
        }
      }
      var ab, bc := KeyCompare(a, b, f), KeyCompare(b, c, f);
      if ab == 0 {
        KeyCompareTie(a, b, c, f);
        if bc == 0 {
          CompareRowsTransitive(a, b, c, model[1..]);
        }
      } else if bc == 0 {
        KeyCompareTie(b, c, a, f);
        KeyCompareAntisymmetric(a, b, f);
        KeyCompareAntisymmetric(a, c, f);
      } else if ab < 0 {
        KeyCompareStrict(a, b, c, f);
      } else {
        KeyCompareAntisymmetric(a, b, f);
        KeyCompareAntisymmetric(b, c, f);
        KeyCompareAntisymmetric(a, c, f);
        KeyCompareStrict(c, b, a, f);
      }
    }
  }

  /** With an `avatar` key the comparator is not transitive: an absent avatar ties with both "a" and "b". */
  lemma AvatarKeyInconsistent()
    ensures var model := [SortKey("avatar", Asc)];
            var a := User(1, "", "", "", "", 0, "", Active, Some("b"));
            var b := User(2, "", "", "", "", 0, "", Active, None);
            var c := User(3, "", "", "", "", 0, "", Active, Some("a"));
            CompareRows(a, b, model) == 0 && CompareRows(b, c, model) == 0 && CompareRows(a, c, model) > 0
  {
    var a := User(1, "", "", "", "", 0, "", Active, Some("b"));
    var b := User(2, "", "", "", "", 0, "", Active, None);
    var c := User(3, "", "", "", "", 0, "", Active, Some("a"));
    var model := [SortKey("avatar", Asc)];
    assert Field(a, "avatar") == Str("b");
    assert Field(b, "avatar") == Undefined;
    assert Field(c, "avatar") == Str("a");
    assert LocaleCompare("b", "a") == 1 by {
      assert "b"[0] > "a"[0];
    }
    assert model[1..] == [];
  }

  // ---------------------------------------------------------------------------
  // Permutation, order, stability, idempotence
  // ---------------------------------------------------------------------------

  lemma {:induction false} InsertMultiset(s: seq<User>, x: User, model: SortModel)
    ensures multiset(Insert(s, x, model)) == multiset(s) + multiset{x}
    decreases |s|
  {
    if s != [] {
      var init, last := s[..|s| - 1], s[|s| - 1];
      assert s == init + [last];
      if CompareRows(last, x, model) > 0 {
        InsertMultiset(init, x, model);
      }
    }
  }

  lemma {:induction false} StableSortMultiset(s: seq<User>, model: SortModel)
    ensures multiset(StableSort(s, model)) == multiset(s)
    decreases |s|
  {
    if s != [] {
      var init, last := s[..|s| - 1], s[|s| - 1];
      assert s == init + [last];
      StableSortMultiset(init, model);
      InsertMultiset(StableSort(init, model), last, model);
    }
  }

  lemma SortedSnoc(t: seq<User>, z: User, model: SortModel)
    requires Sorted(t, model)
    requires forall i | 0 <= i < |t| :: CompareRows(t[i], z, model) <= 0
    ensures Sorted(t + [z], model)
  {
    var u := t + [z];
    forall i, j | 0 <= i < j < |u| ensures CompareRows(u[i], u[j], model) <= 0 {
      if j < |t| {
        assert u[i] == t[i] && u[j] == t[j];
      } else {
        assert u[i] == t[i] && u[j] == z;
      }
    }
  }

  lemma SortedPrefix(s: seq<User>, n: nat, model: SortModel)
    requires Sorted(s, model) && n <= |s|
    ensures Sorted(s[..n], model)
  {
    var p := s[..n];
    forall i, j | 0 <= i < j < |p| ensures CompareRows(p[i], p[j], model) <= 0 {
      assert p[i] == s[i] && p[j] == s[j];
    }
  }

  /** Every element of the sequence `x` is inserted into sorts no later than the last element moved behind it. */
  lemma InsertedBefore(init: seq<User>, x: User, last: User, model: SortModel)
    requires forall j | 0 <= j < |init| :: CompareRows(init[j], last, model) <= 0
    requires CompareRows(last, x, model) > 0
    ensures forall i | 0 <= i < |Insert(init, x, model)| :: CompareRows(Insert(init, x, model)[i], last, model) <= 0
  {
    InsertMultiset(init, x, model);
    var t := Insert(init, x, model);
    forall i | 0 <= i < |t| ensures CompareRows(t[i], last, model) <= 0 {
      assert t[i] in multiset(t);
      if t[i] == x {
        CompareRowsAntisymmetric(last, x, model);
      } else {
        assert t[i] in multiset(init);
        var j :| 0 <= j < |init| && init[j] == t[i];
      }
    }
  }

  lemma {:induction false} InsertSorted(s: seq<User>, x: User, model: SortModel)
    requires KeysConsistent(model)
    requires Sorted(s, model)
    ensures Sorted(Insert(s, x, model), model)
    decreases |s|
  {
    if s != [] {
      var n := |s|;
      var init, last := s[..n - 1], s[n - 1];
      SortedPrefix(s, n - 1, model);
      assert forall j | 0 <= j < |init| :: CompareRows(init[j], last, model) <= 0 by {
        forall j | 0 <= j < |init| ensures CompareRows(init[j], last, model) <= 0 {
          assert init[j] == s[j];
        }
      }
      if CompareRows(last, x, model) > 0 {
        InsertSorted(init, x, model);
        InsertedBefore(init, x, last, model);
        SortedSnoc(Insert(init, x, model), last, model);
      } else {
        forall i | 0 <= i < n ensures CompareRows(s[i], x, model) <= 0 {
          if i < n - 1 {
            assert s[i] == init[i];
            CompareRowsTransitive(s[i], last, x, model);
          }
        }
        SortedSnoc(s, x, model);
      }
    }
  }

  lemma {:induction false} StableSortSorted(s: seq<User>, model: SortModel)
    requires KeysConsistent(model)
    ensures Sorted(StableSort(s, model), model)
    decreases |s|
  {
    if s != [] {
      StableSortSorted(s[..|s| - 1], model);
      InsertSorted(StableSort(s[..|s| - 1], model), s[|s| - 1], model);
    }
  }

  lemma TiesSnoc(t: seq<User>, z: User, k: User, model: SortModel)
    ensures Ties(t + [z], k, model) == Ties(t, k, model) + (if CompareRows(z, k, model) == 0 then [z] else [])
  {
    assert (t + [z])[..|t|] == t;
  }

  lemma {:induction false} InsertTies(s: seq<User>, x: User, k: User, model: SortModel)
    requires KeysConsistent(model)
    ensures Ties(Insert(s, x, model), k, model)
         == Ties(s, k, model) + (if CompareRows(x, k, model) == 0 then [x] else [])
    decreases |s|
  {
    if s == [] {
      TiesSnoc([], x, k, model);
      assert [] + [x] == [x];
    } else {
      var init, last := s[..|s| - 1], s[|s| - 1];
      assert s == init + [last];
      if CompareRows(last, x, model) > 0 {
        InsertTies(init, x, k, model);
        TiesSnoc(Insert(init, x, model), last, k, model);
        TiesSnoc(init, last, k, model);
        if CompareRows(x, k, model) == 0 && CompareRows(last, k, model) == 0 {
          CompareRowsTie(last, k, x, model);
          CompareRowsAntisymmetric(k, x, model);
          assert false;
        }
      } else {
        TiesSnoc(s, x, k, model);
      }
    }
  }

  lemma {:induction false} StableSortTies(s: seq<User>, k: User, model: SortModel)
    requires KeysConsistent(model)
    ensures Ties(StableSort(s, model), k, model) == Ties(s, k, model)
    decreases |s|
  {
    if s != [] {
      var init, last := s[..|s| - 1], s[|s| - 1];
      StableSortTies(init, k, model);
      InsertTies(StableSort(init, model), last, k, model);
    }
  }

  /** Sorting a sequence that is already in order changes nothing. */
  lemma {:induction false} SortedFixpoint(s: seq<User>, model: SortModel)
    requires Sorted(s, model)
    ensures StableSort(s, model) == s
    decreases |s|
  {
    if s != [] {
      var n := |s|;
      var init := s[..n - 1];
      SortedPrefix(s, n - 1, model);
      SortedFixpoint(init, model);
      assert s == init + [s[n - 1]];
      if init != [] {
        assert init[|init| - 1] == s[n - 2];
      }
    }
  }

  /**
    `sortData` returns a permutation of its input; an empty model returns the input unchanged; for
    consistent keys the result is in comparator order, and the rows that tie with any row keep
    their relative order (stability).
  */
  lemma SortDataSpec(data: seq<User>, model: SortModel)
    ensures multiset(SortData(data, model)) == multiset(data)
    ensures |SortData(data, model)| == |data|
    ensures model == [] ==> SortData(data, model) == data
    ensures KeysConsistent(model) ==> Sorted(SortData(data, model), model)
    ensures KeysConsistent(model) ==>
              forall k :: Ties(SortData(data, model), k, model) == Ties(data, k, model)
  {
    if model != [] {
      StableSortMultiset(data, model);
      if KeysConsistent(model) {
        StableSortSorted(data, model);
        forall k ensures Ties(SortData(data, model), k, model) == Ties(data, k, model) {
          StableSortTies(data, k, model);
        }
      }
    }
    assert |multiset(SortData(data, model))| == |multiset(data)|;
  }

  /** Sorting twice by the same model is sorting once. */
  lemma SortDataIdempotent(data: seq<User>, model: SortModel)
    requires KeysConsistent(model)
    ensures SortData(SortData(data, model), model) == SortData(data, model)
  {
    if model != [] {
      StableSortSorted(data, model);
      SortedFixpoint(StableSort(data, model), model);
    }
  }

  // ===========================================================================
  // filterData
  // ===========================================================================

  /** The search test: some value of the row, rendered and lower-cased, contains the lower-cased query. */
  predicate SearchHit(row: User, query: string) {
    query == "" ||
    exists i | 0 <= i < |Values(row)| :: Includes(ToLower(Render(Values(row)[i])), ToLower(query))
  }

  predicate NumGreater(a: Option<int>, b: Option<int>) {
    a.Some? && b.Some? && a.value > b.value
  }

  /** The predicate of one filter entry applied to the row's value in that column. */
  predicate Matches(row: User, e: FilterEntry) {
    var v := Field(row, e.field);
    match e.kind
    case Contains => Includes(ToLower(Render(v)), ToLower(Render(e.value)))
    case Equals => v == e.value
    case StartsWith => IsPrefix(ToLower(Render(e.value)), ToLower(Render(v)))
    case EndsWith => IsSuffix(ToLower(Render(e.value)), ToLower(Render(v)))
    case GreaterThan => NumGreater(ToNumber(v), ToNumber(e.value))
    case LessThan => NumGreater(ToNumber(e.value), ToNumber(v))
  }

  predicate PassesAll(row: User, filters: FilterModel) {
    forall i | 0 <= i < |filters| :: Matches(row, filters[i])
  }

  /** A row survives `filterData` when it passes the search and every filter entry. */
  predicate Passes(row: User, filters: FilterModel, query: string) {
    SearchHit(row, query) && PassesAll(row, filters)
  }

  /** The search pass. */
  function SearchKeep(rows: seq<User>, query: string): seq<User> {
    if rows == [] then []
    else (if SearchHit(rows[0], query) then [rows[0]] else []) + SearchKeep(rows[1..], query)
  }

  /** The pass of one filter entry. */
  function EntryKeep(rows: seq<User>, e: FilterEntry): seq<User> {
    if rows == [] then []
    else (if Matches(rows[0], e) then [rows[0]] else []) + EntryKeep(rows[1..], e)
  }

  /** The rows passing every entry of `filters`, in their order. */
  function AllKeep(rows: seq<User>, filters: FilterModel): seq<User> {
    if rows == [] then []
    else (if PassesAll(rows[0], filters) then [rows[0]] else []) + AllKeep(rows[1..], filters)
  }

  /** The rows that survive `filterData`, in their original order. */
  function Survivors(rows: seq<User>, filters: FilterModel, query: string): seq<User> {
    if rows == [] then []
    else (if Passes(rows[0], filters, query) then [rows[0]] else []) + Survivors(rows[1..], filters, query)
  }

  /** `r` is `s` with some elements left out and the rest in their order. */
  predicate Subsequence<T(==)>(r: seq<T>, s: seq<T>)
    decreases |s|
  {
    r == [] || (s != [] && ((r[0] == s[0] && Subsequence(r[1..], s[1..])) || Subsequence(r, s[1..])))
  }

  lemma {:induction false} SearchKeepEmpty(rows: seq<User>)
    ensures SearchKeep(rows, "") == rows
  {
    if rows != [] {
      SearchKeepEmpty(rows[1..]);
    }
  }

  lemma {:induction false} AllKeepNone(rows: seq<User>)
    ensures AllKeep(rows, []) == rows
  {
    if rows != [] {
      AllKeepNone(rows[1..]);
    }
  }

  lemma PassesAllSnoc(x: User, filters: FilterModel, e: FilterEntry)
    ensures PassesAll(x, filters + [e]) <==> PassesAll(x, filters) && Matches(x, e)
  {
    var fs := filters + [e];
    if PassesAll(x, filters) && Matches(x, e) {
      forall i | 0 <= i < |fs| ensures Matches(x, fs[i]) {
        if i < |filters| { assert fs[i] == filters[i]; }
      }
    }
    if PassesAll(x, fs) {
      assert Matches(x, fs[|filters|]);
      forall i | 0 <= i < |filters| ensures Matches(x, filters[i]) {
        assert fs[i] == filters[i];
      }
    }
  }

  lemma {:induction false} AllKeepSnoc(rows: seq<User>, filters: FilterModel, e: FilterEntry)
    ensures AllKeep(rows, filters + [e]) == EntryKeep(AllKeep(rows, filters), e)
  {
    if rows != [] {
      var x, tail := rows[0], rows[1..];
      AllKeepSnoc(tail, filters, e);
      PassesAllSnoc(x, filters, e);
      var kept := AllKeep(rows, filters);
      if PassesAll(x, filters) {
        assert kept == [x] + AllKeep(tail, filters);
        assert kept[0] == x && kept[1..] == AllKeep(tail, filters);
        assert EntryKeep(kept, e) == (if Matches(x, e) then [x] else []) + EntryKeep(AllKeep(tail, filters), e);
      } else {
        assert kept == AllKeep(tail, filters);
      }
    }
  }

  lemma {:induction false} SurvivorsSplit(rows: seq<User>, filters: FilterModel, query: string)
    ensures Survivors(rows, filters, query) == AllKeep(SearchKeep(rows, query), filters)
  {
    if rows != [] {
      var x, tail := rows[0], rows[1..];
      SurvivorsSplit(tail, filters, query);
      var found := SearchKeep(rows, query);
      if SearchHit(x, query) {
        assert found == [x] + SearchKeep(tail, query);
        assert found[0] == x && found[1..] == SearchKeep(tail, query);
        assert AllKeep(found, filters) == (if PassesAll(x, filters) then [x] else []) + AllKeep(SearchKeep(tail, query), filters);
      } else {
        assert found == SearchKeep(tail, query);
        assert Survivors(rows, filters, query) == Survivors(tail, filters, query);
      }
    }
  }

  /**
    `filterData(data, filterModel, searchQuery)`: the search pass, then one pass per filter entry in
    the model's key order. The result is exactly the rows passing the search and every entry.
  */
  method FilterData(data: seq<User>, filters: FilterModel, query: string) returns (r: seq<User>)
    ensures r == Survivors(data, filters, query)
  {
    r := data;
    if query != "" {
      r := SearchKeep(r, query);
    }
    ghost var searched := SearchKeep(data, query);
    if query == "" {
      SearchKeepEmpty(data);
    }
    AllKeepNone(searched);
    var i := 0;
    while i < |filters|
      invariant 0 <= i <= |filters|
      invariant r == AllKeep(searched, filters[..i])
    {
      AllKeepSnoc(searched, filters[..i], filters[i]);
      assert filters[..i + 1] == filters[..i] + [filters[i]];
      r := EntryKeep(r, filters[i]);
      i := i + 1;
    }
    assert filters[..i] == filters;
    SurvivorsSplit(data, filters, query);
  }

  // ---------------------------------------------------------------------------
  // Meaning of the filter pass
  // ---------------------------------------------------------------------------

  /** A row survives exactly when it is in the input and passes the search and every entry. */
  lemma {:induction false} SurvivorsMembers(rows: seq<User>, filters: FilterModel, query: string, x: User)
    ensures x in Survivors(rows, filters, query) <==> x in rows && Passes(x, filters, query)
  {
    if rows != [] {
      SurvivorsMembers(rows[1..], filters, query, x);
      assert rows == [rows[0]] + rows[1..];
    }
  }

  /** Each row occurs in the result as often as in the input if it passes, and not at all otherwise. */
  lemma {:induction false} SurvivorsCount(rows: seq<User>, filters: FilterModel, query: string, x: User)
    ensures multiset(Survivors(rows, filters, query))[x]
         == if Passes(x, filters, query) then multiset(rows)[x] else 0
  {
    if rows != [] {
      SurvivorsCount(rows[1..], filters, query, x);
      assert rows == [rows[0]] + rows[1..];
    }
  }

  /** The result keeps the input's order: it is a subsequence, and no longer than the input. */
  lemma {:induction false} SurvivorsSubsequence(rows: seq<User>, filters: FilterModel, query: string)
    ensures Subsequence(Survivors(rows, filters, query), rows)
    ensures |Survivors(rows, filters, query)| <= |rows|
  {
    if rows != [] {
      var tail := rows[1..];
      SurvivorsSubsequence(tail, filters, query);
      var r := Survivors(rows, filters, query);
      var rest := Survivors(tail, filters, query);
      if Passes(rows[0], filters, query) {
        assert r == [rows[0]] + rest;
        assert r[0] == rows[0] && r[1..] == rest;
      } else {
        assert r == rest;
        assert r == [] || Subsequence(r, tail);
      }
    }
  }

  /** With an empty query and an empty filter model every row survives, in order. */
  lemma {:induction false} SurvivorsNoCriteria(rows: seq<User>)
    ensures Survivors(rows, [], "") == rows
  {
    if rows != [] {
      SurvivorsNoCriteria(rows[1..]);
    }
  }

  /** Which rows survive does not depend on the order of the input. */
  lemma SurvivorsPermutation(a: seq<User>, b: seq<User>, filters: FilterModel, query: string)
    requires multiset(a) == multiset(b)
    ensures multiset(Survivors(a, filters, query)) == multiset(Survivors(b, filters, query))
  {
    forall x ensures multiset(Survivors(a, filters, query))[x] == multiset(Survivors(b, filters, query))[x] {
      SurvivorsCount(a, filters, query, x);
      SurvivorsCount(b, filters, query, x);
    }
  }

  /** Filtering an ordered sequence leaves it ordered. */
  lemma {:induction false} SurvivorsSorted(rows: seq<User>, filters: FilterModel, query: string, model: SortModel)
    requires Sorted(rows, model)
    ensures Sorted(Survivors(rows, filters, query), model)
  {
    if rows != [] {
      var tail := rows[1..];
      assert Sorted(tail, model) by {
        forall i, j | 0 <= i < j < |tail| ensures CompareRows(tail[i], tail[j], model) <= 0 {
          assert tail[i] == rows[i + 1] && tail[j] == rows[j + 1];
        }
      }
      SurvivorsSorted(tail, filters, query, model);
      var rest := Survivors(tail, filters, query);
      if Passes(rows[0], filters, query) {
        var r := [rows[0]] + rest;
        forall i, j | 0 <= i < j < |r| ensures CompareRows(r[i], r[j], model) <= 0 {
          if i == 0 {
            SurvivorsMembers(tail, filters, query, r[j]);
            var m :| 0 <= m < |tail| && tail[m] == r[j];
            assert rows[m + 1] == r[j];
          } else {
            assert r[i] == rest[i - 1] && r[j] == rest[j - 1];
          }
        }
      }
    }
  }

  /** The text predicates ignore case: lower-casing the operand does not change the result. */
  lemma TextFiltersIgnoreCase(row: User, field: string, kind: FilterKind, operand: string)
    requires kind == Contains || kind == StartsWith || kind == EndsWith
    ensures Matches(row, FilterEntry(field, kind, Str(operand)))
        <==> Matches(row, FilterEntry(field, kind, Str(ToLower(operand))))
  {
    ToLowerIdempotent(operand);
  }

  /**
    `equals` is strict: a number never equals a string operand, not even its own rendering, while
    `contains` on that rendering holds.
  */
  lemma EqualsIsStrict(row: User, field: string)
    requires Field(row, field).Num?
    ensures !Matches(row, FilterEntry(field, Equals, Str(Render(Field(row, field)))))
    ensures Matches(row, FilterEntry(field, Contains, Str(Render(Field(row, field)))))
  {
    var t := ToLower(Render(Field(row, field)));
    assert OccursAt(t, t, 0);
  }

  /** The numeric comparisons fail when either side is not a number, and never both hold. */
  lemma NumericFiltersNeedNumbers(row: User, field: string, operand: Value)
    ensures ToNumber(Field(row, field)).None? || ToNumber(operand).None? ==>
              !Matches(row, FilterEntry(field, GreaterThan, operand)) &&
              !Matches(row, FilterEntry(field, LessThan, operand))
    ensures !(Matches(row, FilterEntry(field, GreaterThan, operand)) &&
              Matches(row, FilterEntry(field, LessThan, operand)))
  {
  }

  // ===========================================================================
  // paginateData
  // ===========================================================================

  /** How `Array.prototype.slice` resolves an index: negative counts from the end, then clamped to the length. */
  function ClampIndex(i: int, len: nat): (r: nat)
    ensures r <= len
  {
    if i < 0 then (if len + i < 0 then 0 else len + i)
    else if i > len then len
    else i
  }

  /** `s.slice(start, end)` */
  function Slice<T>(s: seq<T>, start: int, end: int): seq<T> {
    var a := ClampIndex(start, |s|);
    var b := ClampIndex(end, |s|);
    if a < b then s[a..b] else []
  }

  /** A slice, for any bounds, is a contiguous piece of the input, so it holds only input elements. */
  lemma SliceMembers<T>(s: seq<T>, start: int, end: int)
    ensures var r := Slice(s, start, end);
            && (exists a, b :: 0 <= a <= b <= |s| && r == s[a..b])
            && forall x :: x in r ==> x in s
  {
    var a := ClampIndex(start, |s|);
    var b := ClampIndex(end, |s|);
    if a < b {
      assert Slice(s, start, end) == s[a..b];
      forall x | x in s[a..b] ensures x in s {
        var k :| 0 <= k < b - a && s[a..b][k] == x;
        assert s[a + k] == x;
      }
    } else {
      assert Slice(s, start, end) == s[a..a];
    }
  }

  /** `paginateData(data, page, pageSize)` */
  function PaginateData<T>(data: seq<T>, page: int, pageSize: int): seq<T> {
    var start := (page - 1) * pageSize;
    Slice(data, start, start + pageSize)
  }

  /**
    For a page from 1 on, the page is the window `[(page-1)*pageSize, min(page*pageSize, |data|))`
    of the input, so it holds at most `pageSize` rows, and a page past the end is empty.
  */
  lemma PaginateWindow<T>(data: seq<T>, page: int, pageSize: int)
    requires page >= 1 && pageSize >= 0
    ensures var start := (page - 1) * pageSize;
            var r := PaginateData(data, page, pageSize);
            && (start < |data| ==> r == data[start..Min(page * pageSize, |data|)])
            && (start >= |data| ==> r == [])
            && |r| <= pageSize
  {
    var start := (page - 1) * pageSize;
    MulNonNegative(page - 1, pageSize);
    assert page * pageSize == start + pageSize by {
      MulDistributes(page - 1, pageSize);
    }
    SliceWindow(data, start, pageSize);
  }

  lemma SliceWindow<T>(data: seq<T>, start: int, size: int)
    requires start >= 0 && size >= 0
    ensures start < |data| ==> Slice(data, start, start + size) == data[start..Min(start + size, |data|)]
    ensures start >= |data| ==> Slice(data, start, start + size) == []
    ensures |Slice(data, start, start + size)| <= size
  {
  }
}
