/** The comparison itself, as `main` runs it once both inventories are
    loaded: case folding of the name sets, the first-occurrence display
    names, the three-way partition, the first-row lookups and the four
    sorted reports with their counts. */
module Reconcile {
  import opened Wrappers
  import opened Text
  import opened Names
  import opened Ordering
  import opened Ingest

  // ---------------------------------------------------------------------
  // Display names: the first title seen for each folded key.

  /** What one kept row offers the display map: its folded key and its
      title, or None. The Salesforce loop tests the key, the SharePoint loop
      tests the title; for stripped titles both tests agree. */
  function EntryOf(source: Source, caseSensitive: bool, row: Record): (e: Option<(string, string)>)
    ensures e.Some? <==> KeyOf(source, row).Some?
    ensures e.Some? ==> e.value.0 == FoldKey(caseSensitive, KeyOf(source, row).value) && e.value.1 != ""
    ensures e.Some? ==> e.value.1 == FileName(source, row)
  {
    match source
    case Salesforce =>
      var t := FileName(Salesforce, row);
      var k := FoldKey(caseSensitive, t);
      if k != "" then Some((k, t)) else None
    case SharePoint =>
      var n := FileName(SharePoint, row);
      if n != "" then Some((FoldKey(caseSensitive, n), n)) else None
  }

  function EntryFn(source: Source, caseSensitive: bool): Record -> Option<(string, string)> {
    row => EntryOf(source, caseSensitive, row)
  }

  /** Row `row` offers key `k`. */
  ghost predicate Offers(entryOf: Record -> Option<(string, string)>, row: Record, k: string) {
    entryOf(row).Some? && entryOf(row).value.0 == k
  }

  /** The display map after the rows `rows`: a key is inserted with its
      title unless it is already there. */
  function Display(entryOf: Record -> Option<(string, string)>, rows: seq<Record>): map<string, string>
  {
    if rows == [] then map[]
    else
      var d := Display(entryOf, rows[..|rows| - 1]);
      match entryOf(rows[|rows| - 1])
      case Some(e) => if e.0 in d then d else d[e.0 := e.1]
      case None => d
  }

  /** The `sf_display` / `sp_display` loop over the kept rows. */
  method BuildDisplay(entryOf: Record -> Option<(string, string)>, rows: seq<Record>) returns (display: map<string, string>)
    ensures display == Display(entryOf, rows)
  {
    display := map[];
    for i := 0 to |rows|
      invariant display == Display(entryOf, rows[..i])
    {
      assert rows[..i + 1][..i] == rows[..i];
      var e := entryOf(rows[i]);
      if e.Some? && e.value.0 !in display {
        display := display[e.value.0 := e.value.1];
      }
    }
    assert rows[..|rows|] == rows;
  }

  lemma DisplayStep(entryOf: Record -> Option<(string, string)>, rows: seq<Record>, row: Record)
    ensures Display(entryOf, rows + [row]) ==
              match entryOf(row)
              case Some(e) => if e.0 in Display(entryOf, rows) then Display(entryOf, rows) else Display(entryOf, rows)[e.0 := e.1]
              case None => Display(entryOf, rows)
  {
    assert (rows + [row])[..|rows|] == rows;
  }

  /** The display map holds, for each key, the title of the FIRST row that
      offers that key, and it holds exactly the keys some row offers. */
  lemma {:induction false} DisplayFirstOccurrence(entryOf: Record -> Option<(string, string)>, rows: seq<Record>, k: string)
    ensures k in Display(entryOf, rows) <==> exists j :: 0 <= j < |rows| && Offers(entryOf, rows[j], k)
    ensures k in Display(entryOf, rows) ==>
              exists j :: 0 <= j < |rows| && Offers(entryOf, rows[j], k)
                && (forall l :: 0 <= l < j ==> !Offers(entryOf, rows[l], k))
                && Display(entryOf, rows)[k] == entryOf(rows[j]).value.1
  {
    if rows != [] {
      var init, last := rows[..|rows| - 1], rows[|rows| - 1];
      assert rows == init + [last];
      DisplayFirstOccurrence(entryOf, init, k);
      DisplayStep(entryOf, init, last);
      if k in Display(entryOf, init) {
        var j :| 0 <= j < |init| && Offers(entryOf, init[j], k)
                 && (forall l :: 0 <= l < j ==> !Offers(entryOf, init[l], k))
                 && Display(entryOf, init)[k] == entryOf(init[j]).value.1;
        assert rows[j] == init[j];
        assert forall l :: 0 <= l < j ==> rows[l] == init[l];
      } else {
        assert forall l :: 0 <= l < |init| ==> rows[l] == init[l] && !Offers(entryOf, init[l], k);
        if exists j :: 0 <= j < |rows| && Offers(entryOf, rows[j], k) {
          var j :| 0 <= j < |rows| && Offers(entryOf, rows[j], k);
          assert j == |init|;
        }
      }
    }
  }

  /** Later rows never overwrite a display name. */
  lemma {:induction false} DisplayStable(entryOf: Record -> Option<(string, string)>, rows: seq<Record>, more: seq<Record>, k: string)
    requires k in Display(entryOf, rows)
    ensures k in Display(entryOf, rows + more) && Display(entryOf, rows + more)[k] == Display(entryOf, rows)[k]
    decreases |more|
  {
    if more == [] {
      assert rows + more == rows;
    } else {
      var init := more[..|more| - 1];
      assert rows + more == (rows + init) + [more[|more| - 1]];
      DisplayStable(entryOf, rows, init, k);
      DisplayStep(entryOf, rows + init, more[|more| - 1]);
    }
  }

  /** `entryOf` offers, for every row `keyOf` keeps, the folded key of that
      row's name and a non-empty display name, and offers nothing for the
      rows `keyOf` skips. */
  ghost predicate Agree(entryOf: Record -> Option<(string, string)>, keyOf: Record -> Option<string>, caseSensitive: bool) {
    forall row ::
      && (entryOf(row).Some? <==> keyOf(row).Some?)
      && (entryOf(row).Some? ==> entryOf(row).value.0 == FoldKey(caseSensitive, keyOf(row).value) && entryOf(row).value.1 != "")
  }

  lemma EntryAgrees(source: Source, caseSensitive: bool)
    ensures Agree(EntryFn(source, caseSensitive), KeyFn(source), caseSensitive)
  {
    forall row
      ensures EntryFn(source, caseSensitive)(row) == EntryOf(source, caseSensitive, row)
      ensures KeyFn(source)(row) == KeyOf(source, row)
    {
    }
  }

  /** Built from the kept rows, the display map has exactly the folded name
      set as its keys, so `display.get(k, k)` never falls back to the key. */
  lemma {:induction false} DisplayKeys(entryOf: Record -> Option<(string, string)>, keyOf: Record -> Option<string>,
                                       caseSensitive: bool, rs: seq<Record>)
    requires Agree(entryOf, keyOf, caseSensitive)
    ensures Display(entryOf, Kept(keyOf, rs)).Keys == FoldNames(caseSensitive, NameSet(keyOf, rs))
  {
    if rs == [] {
      assert FoldNames(caseSensitive, {}) == {};
    } else {
      var init, row := rs[..|rs| - 1], rs[|rs| - 1];
      assert rs == init + [row];
      DisplayKeys(entryOf, keyOf, caseSensitive, init);
      DisplayKeysStep(entryOf, keyOf, caseSensitive, init, row);
    }
  }

  lemma DisplayKeysStep(entryOf: Record -> Option<(string, string)>, keyOf: Record -> Option<string>,
                        caseSensitive: bool, init: seq<Record>, row: Record)
    requires Display(entryOf, Kept(keyOf, init)).Keys == FoldNames(caseSensitive, NameSet(keyOf, init))
    requires entryOf(row).Some? <==> keyOf(row).Some?
    requires entryOf(row).Some? ==> entryOf(row).value.0 == FoldKey(caseSensitive, keyOf(row).value)
    ensures Display(entryOf, Kept(keyOf, init + [row])).Keys == FoldNames(caseSensitive, NameSet(keyOf, init + [row]))
  {
    LoadStep(keyOf, init, row);
    var kept, names := Kept(keyOf, init), NameSet(keyOf, init);
    var d := Display(entryOf, kept);
    DisplayStep(entryOf, kept, row);
    if keyOf(row).Some? {
      var n := keyOf(row).value;
      var e := entryOf(row);
      assert Kept(keyOf, init + [row]) == kept + [row];
      assert Display(entryOf, kept + [row]).Keys == d.Keys + {e.value.0};
      assert NameSet(keyOf, init + [row]) == names + {n};
      FoldNamesAdd(caseSensitive, names, n);
    } else {
      assert Kept(keyOf, init + [row]) == kept;
      assert NameSet(keyOf, init + [row]) == names;
    }
  }

  /** Every display name is the non-empty title of some row. */
  lemma {:induction false} DisplayNamesNonEmpty(entryOf: Record -> Option<(string, string)>, rows: seq<Record>)
    requires forall row :: entryOf(row).Some? ==> entryOf(row).value.1 != ""
    ensures forall k :: k in Display(entryOf, rows) ==> Display(entryOf, rows)[k] != ""
  {
    if rows != [] {
      var init, row := rows[..|rows| - 1], rows[|rows| - 1];
      assert rows == init + [row];
      DisplayNamesNonEmpty(entryOf, init);
      DisplayStep(entryOf, init, row);
    }
  }

  // ---------------------------------------------------------------------
  // The three-way partition of the folded name sets.

  datatype Partition = Partition(inBoth: set<string>, onlySalesforce: set<string>, onlySharePoint: set<string>)

  /** `in_both = sf & sp`, `only_salesforce = sf - sp`, `only_sharepoint = sp - sf`. */
  function Split(sf: set<string>, sp: set<string>): (p: Partition)
    ensures p.inBoth !! p.onlySalesforce && p.inBoth !! p.onlySharePoint && p.onlySalesforce !! p.onlySharePoint
    ensures p.inBoth + p.onlySalesforce == sf && p.inBoth + p.onlySharePoint == sp
    ensures p.inBoth + p.onlySalesforce + p.onlySharePoint == sf + sp
  {
    Partition(sf * sp, sf - sp, sp - sf)
  }

  /** Swapping the two inventories keeps `in_both` and swaps the two "only" sets. */
  lemma SplitSymmetric(sf: set<string>, sp: set<string>)
    ensures Split(sp, sf) == Partition(Split(sf, sp).inBoth, Split(sf, sp).onlySharePoint, Split(sf, sp).onlySalesforce)
  {
    assert sf * sp == sp * sf;
  }

  /** The reported counts add up. */
  lemma SplitCounts(sf: set<string>, sp: set<string>)
    ensures |sf| == |Split(sf, sp).inBoth| + |Split(sf, sp).onlySalesforce|
    ensures |sp| == |Split(sf, sp).inBoth| + |Split(sf, sp).onlySharePoint|
    ensures |sf + sp| == |Split(sf, sp).inBoth| + |Split(sf, sp).onlySalesforce| + |Split(sf, sp).onlySharePoint|
  {
    var p := Split(sf, sp);
    assert |p.inBoth + p.onlySalesforce| == |p.inBoth| + |p.onlySalesforce|;
    assert |p.inBoth + p.onlySharePoint| == |p.inBoth| + |p.onlySharePoint|;
    assert |p.inBoth + p.onlySalesforce + p.onlySharePoint| == |p.inBoth + p.onlySalesforce| + |p.onlySharePoint|;
  }

  // ---------------------------------------------------------------------
  // `first_sf_row` / `first_sp_row`.

  /** Group number `j` of `byName` has a folded key equal to `key` and a row. */
  ghost predicate MatchesAt(caseSensitive: bool, byName: Grouping, key: string, j: int) {
    && 0 <= j < |byName.order|
    && byName.order[j] in byName.groups
    && Fold(caseSensitive, byName.order[j]) == key
    && byName.groups[byName.order[j]] != []
  }

  /** The scan over `by_name.items()` from position `i` on. */
  function FirstRowFrom(caseSensitive: bool, byName: Grouping, key: string, i: nat): Option<Record>
    requires byName.Valid() && i <= |byName.order|
    decreases |byName.order| - i
  {
    if i == |byName.order| then None
    else
      var k := byName.order[i];
      if Fold(caseSensitive, k) == key && byName.groups[k] != [] then Some(byName.groups[k][0])
      else FirstRowFrom(caseSensitive, byName, key, i + 1)
  }

  function FirstRowOf(caseSensitive: bool, byName: Grouping, key: string): Option<Record>
    requires byName.Valid()
  {
    FirstRowFrom(caseSensitive, byName, key, 0)
  }

  /** The lookup returns the first row of the first group (in insertion
      order) whose folded key is `key`, and None when there is no such group. */
  lemma {:induction false} FirstRowFromSpec(caseSensitive: bool, byName: Grouping, key: string, i: nat)
    requires byName.Valid() && i <= |byName.order|
    ensures FirstRowFrom(caseSensitive, byName, key, i).None? <==>
              forall j :: i <= j < |byName.order| ==> !MatchesAt(caseSensitive, byName, key, j)
    ensures FirstRowFrom(caseSensitive, byName, key, i).Some? ==>
              exists j :: i <= j < |byName.order| && MatchesAt(caseSensitive, byName, key, j)
                && (forall l :: i <= l < j ==> !MatchesAt(caseSensitive, byName, key, l))
                && FirstRowFrom(caseSensitive, byName, key, i).value == byName.groups[byName.order[j]][0]
    decreases |byName.order| - i
  {
    if i < |byName.order| {
      var k := byName.order[i];
      assert k in Elements(byName.order);
      if Fold(caseSensitive, k) == key && byName.groups[k] != [] {
        assert MatchesAt(caseSensitive, byName, key, i);
      } else {
        assert !MatchesAt(caseSensitive, byName, key, i);
        FirstRowFromSpec(caseSensitive, byName, key, i + 1);
        var r := FirstRowFrom(caseSensitive, byName, key, i + 1);
        if r.Some? {
          var j :| i + 1 <= j < |byName.order| && MatchesAt(caseSensitive, byName, key, j)
                   && (forall l :: i + 1 <= l < j ==> !MatchesAt(caseSensitive, byName, key, l))
                   && r.value == byName.groups[byName.order[j]][0];
          assert forall l :: i <= l < j ==> !MatchesAt(caseSensitive, byName, key, l);
        }
      }
    }
  }

  /** `first_sf_row(key)` / `first_sp_row(key)`: a scan with an early return. */
  method FirstRow(caseSensitive: bool, byName: Grouping, key: string) returns (r: Option<Record>)
    requires byName.Valid()
    ensures r == FirstRowOf(caseSensitive, byName, key)
  {
    for i := 0 to |byName.order|
      invariant FirstRowFrom(caseSensitive, byName, key, i) == FirstRowOf(caseSensitive, byName, key)
    {
      var k := byName.order[i];
      assert k in Elements(byName.order);
      var rows := byName.groups[k];
      if Fold(caseSensitive, k) == key && rows != [] {
        return Some(rows[0]);
      }
    }
    return None;
  }

  /** Python's truth value of the looked-up row: present and not an empty dict. */
  predicate Truthy(r: Option<Record>) {
    r.Some? && r.value != map[]
  }

  /** An empty dict has no file name, so both loaders skip it. */
  lemma EmptyRowSkipped(source: Source)
    ensures KeyOf(source, map[]).None?
  {
    StripStripped("");
  }

  /** A row a loader keeps carries its file-name column, so it is never an
      empty dict. */
  lemma KeptRowNonEmpty(source: Source, row: Record)
    requires KeyOf(source, row).Some?
    ensures row != map[]
  {
    EmptyRowSkipped(source);
  }

  /** For every name of the loaded name set, the lookup of its folded key
      finds a row, and that row is an input row whose own key folds to the
      same key (names are stripped, as every loader guarantees). */
  lemma FirstRowMatches(keyOf: Record -> Option<string>, caseSensitive: bool, rs: seq<Record>, n: string)
    requires n in NameSet(keyOf, rs)
    requires forall m :: m in NameSet(keyOf, rs) ==> IsStripped(m)
    ensures ByName(keyOf, rs).Valid()
    ensures FirstRowOf(caseSensitive, ByName(keyOf, rs), FoldKey(caseSensitive, n)).Some?
    ensures var r := FirstRowOf(caseSensitive, ByName(keyOf, rs), FoldKey(caseSensitive, n)).value;
              r in rs && keyOf(r).Some? && FoldKey(caseSensitive, keyOf(r).value) == FoldKey(caseSensitive, n)
  {
    var g := ByName(keyOf, rs);
    var key := FoldKey(caseSensitive, n);
    ByNameValid(keyOf, rs);
    NameMatches(keyOf, caseSensitive, rs, n);
    FirstRowFromSpec(caseSensitive, g, key, 0);
    var j :| 0 <= j < |g.order| && MatchesAt(caseSensitive, g, key, j)
             && FirstRowOf(caseSensitive, g, key).value == g.groups[g.order[j]][0];
    MatchedRow(keyOf, caseSensitive, rs, key, j);
  }

  /** The group of a loaded name matches that name's folded key. */
  lemma NameMatches(keyOf: Record -> Option<string>, caseSensitive: bool, rs: seq<Record>, n: string)
    requires n in NameSet(keyOf, rs) && IsStripped(n)
    requires ByName(keyOf, rs).Valid()
    ensures exists j :: MatchesAt(caseSensitive, ByName(keyOf, rs), FoldKey(caseSensitive, n), j)
  {
    var g := ByName(keyOf, rs);
    KeyOrderLists(keyOf, rs);
    assert n in Elements(g.order);
    var j :| 0 <= j < |g.order| && g.order[j] == n;
    FoldOfNormalized(caseSensitive, n);
    RowsNamedNonEmpty(keyOf, rs, n);
    assert MatchesAt(caseSensitive, g, FoldKey(caseSensitive, n), j);
  }

  /** The first row of a matching group is an input row whose name folds to the key. */
  lemma MatchedRow(keyOf: Record -> Option<string>, caseSensitive: bool, rs: seq<Record>, key: string, j: int)
    requires forall m :: m in NameSet(keyOf, rs) ==> IsStripped(m)
    requires MatchesAt(caseSensitive, ByName(keyOf, rs), key, j)
    ensures var r := ByName(keyOf, rs).groups[ByName(keyOf, rs).order[j]][0];
              r in rs && keyOf(r).Some? && FoldKey(caseSensitive, keyOf(r).value) == key
  {
    var g := ByName(keyOf, rs);
    var m := g.order[j];
    var r := g.groups[m][0];
    RowsNamedExactly(keyOf, rs, m, r);
    FoldOfNormalized(caseSensitive, m);
  }

  /** For every key of the folded name set the lookup finds a non-empty
      row, so the `{"Name": display}` fallback of the reports is never
      taken, and that row is an input row whose own key folds to `key`. */
  lemma FirstRowFound(source: Source, caseSensitive: bool, rs: seq<Record>, key: string)
    requires key in Keys(source, caseSensitive, rs)
    ensures ByName(KeyFn(source), rs).Valid()
    ensures Truthy(FirstRowOf(caseSensitive, ByName(KeyFn(source), rs), key))
    ensures var r := FirstRowOf(caseSensitive, ByName(KeyFn(source), rs), key).value;
              r in rs && KeyOf(source, r).Some? && FoldKey(caseSensitive, KeyOf(source, r).value) == key
  {
    var keyOf := KeyFn(source);
    NamesNonEmpty(source, rs);
    var n :| n in NameSet(keyOf, rs) && FoldKey(caseSensitive, n) == key;
    FirstRowMatches(keyOf, caseSensitive, rs, n);
    var r := FirstRowOf(caseSensitive, ByName(keyOf, rs), key).value;
    assert keyOf(r) == KeyOf(source, r);
    KeptRowNonEmpty(source, r);
  }

  // ---------------------------------------------------------------------
  // The reports.

  /** `display.get(k, k)`. */
  function DisplayName(display: map<string, string>, k: string): string {
    if k in display then display[k] else k
  }

  /** One row of an "only" report: the looked-up row with its file-name
      column replaced by the display name, or a row holding only that column. */
  function ReportRow(column: string, r: Option<Record>, name: string): (out: Record)
    ensures column in out && out[column] == name
    ensures Truthy(r) ==> out.Keys == r.value.Keys + {column}
    ensures Truthy(r) ==> forall c :: c in r.value && c != column ==> out[c] == r.value[c]
    ensures !Truthy(r) ==> out.Keys == {column}
  {
    if Truthy(r) then r.value[column := name] else map[column := name]
  }

  /** The rows of an "only" report: for each key in ascending order, the
      report row built from its first row and its display name. */
  ghost function OnlyRows(column: string, caseSensitive: bool, keys: set<string>, display: map<string, string>, byName: Grouping)
    : seq<Record>
    requires byName.Valid()
  {
    seq(|keys|, i requires 0 <= i < |keys| =>
      ReportRow(column, FirstRowOf(caseSensitive, byName, SortedKeys(keys)[i]), DisplayName(display, SortedKeys(keys)[i])))
  }

  /** The `only_sp_rows` / `only_sf_rows` loop: one row per key, in
      ascending key order. */
  method OnlyReport(column: string, caseSensitive: bool, keys: set<string>, display: map<string, string>, byName: Grouping)
    returns (out: seq<Record>)
    requires byName.Valid()
    ensures |out| == |keys|
    ensures forall i :: 0 <= i < |out| ==>
              out[i] == ReportRow(column, FirstRowOf(caseSensitive, byName, SortedKeys(keys)[i]),
                                  DisplayName(display, SortedKeys(keys)[i]))
    ensures out == OnlyRows(column, caseSensitive, keys, display, byName)
  {
    var sorted := SortKeys(keys);
    out := [];
    for i := 0 to |sorted|
      invariant |out| == i
      invariant forall j :: 0 <= j < i ==>
                  out[j] == ReportRow(column, FirstRowOf(caseSensitive, byName, sorted[j]), DisplayName(display, sorted[j]))
    {
      var k := sorted[i];
      var name := if k in display then display[k] else k;
      var r := FirstRow(caseSensitive, byName, k);
      if r.Some? && r.value != map[] {
        out := out + [r.value[column := name]];
      } else {
        out := out + [map[column := name]];
      }
    }
  }

  /** The rows a lookup finds for the keys `ks`, in order, skipping misses. */
  function Found(caseSensitive: bool, byName: Grouping, ks: seq<string>): seq<Record>
    requires byName.Valid()
  {
    if ks == [] then []
    else
      var r := FirstRowOf(caseSensitive, byName, ks[|ks| - 1]);
      Found(caseSensitive, byName, ks[..|ks| - 1]) + (if Truthy(r) then [r.value] else [])
  }

  /** At most one row per key, and exactly one when every lookup succeeds. */
  lemma {:induction false} FoundLength(caseSensitive: bool, byName: Grouping, ks: seq<string>)
    requires byName.Valid()
    ensures |Found(caseSensitive, byName, ks)| <= |ks|
  {
    if ks != [] {
      FoundLength(caseSensitive, byName, ks[..|ks| - 1]);
    }
  }

  /** When every lookup succeeds, row `i` is the row found for key `i`. */
  lemma {:induction false} FoundAll(caseSensitive: bool, byName: Grouping, ks: seq<string>)
    requires byName.Valid()
    requires forall i :: 0 <= i < |ks| ==> Truthy(FirstRowOf(caseSensitive, byName, ks[i]))
    ensures |Found(caseSensitive, byName, ks)| == |ks|
    ensures forall i :: 0 <= i < |ks| ==> Some(Found(caseSensitive, byName, ks)[i]) == FirstRowOf(caseSensitive, byName, ks[i])
  {
    if ks != [] {
      var init := ks[..|ks| - 1];
      assert forall i :: 0 <= i < |init| ==> init[i] == ks[i];
      FoundAll(caseSensitive, byName, init);
    }
  }

  /** The `both_sf_rows` / `both_sp_rows` loop over the sorted common keys. */
  method BothReport(caseSensitive: bool, keys: set<string>, sfByName: Grouping, spByName: Grouping)
    returns (sfRows: seq<Record>, spRows: seq<Record>)
    requires sfByName.Valid() && spByName.Valid()
    ensures sfRows == Found(caseSensitive, sfByName, SortedKeys(keys))
    ensures spRows == Found(caseSensitive, spByName, SortedKeys(keys))
  {
    var sorted := SortKeys(keys);
    sfRows, spRows := [], [];
    for i := 0 to |sorted|
      invariant sfRows == Found(caseSensitive, sfByName, sorted[..i])
      invariant spRows == Found(caseSensitive, spByName, sorted[..i])
    {
      assert sorted[..i + 1][..i] == sorted[..i];
      var k := sorted[i];
      var r := FirstRow(caseSensitive, sfByName, k);
      if r.Some? && r.value != map[] {
        sfRows := sfRows + [r.value];
      }
      r := FirstRow(caseSensitive, spByName, k);
      if r.Some? && r.value != map[] {
        spRows := spRows + [r.value];
      }
    }
    assert sorted[..|sorted|] == sorted;
  }

  // ---------------------------------------------------------------------
  // The whole comparison.

  /** `sf_names` / `sp_names` after case folding. */
  function Keys(source: Source, caseSensitive: bool, reader: seq<Record>): set<string> {
    FoldNames(caseSensitive, NameSet(KeyFn(source), reader))
  }

  /** `sf_display` / `sp_display` as `main` builds them from the loaded rows. */
  function DisplayMap(source: Source, caseSensitive: bool, reader: seq<Record>): map<string, string> {
    Display(EntryFn(source, caseSensitive), Kept(KeyFn(source), reader))
  }

  /** `keyOf` keeps `row` and its name folds to `key`. */
  ghost predicate FoldsTo(keyOf: Record -> Option<string>, caseSensitive: bool, row: Record, key: string) {
    keyOf(row).Some? && FoldKey(caseSensitive, keyOf(row).value) == key
  }

  /** `rs[j]` is the first row of `rs` whose name folds to `key`. */
  ghost predicate FirstFor(keyOf: Record -> Option<string>, caseSensitive: bool, rs: seq<Record>, key: string, j: int) {
    && 0 <= j < |rs|
    && FoldsTo(keyOf, caseSensitive, rs[j], key)
    && forall l :: 0 <= l < j ==> !FoldsTo(keyOf, caseSensitive, rs[l], key)
  }

  /** Cutting `rs` around position `j`. */
  lemma SplitAt(rs: seq<Record>, j: int)
    requires 0 <= j < |rs|
    ensures rs[..j + 1] == rs[..j] + [rs[j]]
    ensures rs == rs[..j + 1] + rs[j + 1..]
  {
  }

  /** `r` is the first row of `reader` that the loader keeps and whose name
      folds to `key`. */
  ghost predicate RowFor(source: Source, caseSensitive: bool, reader: seq<Record>, key: string, r: Record) {
    exists j :: FirstFor(KeyFn(source), caseSensitive, reader, key, j) && r == reader[j]
  }

  /** `out` is that first row with its file-name column set to the row's own
      (non-empty) file name. */
  ghost predicate RenamedRowFor(source: Source, caseSensitive: bool, reader: seq<Record>, key: string, column: string, out: Record) {
    exists j :: FirstFor(KeyFn(source), caseSensitive, reader, key, j)
      && FileName(source, reader[j]) != ""
      && out == reader[j][column := FileName(source, reader[j])]
  }

  /** A key that some row folds to has a first such row. */
  lemma {:induction false} FirstForExists(keyOf: Record -> Option<string>, caseSensitive: bool, rs: seq<Record>, key: string, i: int)
    requires 0 <= i < |rs| && FoldsTo(keyOf, caseSensitive, rs[i], key)
    ensures exists j :: FirstFor(keyOf, caseSensitive, rs, key, j)
    decreases i
  {
    if forall l :: 0 <= l < i ==> !FoldsTo(keyOf, caseSensitive, rs[l], key) {
      assert FirstFor(keyOf, caseSensitive, rs, key, i);
    } else {
      var l :| 0 <= l < i && FoldsTo(keyOf, caseSensitive, rs[l], key);
      FirstForExists(keyOf, caseSensitive, rs, key, l);
    }
  }

  /** Every key of the folded name set has a first row that folds to it. */
  lemma FirstForKey(keyOf: Record -> Option<string>, caseSensitive: bool, rs: seq<Record>, key: string)
    requires key in FoldNames(caseSensitive, NameSet(keyOf, rs))
    ensures exists j :: FirstFor(keyOf, caseSensitive, rs, key, j)
  {
    var n :| n in NameSet(keyOf, rs) && FoldKey(caseSensitive, n) == key;
    NameSetFromRows(keyOf, rs, n);
    var i :| 0 <= i < |rs| && keyOf(rs[i]) == Some(n);
    FirstForExists(keyOf, caseSensitive, rs, key, i);
  }

  /** No name loaded from the rows before the first row of `key` folds to `key`. */
  lemma NoKeyBefore(keyOf: Record -> Option<string>, caseSensitive: bool, rs: seq<Record>, key: string, j: int)
    requires FirstFor(keyOf, caseSensitive, rs, key, j)
    ensures forall n :: n in NameSet(keyOf, rs[..j]) ==> FoldKey(caseSensitive, n) != key
  {
    forall n | n in NameSet(keyOf, rs[..j]) ensures FoldKey(caseSensitive, n) != key {
      NameSetFromRows(keyOf, rs[..j], n);
      var i :| 0 <= i < j && keyOf(rs[..j][i]) == Some(n);
      assert !FoldsTo(keyOf, caseSensitive, rs[i], key);
    }
  }

  /** The key `m` of the first row of `key` enters `by_name` right after the
      keys of the rows before it, and its group starts with that row. */
  lemma FirstGroup(keyOf: Record -> Option<string>, caseSensitive: bool, rs: seq<Record>, key: string, j: int)
    requires FirstFor(keyOf, caseSensitive, rs, key, j)
    ensures var g, m, p := ByName(keyOf, rs), keyOf(rs[j]).value, |KeyOrder(keyOf, rs[..j])|;
      && p < |g.order| && g.order[p] == m
      && KeyOrder(keyOf, rs[..j]) <= g.order
      && m in g.groups && g.groups[m] != [] && g.groups[m][0] == rs[j]
  {
    var row, m := rs[j], keyOf(rs[j]).value;
    var pre, rest := rs[..j], rs[j + 1..];
    SplitAt(rs, j);
    NoKeyBefore(keyOf, caseSensitive, rs, key, j);
    KeyOrderLists(keyOf, pre);
    assert m !in NameSet(keyOf, pre);
    LoadStep(keyOf, pre, row);
    KeyOrderGrows(keyOf, rs[..j + 1], rest);
    KeptAppend(keyOf, rs[..j + 1], rest, m);
    RowsNamedStep(keyOf, pre, row, m);
    RowsNamedNonEmpty(keyOf, pre, m);
    NameSetFromRows(keyOf, rs, m);
    assert RowsNamed(keyOf, rs, m) == [row] + RowsNamed(keyOf, rest, m);
  }

  /** The lookup stops at the first matching group. */
  lemma FirstMatch(caseSensitive: bool, g: Grouping, key: string, p: int)
    requires g.Valid()
    requires MatchesAt(caseSensitive, g, key, p)
    requires forall q :: 0 <= q < p ==> !MatchesAt(caseSensitive, g, key, q)
    ensures FirstRowOf(caseSensitive, g, key) == Some(g.groups[g.order[p]][0])
  {
    FirstRowFromSpec(caseSensitive, g, key, 0);
    var j0 :| 0 <= j0 < |g.order| && MatchesAt(caseSensitive, g, key, j0)
              && (forall l :: 0 <= l < j0 ==> !MatchesAt(caseSensitive, g, key, l))
              && FirstRowOf(caseSensitive, g, key).value == g.groups[g.order[j0]][0];
    assert j0 == p;
  }

  /** No group inserted before the first row of `key` was read matches `key`. */
  lemma NoEarlierMatch(keyOf: Record -> Option<string>, caseSensitive: bool, rs: seq<Record>, key: string, j: int)
    requires forall m :: m in NameSet(keyOf, rs) ==> IsStripped(m)
    requires FirstFor(keyOf, caseSensitive, rs, key, j)
    requires KeyOrder(keyOf, rs[..j]) <= ByName(keyOf, rs).order
    ensures forall q :: 0 <= q < |KeyOrder(keyOf, rs[..j])| ==> !MatchesAt(caseSensitive, ByName(keyOf, rs), key, q)
  {
    var g, pre := ByName(keyOf, rs), rs[..j];
    NoKeyBefore(keyOf, caseSensitive, rs, key, j);
    KeyOrderLists(keyOf, pre);
    forall q | 0 <= q < |KeyOrder(keyOf, pre)| ensures !MatchesAt(caseSensitive, g, key, q) {
      var n := g.order[q];
      assert n == KeyOrder(keyOf, pre)[q];
      assert n in Elements(KeyOrder(keyOf, pre));
      KeyOrderLists(keyOf, rs);
      assert n in Elements(g.order);
      FoldOfNormalized(caseSensitive, n);
    }
  }

  /** The lookup of `key` returns the first row of `rs` whose name folds to
      `key`: the earliest-inserted matching group of `by_name` is the one
      whose key appeared first, and its first row is that row. */
  lemma FirstRowIsFirst(keyOf: Record -> Option<string>, caseSensitive: bool, rs: seq<Record>, key: string, j: int)
    requires forall m :: m in NameSet(keyOf, rs) ==> IsStripped(m)
    requires FirstFor(keyOf, caseSensitive, rs, key, j)
    ensures ByName(keyOf, rs).Valid()
    ensures FirstRowOf(caseSensitive, ByName(keyOf, rs), key) == Some(rs[j])
  {
    var g, m, p := ByName(keyOf, rs), keyOf(rs[j]).value, |KeyOrder(keyOf, rs[..j])|;
    ByNameValid(keyOf, rs);
    FirstGroup(keyOf, caseSensitive, rs, key, j);
    NameSetFromRows(keyOf, rs, m);
    FoldOfNormalized(caseSensitive, m);
    assert MatchesAt(caseSensitive, g, key, p);
    NoEarlierMatch(keyOf, caseSensitive, rs, key, j);
    FirstMatch(caseSensitive, g, key, p);
  }

  /** The display name of `key` is the title the first row of `key` offers. */
  lemma DisplayIsFirst(entryOf: Record -> Option<(string, string)>, keyOf: Record -> Option<string>,
                       caseSensitive: bool, rs: seq<Record>, key: string, j: int)
    requires Agree(entryOf, keyOf, caseSensitive)
    requires FirstFor(keyOf, caseSensitive, rs, key, j)
    ensures key in Display(entryOf, Kept(keyOf, rs))
    ensures Display(entryOf, Kept(keyOf, rs))[key] == entryOf(rs[j]).value.1
  {
    var row := rs[j];
    var pre, rest := rs[..j], rs[j + 1..];
    SplitAt(rs, j);
    DisplayKeys(entryOf, keyOf, caseSensitive, pre);
    NoKeyBefore(keyOf, caseSensitive, rs, key, j);
    var d := Display(entryOf, Kept(keyOf, pre));
    assert key !in d;
    LoadStep(keyOf, pre, row);
    DisplayStep(entryOf, Kept(keyOf, pre), row);
    assert Display(entryOf, Kept(keyOf, pre + [row])) == d[key := entryOf(row).value.1];
    KeptAppend(keyOf, rs[..j + 1], rest, key);
    DisplayStable(entryOf, Kept(keyOf, rs[..j + 1]), Kept(keyOf, rest), key);
  }

  /** The counts of the summary. */
  datatype Counts = Counts(salesforce: nat, sharePoint: nat, inBoth: nat, onlySharePoint: nat, onlySalesforce: nat)

  /** The four reports and the counts. */
  datatype Comparison = Comparison(
    onlySharePointRows: seq<Record>,
    onlySalesforceRows: seq<Record>,
    bothSalesforceRows: seq<Record>,
    bothSharePointRows: seq<Record>,
    counts: Counts)

  /** What `main` produces from the two readers: the four reports and the
      counts, key by key in ascending order. */
  ghost function Expected(caseSensitive: bool, sfReader: seq<Record>, spReader: seq<Record>): Comparison
  {
    ByNameValid(KeyFn(Salesforce), sfReader);
    ByNameValid(KeyFn(SharePoint), spReader);
    var sfByName, spByName := ByName(KeyFn(Salesforce), sfReader), ByName(KeyFn(SharePoint), spReader);
    var p := Split(Keys(Salesforce, caseSensitive, sfReader), Keys(SharePoint, caseSensitive, spReader));
    Comparison(
      OnlyRows(SharePointFileColumn, caseSensitive, p.onlySharePoint, DisplayMap(SharePoint, caseSensitive, spReader), spByName),
      OnlyRows(SalesforceFileColumn, caseSensitive, p.onlySalesforce, DisplayMap(Salesforce, caseSensitive, sfReader), sfByName),
      Found(caseSensitive, sfByName, SortedKeys(p.inBoth)),
      Found(caseSensitive, spByName, SortedKeys(p.inBoth)),
      Counts(|Keys(Salesforce, caseSensitive, sfReader)|, |Keys(SharePoint, caseSensitive, spReader)|,
             |p.inBoth|, |p.onlySharePoint|, |p.onlySalesforce|))
  }

  /** `main` without the file handling: load both inventories, fold the
      names, build the display maps, partition, and build the reports. */
  method Compare(caseSensitive: bool, sfReader: seq<Record>, spReader: seq<Record>) returns (c: Comparison)
    ensures c == Expected(caseSensitive, sfReader, spReader)
  {
    var sfRows, sfNames, sfByName := Load(KeyFn(Salesforce), sfReader);
    var spRows, spNames, spByName := Load(KeyFn(SharePoint), spReader);
    ByNameValid(KeyFn(Salesforce), sfReader);
    ByNameValid(KeyFn(SharePoint), spReader);

    sfNames := FoldNames(caseSensitive, sfNames);
    spNames := FoldNames(caseSensitive, spNames);

    var sfDisplay := BuildDisplay(EntryFn(Salesforce, caseSensitive), sfRows);
    var spDisplay := BuildDisplay(EntryFn(SharePoint, caseSensitive), spRows);

    var p := Split(sfNames, spNames);

    var onlySp := OnlyReport(SharePointFileColumn, caseSensitive, p.onlySharePoint, spDisplay, spByName);
    var onlySf := OnlyReport(SalesforceFileColumn, caseSensitive, p.onlySalesforce, sfDisplay, sfByName);
    var bothSf, bothSp := BothReport(caseSensitive, p.inBoth, sfByName, spByName);

    c := Comparison(onlySp, onlySf, bothSf, bothSp,
                    Counts(|sfNames|, |spNames|, |p.inBoth|, |p.onlySharePoint|, |p.onlySalesforce|));
  }

  /** The counts are the sizes of the folded name sets and of the
      partition, they add up, and every report has one row per key of its set. */
  lemma ExpectedCounts(caseSensitive: bool, sfReader: seq<Record>, spReader: seq<Record>)
    ensures var c := Expected(caseSensitive, sfReader, spReader);
      var p := Split(Keys(Salesforce, caseSensitive, sfReader), Keys(SharePoint, caseSensitive, spReader));
      && c.counts.salesforce == |Keys(Salesforce, caseSensitive, sfReader)|
      && c.counts.sharePoint == |Keys(SharePoint, caseSensitive, spReader)|
      && c.counts.salesforce == c.counts.inBoth + c.counts.onlySalesforce
      && c.counts.sharePoint == c.counts.inBoth + c.counts.onlySharePoint
      && c.counts.inBoth == |p.inBoth|
      && |c.onlySharePointRows| == c.counts.onlySharePoint == |p.onlySharePoint|
      && |c.onlySalesforceRows| == c.counts.onlySalesforce == |p.onlySalesforce|
      && |c.bothSalesforceRows| == c.counts.inBoth && |c.bothSharePointRows| == c.counts.inBoth
  {
    var sfKeys, spKeys := Keys(Salesforce, caseSensitive, sfReader), Keys(SharePoint, caseSensitive, spReader);
    var p := Split(sfKeys, spKeys);
    SplitCounts(sfKeys, spKeys);
    ByNameValid(KeyFn(Salesforce), sfReader);
    ByNameValid(KeyFn(SharePoint), spReader);
    BothRowsFromInput(Salesforce, caseSensitive, sfReader, p.inBoth,
                      Found(caseSensitive, ByName(KeyFn(Salesforce), sfReader), SortedKeys(p.inBoth)));
    BothRowsFromInput(SharePoint, caseSensitive, spReader, p.inBoth,
                      Found(caseSensitive, ByName(KeyFn(SharePoint), spReader), SortedKeys(p.inBoth)));
  }

  /** The display maps have exactly the folded name sets as keys, so every
      "only" row carries a display name from the map, never the folded key
      itself (`ExpectedOnlyRows` says which name that is). */
  lemma ExpectedDisplayKeys(caseSensitive: bool, reader: seq<Record>, source: Source)
    ensures DisplayMap(source, caseSensitive, reader).Keys == Keys(source, caseSensitive, reader)
  {
    EntryAgrees(source, caseSensitive);
    DisplayKeys(EntryFn(source, caseSensitive), KeyFn(source), caseSensitive, reader);
  }

  /** Row `i` of each "only" report is the first input row of the `i`-th
      key of its set in ascending order, with its file-name column set to
      that row's own non-empty file name. */
  lemma ExpectedOnlyRows(caseSensitive: bool, sfReader: seq<Record>, spReader: seq<Record>)
    ensures var c := Expected(caseSensitive, sfReader, spReader);
      var p := Split(Keys(Salesforce, caseSensitive, sfReader), Keys(SharePoint, caseSensitive, spReader));
      forall i :: 0 <= i < |p.onlySharePoint| ==>
        RenamedRowFor(SharePoint, caseSensitive, spReader, SortedKeys(p.onlySharePoint)[i], SharePointFileColumn, c.onlySharePointRows[i])
    ensures var c := Expected(caseSensitive, sfReader, spReader);
      var p := Split(Keys(Salesforce, caseSensitive, sfReader), Keys(SharePoint, caseSensitive, spReader));
      forall i :: 0 <= i < |p.onlySalesforce| ==>
        RenamedRowFor(Salesforce, caseSensitive, sfReader, SortedKeys(p.onlySalesforce)[i], SalesforceFileColumn, c.onlySalesforceRows[i])
  {
    var c := Expected(caseSensitive, sfReader, spReader);
    var p := Split(Keys(Salesforce, caseSensitive, sfReader), Keys(SharePoint, caseSensitive, spReader));
    ByNameValid(KeyFn(Salesforce), sfReader);
    ByNameValid(KeyFn(SharePoint), spReader);
    OnlyRowsFromInput(SharePoint, caseSensitive, spReader, p.onlySharePoint, SharePointFileColumn, c.onlySharePointRows);
    OnlyRowsFromInput(Salesforce, caseSensitive, sfReader, p.onlySalesforce, SalesforceFileColumn, c.onlySalesforceRows);
  }

  /** The "in both" reports have one row per common key on each side, and
      row `i` is the first input row of the `i`-th common key in ascending order. */
  lemma ExpectedBothRows(caseSensitive: bool, sfReader: seq<Record>, spReader: seq<Record>)
    ensures var c := Expected(caseSensitive, sfReader, spReader);
      var p := Split(Keys(Salesforce, caseSensitive, sfReader), Keys(SharePoint, caseSensitive, spReader));
      && |c.bothSalesforceRows| == |p.inBoth|
      && forall i :: 0 <= i < |p.inBoth| ==>
           RowFor(Salesforce, caseSensitive, sfReader, SortedKeys(p.inBoth)[i], c.bothSalesforceRows[i])
    ensures var c := Expected(caseSensitive, sfReader, spReader);
      var p := Split(Keys(Salesforce, caseSensitive, sfReader), Keys(SharePoint, caseSensitive, spReader));
      && |c.bothSharePointRows| == |p.inBoth|
      && forall i :: 0 <= i < |p.inBoth| ==>
           RowFor(SharePoint, caseSensitive, spReader, SortedKeys(p.inBoth)[i], c.bothSharePointRows[i])
  {
    var c := Expected(caseSensitive, sfReader, spReader);
    var p := Split(Keys(Salesforce, caseSensitive, sfReader), Keys(SharePoint, caseSensitive, spReader));
    ByNameValid(KeyFn(Salesforce), sfReader);
    ByNameValid(KeyFn(SharePoint), spReader);
    BothRowsFromInput(Salesforce, caseSensitive, sfReader, p.inBoth, c.bothSalesforceRows);
    BothRowsFromInput(SharePoint, caseSensitive, spReader, p.inBoth, c.bothSharePointRows);
  }

  /** For the first input row of `key`, the lookup returns that row, which
      is a non-empty dict, and the display name of `key` is its file name. */
  lemma FirstOfKey(source: Source, caseSensitive: bool, reader: seq<Record>, key: string, j: int)
    requires FirstFor(KeyFn(source), caseSensitive, reader, key, j)
    ensures ByName(KeyFn(source), reader).Valid()
    ensures FirstRowOf(caseSensitive, ByName(KeyFn(source), reader), key) == Some(reader[j])
    ensures reader[j] != map[] && FileName(source, reader[j]) != ""
    ensures key in DisplayMap(source, caseSensitive, reader)
    ensures DisplayMap(source, caseSensitive, reader)[key] == FileName(source, reader[j])
  {
    var row := reader[j];
    assert KeyFn(source)(row) == KeyOf(source, row);
    assert EntryFn(source, caseSensitive)(row) == EntryOf(source, caseSensitive, row);
    NamesNonEmpty(source, reader);
    FirstRowIsFirst(KeyFn(source), caseSensitive, reader, key, j);
    EntryAgrees(source, caseSensitive);
    DisplayIsFirst(EntryFn(source, caseSensitive), KeyFn(source), caseSensitive, reader, key, j);
    KeptRowNonEmpty(source, row);
  }

  /** Every key of the folded name set finds a non-empty row, the first
      input row whose name folds to it. */
  lemma KeyFound(source: Source, caseSensitive: bool, reader: seq<Record>, key: string)
    requires key in Keys(source, caseSensitive, reader)
    ensures ByName(KeyFn(source), reader).Valid()
    ensures Truthy(FirstRowOf(caseSensitive, ByName(KeyFn(source), reader), key))
    ensures RowFor(source, caseSensitive, reader, key, FirstRowOf(caseSensitive, ByName(KeyFn(source), reader), key).value)
  {
    FirstForKey(KeyFn(source), caseSensitive, reader, key);
    var j :| FirstFor(KeyFn(source), caseSensitive, reader, key, j);
    FirstOfKey(source, caseSensitive, reader, key, j);
  }

  /** The report row of a loaded key is the first input row for that key,
      with its file-name column replaced by that row's own file name. */
  lemma OnlyRowFromInput(source: Source, caseSensitive: bool, reader: seq<Record>, key: string, column: string, out: Record)
    requires key in Keys(source, caseSensitive, reader)
    requires ByName(KeyFn(source), reader).Valid()
    requires out == ReportRow(column, FirstRowOf(caseSensitive, ByName(KeyFn(source), reader), key),
                              DisplayName(DisplayMap(source, caseSensitive, reader), key))
    ensures RenamedRowFor(source, caseSensitive, reader, key, column, out)
  {
    FirstForKey(KeyFn(source), caseSensitive, reader, key);
    var j :| FirstFor(KeyFn(source), caseSensitive, reader, key, j);
    FirstOfKey(source, caseSensitive, reader, key, j);
    assert out == reader[j][column := FileName(source, reader[j])];
  }

  /** Row `i` of an "only" report is the first input row for the `i`-th key
      in ascending order, with its file-name column replaced by that row's
      own non-empty file name. */
  lemma OnlyRowsFromInput(source: Source, caseSensitive: bool, reader: seq<Record>, keys: set<string>,
                          column: string, out: seq<Record>)
    requires keys <= Keys(source, caseSensitive, reader)
    requires ByName(KeyFn(source), reader).Valid()
    requires out == OnlyRows(column, caseSensitive, keys, DisplayMap(source, caseSensitive, reader), ByName(KeyFn(source), reader))
    ensures forall i :: 0 <= i < |keys| ==> RenamedRowFor(source, caseSensitive, reader, SortedKeys(keys)[i], column, out[i])
  {
    var ks := SortedKeys(keys);
    forall i | 0 <= i < |keys| ensures RenamedRowFor(source, caseSensitive, reader, ks[i], column, out[i]) {
      assert ks[i] in Elements(ks);
      OnlyRowFromInput(source, caseSensitive, reader, ks[i], column, out[i]);
    }
  }

  /** Every common key finds its row, so an "in both" report has one row per
      common key, row `i` being the first input row of the `i`-th key in ascending order. */
  lemma BothRowsFromInput(source: Source, caseSensitive: bool, reader: seq<Record>, keys: set<string>, out: seq<Record>)
    requires keys <= Keys(source, caseSensitive, reader)
    requires ByName(KeyFn(source), reader).Valid()
    requires out == Found(caseSensitive, ByName(KeyFn(source), reader), SortedKeys(keys))
    ensures |out| == |keys|
    ensures forall i :: 0 <= i < |keys| ==> RowFor(source, caseSensitive, reader, SortedKeys(keys)[i], out[i])
  {
    var g := ByName(KeyFn(source), reader);
    var ks := SortedKeys(keys);
    forall i | 0 <= i < |ks| ensures Truthy(FirstRowOf(caseSensitive, g, ks[i])) {
      assert ks[i] in Elements(ks);
      KeyFound(source, caseSensitive, reader, ks[i]);
    }
    FoundAll(caseSensitive, g, ks);
    forall i | 0 <= i < |ks| ensures RowFor(source, caseSensitive, reader, ks[i], out[i]) {
      assert ks[i] in Elements(ks);
      KeyFound(source, caseSensitive, reader, ks[i]);
    }
  }
}
