/** Loading one inventory: the row filter and grouping of
    `load_salesforce_csv` and `load_sharepoint_csv`, with the CSV reading
    replaced by the sequence of rows the reader yields. */
module Ingest {
  import opened Wrappers
  import opened Text
  import opened Names
  import opened Ordering

  /** One CSV row: column name to cell text. */
  type Record = map<string, string>

  /** Which export a row comes from; the two loaders differ only in how they
      find a row's file name. */
  datatype Source = Salesforce | SharePoint

  const SalesforceFileColumn := "Document Title"
  const SharePointFileColumn := "Name"

  /** `row.get(column, "")`; a missing column reads as the empty string. */
  function Get(row: Record, column: string): string {
    if column in row then row[column] else ""
  }

  /** `row.get("Name") or row.get("FileLeafRef") or row.get("Title", "")`:
      the first of the three columns whose text is not empty. */
  function SharePointRawName(row: Record): string {
    if Get(row, SharePointFileColumn) != "" then Get(row, SharePointFileColumn)
    else if Get(row, "FileLeafRef") != "" then Get(row, "FileLeafRef")
    else Get(row, "Title")
  }

  /** The stripped file name of a row, as both the loaders and the display
      maps compute it. */
  function FileName(source: Source, row: Record): (t: string)
    ensures IsStripped(t)
  {
    match source
    case Salesforce => Strip(Get(row, SalesforceFileColumn))
    case SharePoint => Strip(SharePointRawName(row))
  }

  /** The key a loader files a row under, or None when it skips the row. */
  function KeyOf(source: Source, row: Record): (k: Option<string>)
    ensures k.Some? <==> FileName(source, row) != ""
    ensures k.Some? ==> k.value == FileName(source, row) && k.value != "" && IsStripped(k.value)
  {
    var t := FileName(source, row);
    if t == "" then None else Some(NormalizeName(t))
  }

  /** The SharePoint file name falls back from `Name` to `FileLeafRef` to
      `Title`, each time on an EMPTY cell; a row is skipped exactly when the
      chosen cell is blank. */
  lemma SharePointNameFallback(row: Record)
    ensures Get(row, "Name") != "" ==> FileName(SharePoint, row) == Strip(Get(row, "Name"))
    ensures Get(row, "Name") == "" && Get(row, "FileLeafRef") != "" ==>
              FileName(SharePoint, row) == Strip(Get(row, "FileLeafRef"))
    ensures Get(row, "Name") == "" && Get(row, "FileLeafRef") == "" ==>
              FileName(SharePoint, row) == Strip(Get(row, "Title"))
    ensures KeyOf(SharePoint, row).None? <==> AllSpace(SharePointRawName(row))
    ensures (AllSpace(Get(row, "Name")) && AllSpace(Get(row, "FileLeafRef")) && AllSpace(Get(row, "Title")))
              ==> KeyOf(SharePoint, row).None?
  {
    StripEmptyIffBlank(SharePointRawName(row));
  }

  /** A Salesforce row is skipped exactly when its title cell is blank or missing. */
  lemma SalesforceSkip(row: Record)
    ensures KeyOf(Salesforce, row).None? <==> AllSpace(Get(row, SalesforceFileColumn))
  {
    StripEmptyIffBlank(Get(row, SalesforceFileColumn));
  }

  /** A `Name` cell holding only spaces is not empty, so it hides a usable
      `FileLeafRef` and the row is skipped. */
  lemma BlankNameHidesFileLeafRef()
    ensures KeyOf(SharePoint, map["Name" := " ", "FileLeafRef" := "a.pdf"]).None?
  {
    var row := map["Name" := " ", "FileLeafRef" := "a.pdf"];
    assert SharePointRawName(row) == " ";
    StripEmptyIffBlank(" ");
  }

  /** `KeyOf` for one source, as a function value: the grouping below does
      not depend on how a row's name is found. */
  function KeyFn(source: Source): Record -> Option<string> {
    row => KeyOf(source, row)
  }

  // ---------------------------------------------------------------------
  // What a loader returns, defined row by row over the rows read so far,
  // for any way `keyOf` of finding a row's key (None: the row is skipped).

  /** `rows`: the rows that were not skipped, in input order. */
  function Kept(keyOf: Record -> Option<string>, rs: seq<Record>): seq<Record>
  {
    if rs == [] then []
    else Kept(keyOf, rs[..|rs| - 1]) + (if keyOf(rs[|rs| - 1]).Some? then [rs[|rs| - 1]] else [])
  }

  /** `names`: the keys of the rows that were not skipped. */
  function NameSet(keyOf: Record -> Option<string>, rs: seq<Record>): set<string>
  {
    if rs == [] then {}
    else
      NameSet(keyOf, rs[..|rs| - 1]) + (match keyOf(rs[|rs| - 1]) case Some(k) => {k} case None => {})
  }

  /** `by_name[key]`: the rows filed under `key`, in input order. */
  function RowsNamed(keyOf: Record -> Option<string>, rs: seq<Record>, key: string): seq<Record>
  {
    if rs == [] then []
    else RowsNamed(keyOf, rs[..|rs| - 1], key) + (if keyOf(rs[|rs| - 1]) == Some(key) then [rs[|rs| - 1]] else [])
  }

  /** The insertion order of the keys of `by_name`: each key where its first row is. */
  function KeyOrder(keyOf: Record -> Option<string>, rs: seq<Record>): seq<string>
  {
    if rs == [] then []
    else
      var order := KeyOrder(keyOf, rs[..|rs| - 1]);
      match keyOf(rs[|rs| - 1])
      case Some(k) => if k in order then order else order + [k]
      case None => order
  }

  /** A Python dict from key to rows: its keys in insertion order and the map itself. */
  datatype Grouping = Grouping(order: seq<string>, groups: map<string, seq<Record>>)
  {
    /** The keys are listed once each, exactly the map's keys, and no group is empty. */
    ghost predicate Valid() {
      && (forall i, j :: 0 <= i < j < |order| ==> order[i] != order[j])
      && Elements(order) == groups.Keys
      && (forall k :: k in groups ==> groups[k] != [])
    }
  }

  /** `by_name` after reading `rs`. */
  function ByName(keyOf: Record -> Option<string>, rs: seq<Record>): Grouping {
    Grouping(KeyOrder(keyOf, rs), map k | k in NameSet(keyOf, rs) :: RowsNamed(keyOf, rs, k))
  }

  /** The loop shared by `load_salesforce_csv` and `load_sharepoint_csv`
      over the rows of the reader, returning `(rows, names, by_name)`;
      `keyOf` is the loader's per-row title test and normalisation
      (`KeyFn(Salesforce)` or `KeyFn(SharePoint)`). */
  method Load(keyOf: Record -> Option<string>, reader: seq<Record>)
    returns (rows: seq<Record>, names: set<string>, byName: Grouping)
    ensures rows == Kept(keyOf, reader)
    ensures names == NameSet(keyOf, reader)
    ensures byName == ByName(keyOf, reader)
  {
    rows, names := [], {};
    var order: seq<string> := [];
    var groups: map<string, seq<Record>> := map[];
    for i := 0 to |reader|
      invariant rows == Kept(keyOf, reader[..i])
      invariant names == NameSet(keyOf, reader[..i])
      invariant Grouping(order, groups) == ByName(keyOf, reader[..i])
    {
      var row := reader[i];
      assert reader[..i + 1] == reader[..i] + [row];
      LoadStep(keyOf, reader[..i], row);
      ByNameStep(keyOf, reader[..i], row);
      var k := keyOf(row);
      if k.Some? {
        var key := k.value;
        rows := rows + [row];
        names := names + {key};
        if key in groups {
          groups := groups[key := groups[key] + [row]];
        } else {
          order := order + [key];
          groups := groups[key := [row]];
        }
      }
    }
    assert reader[..|reader|] == reader;
    byName := Grouping(order, groups);
  }

  /** How filing one more row changes `by_name`: the row is appended to the
      group of its key, and a new key goes to the end of the order. */
  lemma ByNameStep(keyOf: Record -> Option<string>, rs: seq<Record>, row: Record)
    ensures var g := ByName(keyOf, rs);
      ByName(keyOf, rs + [row]) ==
        match keyOf(row)
        case None => g
        case Some(k) =>
          if k in g.groups then Grouping(g.order, g.groups[k := g.groups[k] + [row]])
          else Grouping(g.order + [k], g.groups[k := [row]])
  {
    var g := ByName(keyOf, rs);
    LoadStep(keyOf, rs, row);
    KeyOrderLists(keyOf, rs);
    match keyOf(row)
    case None =>
      GroupsSkip(keyOf, rs, row);
    case Some(k) =>
      assert k in g.groups <==> k in Elements(g.order);
      GroupsFile(keyOf, rs, row, k);
  }

  /** A skipped row leaves every group of `by_name` as it was. */
  lemma GroupsSkip(keyOf: Record -> Option<string>, rs: seq<Record>, row: Record)
    requires keyOf(row).None?
    ensures ByName(keyOf, rs + [row]).groups == ByName(keyOf, rs).groups
  {
    var g, g' := ByName(keyOf, rs), ByName(keyOf, rs + [row]);
    LoadStep(keyOf, rs, row);
    assert g'.groups.Keys == g.groups.Keys;
    forall j | j in g'.groups
      ensures g'.groups[j] == g.groups[j]
    {
      RowsNamedStep(keyOf, rs, row, j);
    }
  }

  /** A row filed under `k` is appended to the group of `k`, which is
      created when `k` is new; the other groups are unchanged. */
  lemma GroupsFile(keyOf: Record -> Option<string>, rs: seq<Record>, row: Record, k: string)
    requires keyOf(row) == Some(k)
    ensures var g := ByName(keyOf, rs);
      ByName(keyOf, rs + [row]).groups == g.groups[k := if k in g.groups then g.groups[k] + [row] else [row]]
  {
    var g, g' := ByName(keyOf, rs), ByName(keyOf, rs + [row]);
    LoadStep(keyOf, rs, row);
    var update := if k in g.groups then g.groups[k] + [row] else [row];
    if k !in g.groups {
      RowsNamedNonEmpty(keyOf, rs, k);
    }
    assert g'.groups.Keys == g.groups[k := update].Keys;
    forall j | j in g'.groups
      ensures g'.groups[j] == g.groups[k := update][j]
    {
      RowsNamedStep(keyOf, rs, row, j);
    }
  }

  /** How reading one more row changes what the loader returns. */
  lemma LoadStep(keyOf: Record -> Option<string>, rs: seq<Record>, row: Record)
    ensures Kept(keyOf, rs + [row]) == Kept(keyOf, rs) + (if keyOf(row).Some? then [row] else [])
    ensures NameSet(keyOf, rs + [row]) == NameSet(keyOf, rs) + (match keyOf(row) case Some(k) => {k} case None => {})
    ensures KeyOrder(keyOf, rs + [row]) ==
              match keyOf(row)
              case Some(k) => if k in KeyOrder(keyOf, rs) then KeyOrder(keyOf, rs) else KeyOrder(keyOf, rs) + [k]
              case None => KeyOrder(keyOf, rs)
  {
    assert (rs + [row])[..|rs|] == rs;
  }

  lemma RowsNamedStep(keyOf: Record -> Option<string>, rs: seq<Record>, row: Record, k: string)
    ensures RowsNamed(keyOf, rs + [row], k) == RowsNamed(keyOf, rs, k) + (if keyOf(row) == Some(k) then [row] else [])
  {
    assert (rs + [row])[..|rs|] == rs;
  }

  // ---------------------------------------------------------------------
  // Properties of a loaded inventory.

  /** A key is loaded exactly when some row of the input produces it. */
  lemma {:induction false} NameSetFromRows(keyOf: Record -> Option<string>, rs: seq<Record>, k: string)
    ensures k in NameSet(keyOf, rs) <==> exists i :: 0 <= i < |rs| && keyOf(rs[i]) == Some(k)
  {
    if rs != [] {
      var init := rs[..|rs| - 1];
      NameSetFromRows(keyOf, init, k);
      if k in NameSet(keyOf, init) {
        var i :| 0 <= i < |init| && keyOf(init[i]) == Some(k);
        assert rs[i] == init[i];
      }
      if exists i :: 0 <= i < |rs| && keyOf(rs[i]) == Some(k) {
        var i :| 0 <= i < |rs| && keyOf(rs[i]) == Some(k);
        if i < |init| {
          assert init[i] == rs[i];
        }
      }
    }
  }

  /** Every name a loader returns is non-empty and already stripped, since
      skipped rows contribute no key. */
  lemma NamesNonEmpty(source: Source, rs: seq<Record>)
    ensures forall k :: k in NameSet(KeyFn(source), rs) ==> k != "" && IsStripped(k)
  {
    forall k | k in NameSet(KeyFn(source), rs) ensures k != "" && IsStripped(k) {
      NameSetFromRows(KeyFn(source), rs, k);
      var i :| 0 <= i < |rs| && KeyFn(source)(rs[i]) == Some(k);
      assert KeyOf(source, rs[i]) == Some(k);
    }
  }

  /** The key order lists every loaded name exactly once. */
  lemma {:induction false} KeyOrderLists(keyOf: Record -> Option<string>, rs: seq<Record>)
    ensures Elements(KeyOrder(keyOf, rs)) == NameSet(keyOf, rs)
    ensures forall i, j :: 0 <= i < j < |KeyOrder(keyOf, rs)| ==> KeyOrder(keyOf, rs)[i] != KeyOrder(keyOf, rs)[j]
  {
    if rs != [] {
      KeyOrderLists(keyOf, rs[..|rs| - 1]);
    }
  }

  /** Reading more rows only appends keys: the order of the keys already
      there never changes. */
  lemma {:induction false} KeyOrderGrows(keyOf: Record -> Option<string>, rs: seq<Record>, more: seq<Record>)
    ensures KeyOrder(keyOf, rs) <= KeyOrder(keyOf, rs + more)
    decreases |more|
  {
    if more == [] {
      assert rs + more == rs;
    } else {
      var init := more[..|more| - 1];
      assert (rs + more)[..|rs + more| - 1] == rs + init;
      KeyOrderGrows(keyOf, rs, init);
    }
  }

  /** Both lists distribute over concatenation of the input, so they keep
      the input order. */
  lemma {:induction false} KeptAppend(keyOf: Record -> Option<string>, rs: seq<Record>, more: seq<Record>, key: string)
    ensures Kept(keyOf, rs + more) == Kept(keyOf, rs) + Kept(keyOf, more)
    ensures RowsNamed(keyOf, rs + more, key) == RowsNamed(keyOf, rs, key) + RowsNamed(keyOf, more, key)
    decreases |more|
  {
    if more == [] {
      assert rs + more == rs;
    } else {
      var init := more[..|more| - 1];
      assert (rs + more)[..|rs + more| - 1] == rs + init;
      KeptAppend(keyOf, rs, init, key);
    }
  }

  /** `by_name[key]` holds exactly the input rows whose key is `key`. */
  lemma {:induction false} RowsNamedExactly(keyOf: Record -> Option<string>, rs: seq<Record>, key: string, r: Record)
    ensures r in RowsNamed(keyOf, rs, key) <==> r in rs && keyOf(r) == Some(key)
  {
    if rs != [] {
      var init := rs[..|rs| - 1];
      RowsNamedExactly(keyOf, init, key, r);
      assert rs == init + [rs[|rs| - 1]];
    }
  }

  /** A group is non-empty exactly when its key is a loaded name. */
  lemma {:induction false} RowsNamedNonEmpty(keyOf: Record -> Option<string>, rs: seq<Record>, key: string)
    ensures RowsNamed(keyOf, rs, key) != [] <==> key in NameSet(keyOf, rs)
  {
    if rs != [] {
      RowsNamedNonEmpty(keyOf, rs[..|rs| - 1], key);
    }
  }

  /** `by_name` is a valid grouping: keys once each, exactly the name set,
      no empty group. */
  lemma ByNameValid(keyOf: Record -> Option<string>, rs: seq<Record>)
    ensures ByName(keyOf, rs).Valid()
    ensures ByName(keyOf, rs).groups.Keys == NameSet(keyOf, rs)
  {
    KeyOrderLists(keyOf, rs);
    forall k | k in NameSet(keyOf, rs) ensures RowsNamed(keyOf, rs, k) != [] {
      RowsNamedNonEmpty(keyOf, rs, k);
    }
  }

  /** Sum of the group sizes, taken over the keys in `order`. */
  function GroupSizes(keyOf: Record -> Option<string>, rs: seq<Record>, order: seq<string>): nat
  {
    if order == [] then 0
    else GroupSizes(keyOf, rs, order[..|order| - 1]) + |RowsNamed(keyOf, rs, order[|order| - 1])|
  }

  lemma {:induction false} GroupSizesStep(keyOf: Record -> Option<string>, rs: seq<Record>, row: Record, order: seq<string>)
    requires forall i, j :: 0 <= i < j < |order| ==> order[i] != order[j]
    ensures GroupSizes(keyOf, rs + [row], order) ==
            GroupSizes(keyOf, rs, order) + (if keyOf(row).Some? && keyOf(row).value in order then 1 else 0)
  {
    var all := rs + [row];
    assert all[..|all| - 1] == rs;
    if order != [] {
      var init := order[..|order| - 1];
      GroupSizesStep(keyOf, rs, row, init);
      assert order == init + [order[|order| - 1]];
    }
  }

  /** The group sizes add up to the number of rows kept. */
  lemma {:induction false} GroupSizesSum(keyOf: Record -> Option<string>, rs: seq<Record>)
    ensures GroupSizes(keyOf, rs, KeyOrder(keyOf, rs)) == |Kept(keyOf, rs)|
  {
    if rs != [] {
      var init, last := rs[..|rs| - 1], rs[|rs| - 1];
      var order := KeyOrder(keyOf, init);
      GroupSizesSum(keyOf, init);
      KeyOrderLists(keyOf, init);
      assert rs == init + [last];
      GroupSizesStep(keyOf, init, last, order);
      match keyOf(last)
      case None =>
      case Some(k) =>
        if k !in order {
          RowsNamedNonEmpty(keyOf, init, k);
          assert k !in Elements(order);
          var longer := order + [k];
          assert longer[..|longer| - 1] == order;
        }
    }
  }
}
