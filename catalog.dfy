/**
 * The in-memory joins of the exporter. The rows that the script reads from
 * the library database (asset id, title, author) and from the annotation
 * database (highlight count, asset id) are given as sequences; the three
 * operations fill dictionaries from them in a loop, a later row for an asset
 * id overwriting an earlier one.
 */
module Catalog {

  /** A row of the library query: asset id, title, author. */
  datatype AssetRow = AssetRow(assetId: string, title: string, author: string)

  /** A row of the count query: number of highlights and the asset id they belong to. */
  datatype CountRow = CountRow(count: int, assetId: string)

  datatype Option<T> = None | Some(value: T)

  /**
   * The dictionary kept per asset by get_all_titles: title and author, and
   * the highlight count once get_all_relevant_titles has stamped it.
   */
  datatype TitleEntry = TitleEntry(title: string, author: string, count: Option<int>)

  /** The [title, author] pair kept per asset in the module-level table. */
  datatype TitleAuthor = TitleAuthor(title: string, author: string)

  /** The outcome of a lookup-driven operation: its value, or the KeyError raised for a missing key. */
  datatype Result<T> = Ok(value: T) | KeyError(key: string)

  // ---------------------------------------------------------------------------
  // Rows and their asset ids
  // ---------------------------------------------------------------------------

  /** The asset ids of the first n library rows. */
  function AssetIdsBefore(rows: seq<AssetRow>, n: nat): set<string>
    requires n <= |rows|
  {
    if n == 0 then {} else AssetIdsBefore(rows, n - 1) + {rows[n - 1].assetId}
  }

  /** The asset ids of all library rows. */
  function AssetIds(rows: seq<AssetRow>): set<string>
  {
    AssetIdsBefore(rows, |rows|)
  }

  /** The asset ids of the first n count rows. */
  function CountIdsBefore(rows: seq<CountRow>, n: nat): set<string>
    requires n <= |rows|
  {
    if n == 0 then {} else CountIdsBefore(rows, n - 1) + {rows[n - 1].assetId}
  }

  /** The asset ids of all count rows. */
  function CountIds(rows: seq<CountRow>): set<string>
  {
    CountIdsBefore(rows, |rows|)
  }

  /** An asset id is among the first n library rows' ids exactly when one of those rows carries it. */
  lemma {:induction false} AssetIdsBeforeMembers(rows: seq<AssetRow>, n: nat, id: string)
    requires n <= |rows|
    ensures id in AssetIdsBefore(rows, n) <==> exists i :: 0 <= i < n && rows[i].assetId == id
  {
    if n > 0 {
      AssetIdsBeforeMembers(rows, n - 1, id);
    }
  }

  /** Library row i is the last of the first n rows with its asset id. */
  predicate LastAssetRowBefore(rows: seq<AssetRow>, i: int, n: nat)
    requires n <= |rows|
  {
    0 <= i < n && forall j :: i < j < n ==> rows[j].assetId != rows[i].assetId
  }

  /** Count row i is the last of the first n rows with its asset id. */
  predicate LastCountRowBefore(rows: seq<CountRow>, i: int, n: nat)
    requires n <= |rows|
  {
    0 <= i < n && forall j :: i < j < n ==> rows[j].assetId != rows[i].assetId
  }

  /**
   * Every asset id among the first n library rows has a last row there, so
   * the value a dictionary filled from them keeps under that id is determined.
   */
  lemma {:induction false} LastAssetRowExists(rows: seq<AssetRow>, n: nat, id: string)
    requires n <= |rows| && id in AssetIdsBefore(rows, n)
    ensures exists i :: LastAssetRowBefore(rows, i, n) && rows[i].assetId == id
  {
    if rows[n - 1].assetId == id {
      assert LastAssetRowBefore(rows, n - 1, n);
    } else {
      LastAssetRowExists(rows, n - 1, id);
      var i :| LastAssetRowBefore(rows, i, n - 1) && rows[i].assetId == id;
      assert LastAssetRowBefore(rows, i, n);
    }
  }

  /**
   * Every asset id among the first n count rows has a last row there; StampOk
   * shows that its count is the one get_all_relevant_titles keeps.
   */
  lemma {:induction false} LastCountRowExists(rows: seq<CountRow>, n: nat, id: string)
    requires n <= |rows| && id in CountIdsBefore(rows, n)
    ensures exists i :: LastCountRowBefore(rows, i, n) && rows[i].assetId == id
  {
    if rows[n - 1].assetId == id {
      assert LastCountRowBefore(rows, n - 1, n);
    } else {
      LastCountRowExists(rows, n - 1, id);
      var i :| LastCountRowBefore(rows, i, n - 1) && rows[i].assetId == id;
      assert LastCountRowBefore(rows, i, n);
    }
  }

  // ---------------------------------------------------------------------------
  // Filling a dictionary from library rows
  // ---------------------------------------------------------------------------

  /**
   * The dictionary m0 after `m0[row.assetId] = entry(row)` has been executed
   * for the first n library rows in order.
   */
  function Fill<V>(m0: map<string, V>, rows: seq<AssetRow>, n: nat, entry: AssetRow -> V): map<string, V>
    requires n <= |rows|
  {
    if n == 0 then m0 else Fill(m0, rows, n - 1, entry)[rows[n - 1].assetId := entry(rows[n - 1])]
  }

  /** Filling adds exactly the rows' asset ids to the keys already present. */
  lemma {:induction false} FillKeys<V>(m0: map<string, V>, rows: seq<AssetRow>, n: nat, entry: AssetRow -> V)
    requires n <= |rows|
    ensures Fill(m0, rows, n, entry).Keys == m0.Keys + AssetIdsBefore(rows, n)
  {
    if n > 0 {
      FillKeys(m0, rows, n - 1, entry);
    }
  }

  /** For an asset id that several rows carry, the last of them wins. */
  lemma {:induction false} FillLastWins<V>(m0: map<string, V>, rows: seq<AssetRow>, n: nat, entry: AssetRow -> V, i: int)
    requires n <= |rows| && LastAssetRowBefore(rows, i, n)
    ensures rows[i].assetId in Fill(m0, rows, n, entry)
    ensures Fill(m0, rows, n, entry)[rows[i].assetId] == entry(rows[i])
  {
    if i < n - 1 {
      assert LastAssetRowBefore(rows, i, n - 1);
      FillLastWins(m0, rows, n - 1, entry, i);
    }
  }

  /** An entry that no row overwrites is kept as it was. */
  lemma {:induction false} FillKeepsOthers<V>(m0: map<string, V>, rows: seq<AssetRow>, n: nat, entry: AssetRow -> V, id: string)
    requires n <= |rows| && id in m0 && id !in AssetIdsBefore(rows, n)
    ensures id in Fill(m0, rows, n, entry) && Fill(m0, rows, n, entry)[id] == m0[id]
  {
    if n > 0 {
      FillKeepsOthers(m0, rows, n - 1, entry, id);
    }
  }

  // ---------------------------------------------------------------------------
  // get_all_titles
  // ---------------------------------------------------------------------------

  /** The dictionary get_all_titles stores for a library row: title and author, no count. */
  function NewEntry(row: AssetRow): TitleEntry
  {
    TitleEntry(row.title, row.author, None)
  }

  /** The catalog get_all_titles builds from the library rows. */
  function AllTitles(rows: seq<AssetRow>): map<string, TitleEntry>
  {
    Fill(map[], rows, |rows|, NewEntry)
  }

  /**
   * get_all_titles: fills a fresh dictionary with m[asset id] = {title, author}
   * for every library row in order.
   */
  method GetAllTitles(rows: seq<AssetRow>) returns (m: map<string, TitleEntry>)
    ensures m == AllTitles(rows)
    ensures m.Keys == AssetIds(rows)
  {
    m := map[];
    for n := 0 to |rows|
      invariant m == Fill(map[], rows, n, NewEntry)
    {
      var r := rows[n];
      m := m[r.assetId := TitleEntry(r.title, r.author, None)];
    }
    FillKeys(map[], rows, |rows|, NewEntry);
  }

  /**
   * The catalog has an entry for the asset id of every library row and no
   * other; under a repeated id the last row's title and author are kept; no
   * entry has a count yet.
   */
  lemma AllTitlesContents(rows: seq<AssetRow>, i: int)
    requires LastAssetRowBefore(rows, i, |rows|)
    ensures AllTitles(rows).Keys == AssetIds(rows)
    ensures rows[i].assetId in AllTitles(rows)
    ensures AllTitles(rows)[rows[i].assetId] == TitleEntry(rows[i].title, rows[i].author, None)
  {
    FillKeys(map[], rows, |rows|, NewEntry);
    FillLastWins(map[], rows, |rows|, NewEntry, i);
  }

  // ---------------------------------------------------------------------------
  // get_all_relevant_titles
  // ---------------------------------------------------------------------------

  /**
   * The result of the loop of get_all_relevant_titles over the first n count
   * rows: each row's count is stamped on the catalog entry of its asset id
   * and that entry is stored under the id; the first row whose id is not in
   * the catalog raises KeyError.
   */
  function Stamp(catalog: map<string, TitleEntry>, rows: seq<CountRow>, n: nat): Result<map<string, TitleEntry>>
    requires n <= |rows|
  {
    if n == 0 then Ok(map[])
    else
      match Stamp(catalog, rows, n - 1)
      case KeyError(k) => KeyError(k)
      case Ok(op) =>
        var row := rows[n - 1];
        if row.assetId !in catalog then KeyError(row.assetId)
        else Ok(op[row.assetId := catalog[row.assetId].(count := Some(row.count))])
  }

  /** What get_all_relevant_titles returns for the given count rows and library rows. */
  function RelevantTitles(countRows: seq<CountRow>, assetRows: seq<AssetRow>): Result<map<string, TitleEntry>>
  {
    Stamp(AllTitles(assetRows), countRows, |countRows|)
  }

  /**
   * get_all_relevant_titles: builds the catalog, then for each (count, asset id)
   * row stamps the count on the catalog entry in place and stores that entry
   * under the id; a missing id raises KeyError.
   */
  method GetAllRelevantTitles(countRows: seq<CountRow>, assetRows: seq<AssetRow>)
    returns (r: Result<map<string, TitleEntry>>)
    ensures r == RelevantTitles(countRows, assetRows)
  {
    var allTitles := GetAllTitles(assetRows);
    ghost var catalog := allTitles;
    var op := map[];
    for n := 0 to |countRows|
      invariant Stamp(catalog, countRows, n) == Ok(op)
      invariant allTitles == catalog + op
      invariant forall id :: id in op ==>
        id in catalog && op[id].title == catalog[id].title && op[id].author == catalog[id].author
    {
      var cnt, aid := countRows[n].count, countRows[n].assetId;
      if aid !in allTitles {
        StampFailureSticks(catalog, countRows, n + 1, |countRows|);
        return KeyError(aid);
      }
      allTitles := allTitles[aid := allTitles[aid].(count := Some(cnt))];
      op := op[aid := allTitles[aid]];
      assert allTitles == catalog + op;
    }
    return Ok(op);
  }

  /** Once a row has raised KeyError, the later rows change nothing. */
  lemma {:induction false} StampFailureSticks(catalog: map<string, TitleEntry>, rows: seq<CountRow>, n: nat, n': nat)
    requires n <= n' <= |rows| && Stamp(catalog, rows, n).KeyError?
    ensures Stamp(catalog, rows, n') == Stamp(catalog, rows, n)
    decreases n' - n
  {
    if n < n' {
      StampFailureSticks(catalog, rows, n, n' - 1);
    }
  }

  /**
   * The loop raises KeyError exactly when some row's asset id is missing from
   * the catalog, and then the key is the id of the first such row.
   */
  lemma {:induction false} StampKeyError(catalog: map<string, TitleEntry>, rows: seq<CountRow>, n: nat)
    requires n <= |rows|
    ensures Stamp(catalog, rows, n).KeyError? <==> exists i :: 0 <= i < n && rows[i].assetId !in catalog
    ensures Stamp(catalog, rows, n).KeyError? ==>
      exists i :: 0 <= i < n && rows[i].assetId == Stamp(catalog, rows, n).key
        && rows[i].assetId !in catalog
        && forall j :: 0 <= j < i ==> rows[j].assetId in catalog
  {
    if n > 0 {
      StampKeyError(catalog, rows, n - 1);
      if Stamp(catalog, rows, n - 1).Ok? && rows[n - 1].assetId !in catalog {
        assert forall j :: 0 <= j < n - 1 ==> rows[j].assetId in catalog;
        assert Stamp(catalog, rows, n) == KeyError(rows[n - 1].assetId);
      }
    }
  }

  /**
   * Without a KeyError the result's keys are exactly the rows' asset ids, and
   * each holds the catalog entry of that id with the count of the last row
   * carrying it.
   */
  lemma {:induction false} StampOk(catalog: map<string, TitleEntry>, rows: seq<CountRow>, n: nat, i: int)
    requires n <= |rows| && Stamp(catalog, rows, n).Ok?
    ensures Stamp(catalog, rows, n).value.Keys == CountIdsBefore(rows, n)
    ensures LastCountRowBefore(rows, i, n) ==>
      && rows[i].assetId in catalog
      && rows[i].assetId in Stamp(catalog, rows, n).value
      && Stamp(catalog, rows, n).value[rows[i].assetId]
         == catalog[rows[i].assetId].(count := Some(rows[i].count))
  {
    if n > 0 {
      StampOk(catalog, rows, n - 1, i);
      if LastCountRowBefore(rows, i, n) && i < n - 1 {
        assert LastCountRowBefore(rows, i, n - 1);
      }
    }
  }

  /**
   * get_all_relevant_titles end to end: it fails with KeyError exactly when a
   * count row names an asset id no library row has; otherwise its keys are
   * the count rows' asset ids, and the entry of an id carries the title and
   * author of the last library row with that id and the count of the last
   * count row with that id.
   */
  lemma RelevantTitlesContents(countRows: seq<CountRow>, assetRows: seq<AssetRow>, i: int, j: int)
    ensures RelevantTitles(countRows, assetRows).KeyError? <==>
      exists k :: 0 <= k < |countRows| && countRows[k].assetId !in AssetIds(assetRows)
    ensures RelevantTitles(countRows, assetRows).Ok? ==>
      RelevantTitles(countRows, assetRows).value.Keys == CountIds(countRows)
    ensures RelevantTitles(countRows, assetRows).Ok?
      && LastCountRowBefore(countRows, i, |countRows|)
      && LastAssetRowBefore(assetRows, j, |assetRows|)
      && assetRows[j].assetId == countRows[i].assetId
      ==> (countRows[i].assetId in RelevantTitles(countRows, assetRows).value
           && RelevantTitles(countRows, assetRows).value[countRows[i].assetId]
              == TitleEntry(assetRows[j].title, assetRows[j].author, Some(countRows[i].count)))
  {
    var catalog := AllTitles(assetRows);
    FillKeys(map[], assetRows, |assetRows|, NewEntry);
    StampKeyError(catalog, countRows, |countRows|);
    if RelevantTitles(countRows, assetRows).Ok? {
      StampOk(catalog, countRows, |countRows|, i);
      if LastAssetRowBefore(assetRows, j, |assetRows|) {
        FillLastWins(map[], assetRows, |assetRows|, NewEntry, j);
      }
    }
  }

  // ---------------------------------------------------------------------------
  // get_asset_title_tab
  // ---------------------------------------------------------------------------

  /** The [title, author] pair get_asset_title_tab stores for a library row. */
  function PairOf(row: AssetRow): TitleAuthor
  {
    TitleAuthor(row.title, row.author)
  }

  /**
   * The module-level table asset_title_tab, which get_asset_title_tab fills
   * in place from the library rows and returns.
   */
  class AssetTitleTab {
    var tab: map<string, TitleAuthor>

    /** The table starts empty when the script is loaded. */
    constructor ()
      ensures tab == map[]
    {
      tab := map[];
    }

    /**
     * get_asset_title_tab: writes [title, author] under the asset id of every
     * library row in order, into the table as it stands, and returns the table.
     * The table then holds its old keys and the rows' ids, the last row wins
     * for a repeated id, and every entry no row names is kept.
     */
    method GetAssetTitleTab(rows: seq<AssetRow>) returns (result: map<string, TitleAuthor>)
      modifies this
      ensures tab == Fill(old(tab), rows, |rows|, PairOf)
      ensures tab.Keys == old(tab).Keys + AssetIds(rows)
      ensures forall i :: LastAssetRowBefore(rows, i, |rows|) ==>
        rows[i].assetId in tab && tab[rows[i].assetId] == TitleAuthor(rows[i].title, rows[i].author)
      ensures forall id :: id in old(tab) && id !in AssetIds(rows) ==> tab[id] == old(tab)[id]
      ensures result == tab
    {
      ghost var tab0 := tab;
      for n := 0 to |rows|
        invariant tab == Fill(tab0, rows, n, PairOf)
      {
        var r := rows[n];
        tab := tab[r.assetId := TitleAuthor(r.title, r.author)];
      }
      FillKeys(tab0, rows, |rows|, PairOf);
      forall i | LastAssetRowBefore(rows, i, |rows|)
        ensures rows[i].assetId in tab && tab[rows[i].assetId] == TitleAuthor(rows[i].title, rows[i].author)
      {
        FillLastWins(tab0, rows, |rows|, PairOf, i);
      }
      forall id | id in tab0 && id !in AssetIds(rows)
        ensures tab[id] == tab0[id]
      {
        FillKeepsOthers(tab0, rows, |rows|, PairOf, id);
      }
      result := tab;
    }
  }
}
