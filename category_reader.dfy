/**
 * The category reader: a cache from category keys to node ids and to localized
 * URLs, each map filled from a bulk query on a lookup that finds it empty, or
 * directly by `AddCategory`.
 *
 * The bulk queries are parameters: the rows they would return, in query order.
 * The three failures all throw the same exception class in the source; here they
 * are the three constructors of `CategoryByKeyNotFound`, one per message.
 */
module CategoryReader {
  import opened Wrappers

  /** The value cached per key: the category id and the node id. */
  datatype CategoryKeyEntry = CategoryKeyEntry(idCategory: int, idCategoryNode: int)

  /** One cached URL of a category, with its locale. */
  datatype LocalizedUrl = LocalizedUrl(idLocale: int, url: string)

  /** A category node as `AddCategory` reads it: its id and its URLs. */
  datatype CategoryNodeEntity = CategoryNodeEntity(idCategoryNode: int, urls: seq<LocalizedUrl>)

  /** A category as `AddCategory` reads it: its key, its id and its nodes in order. */
  datatype CategoryEntity = CategoryEntity(categoryKey: string, idCategory: int, nodes: seq<CategoryNodeEntity>)

  /** A row of the category query joined with its nodes: the key, the id and the id of the first node. */
  datatype CategoryRow = CategoryRow(categoryKey: string, idCategory: int, idFirstCategoryNode: int)

  /**
   * A row of the URL query (URLs with a category node reference): `ownerKey` is
   * the key of the category owning that node, `None` when the node cannot be loaded.
   */
  datatype UrlRow = UrlRow(ownerKey: Option<string>, idLocale: int, url: string)

  /** `CategoryByKeyNotFoundException`, one constructor per message. */
  datatype CategoryByKeyNotFound =
    | KeyNotFound(categoryKey: string)
    | UrlKeyNotFound(categoryKey: string)
    | UrlLocaleNotFound(categoryKey: string, idLocale: int)

  type KeyMap = map<string, CategoryKeyEntry>
  type UrlMap = map<string, seq<LocalizedUrl>>

  // ---------------------------------------------------------------------------
  // Category keys
  // ---------------------------------------------------------------------------

  function EntryOf(row: CategoryRow): CategoryKeyEntry {
    CategoryKeyEntry(row.idCategory, row.idFirstCategoryNode)
  }

  /** The foreach of the key load, from map `keys` on: each row overwrites its key's entry. */
  function LoadKeys(keys: KeyMap, rows: seq<CategoryRow>): KeyMap
    decreases |rows|
  {
    if rows == [] then keys
    else LoadKeys(keys[rows[0].categoryKey := EntryOf(rows[0])], rows[1..])
  }

  /** The key map after a lookup: loaded only when it is empty. */
  function KeysAfterLookup(keys: KeyMap, rows: seq<CategoryRow>): KeyMap {
    if |keys| == 0 then LoadKeys(keys, rows) else keys
  }

  /** The key load adds the key of every row and no other key. */
  lemma {:induction false} LoadKeysDomain(keys: KeyMap, rows: seq<CategoryRow>)
    ensures forall k :: k in LoadKeys(keys, rows) <==>
              k in keys || exists i :: 0 <= i < |rows| && rows[i].categoryKey == k
    decreases |rows|
  {
    if rows != [] {
      var next := keys[rows[0].categoryKey := EntryOf(rows[0])];
      var rest := rows[1..];
      LoadKeysDomain(next, rest);
      assert LoadKeys(keys, rows) == LoadKeys(next, rest);
      forall k | k in LoadKeys(keys, rows)
        ensures k in keys || exists i :: 0 <= i < |rows| && rows[i].categoryKey == k
      {
        if k !in keys && k != rows[0].categoryKey {
          assert k !in next;
          var i :| 0 <= i < |rest| && rest[i].categoryKey == k;
          assert rows[i + 1].categoryKey == k;
        }
      }
      forall k | k in keys || exists i :: 0 <= i < |rows| && rows[i].categoryKey == k
        ensures k in LoadKeys(keys, rows)
      {
        if k !in keys && k != rows[0].categoryKey {
          var i :| 0 <= i < |rows| && rows[i].categoryKey == k;
          assert rest[i - 1].categoryKey == k;
        }
      }
    }
  }

  /** A key that no row names keeps its old entry. */
  lemma {:induction false} LoadKeysKeepsOthers(keys: KeyMap, rows: seq<CategoryRow>, k: string)
    requires k in keys
    requires forall i :: 0 <= i < |rows| ==> rows[i].categoryKey != k
    ensures k in LoadKeys(keys, rows) && LoadKeys(keys, rows)[k] == keys[k]
    decreases |rows|
  {
    if rows != [] {
      var next := keys[rows[0].categoryKey := EntryOf(rows[0])];
      var rest := rows[1..];
      assert forall i :: 0 <= i < |rest| ==> rest[i] == rows[i + 1];
      LoadKeysKeepsOthers(next, rest, k);
    }
  }

  /** A row's key ends up with that row's entry when no later row names the same key: the last row wins. */
  lemma {:induction false} LoadKeysLastWins(keys: KeyMap, rows: seq<CategoryRow>, i: int)
    requires 0 <= i < |rows|
    requires forall j :: i < j < |rows| ==> rows[j].categoryKey != rows[i].categoryKey
    ensures rows[i].categoryKey in LoadKeys(keys, rows)
    ensures LoadKeys(keys, rows)[rows[i].categoryKey] == EntryOf(rows[i])
    decreases |rows|
  {
    var next := keys[rows[0].categoryKey := EntryOf(rows[0])];
    var rest := rows[1..];
    assert forall j :: 0 <= j < |rest| ==> rest[j] == rows[j + 1];
    if i == 0 {
      LoadKeysKeepsOthers(next, rest, rows[0].categoryKey);
    } else {
      LoadKeysLastWins(next, rest, i - 1);
    }
  }

  /**
   * Once a lookup has loaded a non-empty result, no later lookup loads again,
   * whatever the database then holds.
   */
  lemma KeyLoadRunsOnce(keys: KeyMap, rows: seq<CategoryRow>, laterRows: seq<CategoryRow>)
    requires rows != []
    ensures var loaded := KeysAfterLookup(keys, rows);
            |loaded| != 0 && KeysAfterLookup(loaded, laterRows) == loaded
  {
    var loaded := KeysAfterLookup(keys, rows);
    if |keys| == 0 {
      LoadKeysDomain(keys, rows);
      var k := rows[0].categoryKey;
      assert rows[0].categoryKey == k;
      assert k in loaded;
      assert loaded.Keys != {};
    }
  }

  // ---------------------------------------------------------------------------
  // Category URLs
  // ---------------------------------------------------------------------------

  /** The URL list of `key`, the empty list when the key is absent. */
  function UrlsOrEmpty(urls: UrlMap, key: string): seq<LocalizedUrl> {
    if key in urls then urls[key] else []
  }

  function LocalizedUrlOf(row: UrlRow): LocalizedUrl {
    LocalizedUrl(row.idLocale, row.url)
  }

  /**
   * The foreach of the URL load, from map `urls` on: each row is appended to its
   * key's list; the first row whose node cannot be loaded ends the whole load.
   */
  function LoadUrls(urls: UrlMap, rows: seq<UrlRow>): UrlMap
    decreases |rows|
  {
    if rows == [] then urls
    else match rows[0].ownerKey
      case None => urls
      case Some(key) => LoadUrls(urls[key := UrlsOrEmpty(urls, key) + [LocalizedUrlOf(rows[0])]], rows[1..])
  }

  /** The URL map after a lookup: loaded only when it is empty. */
  function UrlsAfterLookup(urls: UrlMap, rows: seq<UrlRow>): UrlMap {
    if |urls| == 0 then LoadUrls(urls, rows) else urls
  }

  /** The rows before the first one whose node cannot be loaded. */
  function LoadableRows(rows: seq<UrlRow>): (r: seq<UrlRow>)
    ensures r <= rows
    ensures forall i :: 0 <= i < |r| ==> r[i].ownerKey.Some?
    ensures |r| < |rows| ==> rows[|r|].ownerKey.None?
  {
    if rows == [] || rows[0].ownerKey.None? then []
    else [rows[0]] + LoadableRows(rows[1..])
  }

  /** The URLs of the rows owned by `key`, in row order. */
  function UrlsOwnedBy(rows: seq<UrlRow>, key: string): (r: seq<LocalizedUrl>)
    ensures forall u :: u in r <==>
              exists i :: 0 <= i < |rows| && rows[i].ownerKey == Some(key) && LocalizedUrlOf(rows[i]) == u
  {
    if rows == [] then []
    else
      var rest := UrlsOwnedBy(rows[1..], key);
      assert forall i :: 1 <= i < |rows| ==> rows[i] == rows[1..][i - 1];
      (if rows[0].ownerKey == Some(key) then [LocalizedUrlOf(rows[0])] else []) + rest
  }

  /**
   * After the URL load each key's list is its old list (or the empty list)
   * followed by the URLs it owns among the rows before the first unloadable one,
   * in row order; a key is present iff it was or some such row is its own.
   */
  lemma {:induction false} LoadUrlsContents(urls: UrlMap, rows: seq<UrlRow>)
    ensures forall key :: UrlsOrEmpty(LoadUrls(urls, rows), key)
                          == UrlsOrEmpty(urls, key) + UrlsOwnedBy(LoadableRows(rows), key)
    ensures forall key :: key in LoadUrls(urls, rows) <==>
                          key in urls || UrlsOwnedBy(LoadableRows(rows), key) != []
    decreases |rows|
  {
    if rows != [] && rows[0].ownerKey.Some? {
      var owner := rows[0].ownerKey.value;
      var next := urls[owner := UrlsOrEmpty(urls, owner) + [LocalizedUrlOf(rows[0])]];
      var rest := rows[1..];
      LoadUrlsContents(next, rest);
      assert LoadableRows(rows) == [rows[0]] + LoadableRows(rest);
      assert ([rows[0]] + LoadableRows(rest))[1..] == LoadableRows(rest);
      forall key
        ensures UrlsOrEmpty(LoadUrls(urls, rows), key)
                == UrlsOrEmpty(urls, key) + UrlsOwnedBy(LoadableRows(rows), key)
      {
        if key == owner {
          assert UrlsOwnedBy(LoadableRows(rows), key)
                 == [LocalizedUrlOf(rows[0])] + UrlsOwnedBy(LoadableRows(rest), key);
        } else {
          assert UrlsOwnedBy(LoadableRows(rows), key) == UrlsOwnedBy(LoadableRows(rest), key);
        }
      }
      forall key
        ensures key in LoadUrls(urls, rows) <==> key in urls || UrlsOwnedBy(LoadableRows(rows), key) != []
      {
        if key == owner {
          assert UrlsOwnedBy(LoadableRows(rows), key) != [];
        } else {
          assert UrlsOwnedBy(LoadableRows(rows), key) == UrlsOwnedBy(LoadableRows(rest), key);
        }
      }
    }
  }

  /**
   * Once a lookup has loaded at least one URL, no later lookup loads again,
   * whatever the database then holds.
   */
  lemma UrlLoadRunsOnce(urls: UrlMap, rows: seq<UrlRow>, laterRows: seq<UrlRow>)
    requires LoadableRows(rows) != []
    ensures var loaded := UrlsAfterLookup(urls, rows);
            |loaded| != 0 && UrlsAfterLookup(loaded, laterRows) == loaded
  {
    var loaded := UrlsAfterLookup(urls, rows);
    if |urls| == 0 {
      LoadUrlsContents(urls, rows);
      var first := LoadableRows(rows)[0];
      var owner := first.ownerKey.value;
      var u := LocalizedUrlOf(first);
      assert first.ownerKey == Some(owner);
      assert u in UrlsOwnedBy(LoadableRows(rows), owner);
      assert owner in loaded;
      assert loaded.Keys != {};
    }
  }

  /** A cache that `AddCategory` has filled is never bulk-loaded by a key lookup. */
  lemma AddedCategorySuppressesKeyLoad(keys: KeyMap, key: string, entry: CategoryKeyEntry, rows: seq<CategoryRow>)
    ensures KeysAfterLookup(keys[key := entry], rows) == keys[key := entry]
  {
  }

  /**
   * A load that stores nothing (no rows, or an unloadable first row) leaves the
   * map empty, so the next lookup loads again.
   */
  lemma EmptyUrlLoadIsRetried(rows: seq<UrlRow>, laterRows: seq<UrlRow>)
    requires LoadableRows(rows) == []
    ensures UrlsAfterLookup(UrlsAfterLookup(map[], rows), laterRows) == UrlsAfterLookup(map[], laterRows)
  {
  }

  /** Two rows for key "a": the later one wins. */
  lemma ExampleKeyLoadLastWins()
    ensures LoadKeys(map[], [CategoryRow("a", 1, 10), CategoryRow("a", 2, 20)]) == map["a" := CategoryKeyEntry(2, 20)]
  {
  }

  /** The load stops at the unloadable second row: key "b" of the third row is not loaded. */
  lemma ExampleUrlLoadStopsAtUnloadableRow()
    ensures LoadUrls(map[], [UrlRow(Some("a"), 1, "/a"), UrlRow(None, 1, "/x"), UrlRow(Some("b"), 1, "/b")])
            == map["a" := [LocalizedUrl(1, "/a")]]
  {
    var rows := [UrlRow(Some("a"), 1, "/a"), UrlRow(None, 1, "/x"), UrlRow(Some("b"), 1, "/b")];
    var empty: UrlMap := map[];
    var afterFirst := map["a" := [LocalizedUrl(1, "/a")]];
    assert rows[0].ownerKey == Some("a");
    assert UrlsOrEmpty(empty, "a") + [LocalizedUrlOf(rows[0])] == [LocalizedUrl(1, "/a")];
    assert empty["a" := [LocalizedUrl(1, "/a")]] == afterFirst;
    assert LoadUrls(map[], rows) == LoadUrls(afterFirst, rows[1..]);
    assert rows[1..][0].ownerKey == None;
    assert LoadUrls(afterFirst, rows[1..]) == afterFirst;
  }

  /** The first URL in `entries` whose locale is `idLocale`. */
  function FirstUrlForLocale(entries: seq<LocalizedUrl>, idLocale: int): (r: Option<string>)
    ensures r == None <==> forall i :: 0 <= i < |entries| ==> entries[i].idLocale != idLocale
    ensures r.Some? ==> exists i :: 0 <= i < |entries| && entries[i] == LocalizedUrl(idLocale, r.value)
                                    && forall j :: 0 <= j < i ==> entries[j].idLocale != idLocale
  {
    if entries == [] then None
    else if entries[0].idLocale == idLocale then Some(entries[0].url)
    else
      var r := FirstUrlForLocale(entries[1..], idLocale);
      assert forall i :: 1 <= i < |entries| ==> entries[i] == entries[1..][i - 1];
      r
  }

  /** What a URL lookup in map `urls` returns: the URL, or one of the two failures. */
  function ParentUrlOf(urls: UrlMap, categoryKey: string, idLocale: int): (r: Result<string, CategoryByKeyNotFound>)
    ensures categoryKey !in urls ==> r == Err(UrlKeyNotFound(categoryKey))
    ensures categoryKey in urls && r.Err? ==>
              r.error == UrlLocaleNotFound(categoryKey, idLocale)
              && forall e :: e in urls[categoryKey] ==> e.idLocale != idLocale
    ensures r.Ok? ==> categoryKey in urls && FirstUrlForLocale(urls[categoryKey], idLocale) == Some(r.value)
  {
    if categoryKey !in urls then Err(UrlKeyNotFound(categoryKey))
    else match FirstUrlForLocale(urls[categoryKey], idLocale)
      case Some(url) => Ok(url)
      case None => Err(UrlLocaleNotFound(categoryKey, idLocale))
  }

  /** The URLs of all nodes of a category, node by node, each node's URLs in order. */
  function UrlsOfNodes(nodes: seq<CategoryNodeEntity>): (r: seq<LocalizedUrl>)
    ensures forall u :: u in r <==> exists i :: 0 <= i < |nodes| && u in nodes[i].urls
  {
    if nodes == [] then []
    else
      var rest := UrlsOfNodes(nodes[1..]);
      assert forall i :: 1 <= i < |nodes| ==> nodes[i] == nodes[1..][i - 1];
      nodes[0].urls + rest
  }

  lemma {:induction false} UrlsOfNodesAppend(nodes: seq<CategoryNodeEntity>, node: CategoryNodeEntity)
    ensures UrlsOfNodes(nodes + [node]) == UrlsOfNodes(nodes) + node.urls
  {
    if nodes == [] {
      assert nodes + [node] == [node];
    } else {
      assert (nodes + [node])[1..] == nodes[1..] + [node];
      UrlsOfNodesAppend(nodes[1..], node);
    }
  }

  // ---------------------------------------------------------------------------
  // The reader
  // ---------------------------------------------------------------------------

  class CategoryReader {
    var categoryKeys: KeyMap
    var categoryUrls: UrlMap

    constructor ()
      ensures categoryKeys == map[] && categoryUrls == map[]
    {
      categoryKeys := map[];
      categoryUrls := map[];
    }

    /** Caches `category` under its key with node `node`, and all its nodes' URLs. */
    method AddCategory(category: CategoryEntity, node: CategoryNodeEntity)
      modifies this
      ensures categoryKeys == old(categoryKeys)[category.categoryKey := CategoryKeyEntry(category.idCategory, node.idCategoryNode)]
      ensures categoryUrls == old(categoryUrls)[category.categoryKey := UrlsOfNodes(category.nodes)]
    {
      categoryKeys := categoryKeys[category.categoryKey := CategoryKeyEntry(category.idCategory, node.idCategoryNode)];
      var urls: seq<LocalizedUrl> := [];
      var nodes := category.nodes;
      for i := 0 to |nodes|
        invariant urls == UrlsOfNodes(nodes[..i])
        invariant categoryKeys == old(categoryKeys)[category.categoryKey := CategoryKeyEntry(category.idCategory, node.idCategoryNode)]
        invariant categoryUrls == old(categoryUrls)
      {
        var nodeUrls := nodes[i].urls;
        for j := 0 to |nodeUrls|
          invariant urls == UrlsOfNodes(nodes[..i]) + nodeUrls[..j]
          invariant categoryKeys == old(categoryKeys)[category.categoryKey := CategoryKeyEntry(category.idCategory, node.idCategoryNode)]
          invariant categoryUrls == old(categoryUrls)
        {
          urls := urls + [nodeUrls[j]];
          assert nodeUrls[..j + 1] == nodeUrls[..j] + [nodeUrls[j]];
        }
        assert nodes[..i + 1] == nodes[..i] + [nodes[i]];
        assert nodeUrls[..|nodeUrls|] == nodeUrls;
        UrlsOfNodesAppend(nodes[..i], nodes[i]);
      }
      assert nodes[..|nodes|] == nodes;
      categoryUrls := categoryUrls[category.categoryKey := urls];
    }

    method GetIdCategoryNodeByCategoryKey(categoryKey: string, categoryRows: seq<CategoryRow>)
      returns (r: Result<int, CategoryByKeyNotFound>)
      modifies this
      ensures categoryKeys == KeysAfterLookup(old(categoryKeys), categoryRows)
      ensures categoryUrls == old(categoryUrls)
      ensures categoryKey in categoryKeys ==> r == Ok(categoryKeys[categoryKey].idCategoryNode)
      ensures categoryKey !in categoryKeys ==> r == Err(KeyNotFound(categoryKey))
    {
      if |categoryKeys| == 0 {
        LoadCategoryKeys(categoryRows);
      }
      if categoryKey !in categoryKeys {
        return Err(KeyNotFound(categoryKey));
      }
      r := Ok(categoryKeys[categoryKey].idCategoryNode);
    }

    method LoadCategoryKeys(categoryRows: seq<CategoryRow>)
      modifies this
      ensures categoryKeys == LoadKeys(old(categoryKeys), categoryRows)
      ensures categoryUrls == old(categoryUrls)
    {
      for i := 0 to |categoryRows|
        invariant LoadKeys(categoryKeys, categoryRows[i..]) == LoadKeys(old(categoryKeys), categoryRows)
        invariant categoryUrls == old(categoryUrls)
      {
        var row := categoryRows[i];
        assert categoryRows[i..][1..] == categoryRows[i + 1..];
        categoryKeys := categoryKeys[row.categoryKey := CategoryKeyEntry(row.idCategory, row.idFirstCategoryNode)];
      }
    }

    method GetParentUrl(categoryKey: string, idLocale: int, urlRows: seq<UrlRow>)
      returns (r: Result<string, CategoryByKeyNotFound>)
      modifies this
      ensures categoryUrls == UrlsAfterLookup(old(categoryUrls), urlRows)
      ensures categoryKeys == old(categoryKeys)
      ensures r == ParentUrlOf(categoryUrls, categoryKey, idLocale)
    {
      if |categoryUrls| == 0 {
        LoadCategoryUrls(urlRows);
      }
      if categoryKey !in categoryUrls {
        return Err(UrlKeyNotFound(categoryKey));
      }
      var entries := categoryUrls[categoryKey];
      for i := 0 to |entries|
        invariant FirstUrlForLocale(entries[i..], idLocale) == FirstUrlForLocale(entries, idLocale)
      {
        assert entries[i..][1..] == entries[i + 1..];
        if entries[i].idLocale == idLocale {
          return Ok(entries[i].url);
        }
      }
      r := Err(UrlLocaleNotFound(categoryKey, idLocale));
    }

    method LoadCategoryUrls(urlRows: seq<UrlRow>)
      modifies this
      ensures categoryUrls == LoadUrls(old(categoryUrls), urlRows)
      ensures categoryKeys == old(categoryKeys)
    {
      for i := 0 to |urlRows|
        invariant LoadUrls(categoryUrls, urlRows[i..]) == LoadUrls(old(categoryUrls), urlRows)
        invariant categoryKeys == old(categoryKeys)
      {
        var row := urlRows[i];
        assert urlRows[i..][1..] == urlRows[i + 1..];
        if row.ownerKey.None? {
          return;
        }
        var key := row.ownerKey.value;
        ghost var before := categoryUrls;
        if key !in categoryUrls {
          categoryUrls := categoryUrls[key := []];
        }
        categoryUrls := categoryUrls[key := categoryUrls[key] + [LocalizedUrl(row.idLocale, row.url)]];
        assert categoryUrls == before[key := UrlsOrEmpty(before, key) + [LocalizedUrlOf(row)]];
      }
    }
  }
}
