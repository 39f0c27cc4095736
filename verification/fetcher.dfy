/** Reading items from the configuration store: point reads of a list of
    keys, or a paged listing of every key when no key is named. The remote
    store is a value of type `Backend`: a pure point-read function and a
    pure listing function returning the pages the pager would yield. */
module Fetcher {
  import opened Wrappers

  const LabelKey := "label"
  const Wildcard := "*"

  datatype BackendError = NotFound | Transport(message: string)

  /** What the store reports for one key: its value and, when it has one, its label. */
  datatype Setting = Setting(value: string, reportedLabel: Option<string>)
  datatype ListedSetting = ListedSetting(key: string, setting: Setting)
  datatype Selector = Selector(keyFilter: string, labelFilter: string)
  type Page = Result<seq<ListedSetting>, BackendError>

  datatype Backend = Backend(
    getSetting: (string, Option<string>) -> Result<Setting, BackendError>,
    listSettings: Selector -> seq<Page>)

  /** A configuration item handed back to the caller. */
  datatype Item = Item(value: string, metadata: map<string, string>)

  /** Point-read failures are passed on unchanged; a listing failure is wrapped. */
  datatype FetchError = ReadFailed(cause: BackendError) | ListFailed(cause: BackendError)

  /** The keys the listed settings carry. */
  function KeysOf(settings: seq<ListedSetting>): set<string> {
    if |settings| == 0 then {} else KeysOf(settings[..|settings| - 1]) + {settings[|settings| - 1].key}
  }

  /** The label filter a request asks for: its non-empty "label" metadata entry. */
  function LabelFromMetadata(md: map<string, string>): (r: Option<string>)
    ensures r.Some? <==> LabelKey in md && md[LabelKey] != ""
    ensures r.Some? ==> r.value == md[LabelKey]
  {
    if LabelKey in md && md[LabelKey] != "" then Some(md[LabelKey]) else None
  }

  /** The item built from what the store reported: its value, and a "label"
      metadata entry exactly when the store reported a label. */
  function ItemOf(s: Setting): (item: Item)
    ensures item.value == s.value
    ensures item.metadata.Keys <= {LabelKey}
    ensures LabelKey in item.metadata <==> s.reportedLabel.Some?
    ensures s.reportedLabel.Some? ==> item.metadata[LabelKey] == s.reportedLabel.value
  {
    var metadata := map[];
    Item(s.value, if s.reportedLabel.Some? then metadata[LabelKey := s.reportedLabel.value] else metadata)
  }

  // ----- point reads -----

  /** `items` holds exactly the requested keys, each with the item of its point read. */
  ghost predicate ReadsAll(b: Backend, keys: seq<string>, labelFilter: Option<string>, items: map<string, Item>) {
    && items.Keys == KeySet(keys)
    && forall k :: k in items ==> b.getSetting(k, labelFilter).Success? && items[k] == ItemOf(b.getSetting(k, labelFilter).value)
  }

  /** `e` is the error of the first requested key whose point read fails. */
  ghost predicate FirstReadFailure(b: Backend, keys: seq<string>, labelFilter: Option<string>, e: BackendError) {
    exists i :: 0 <= i < |keys| && b.getSetting(keys[i], labelFilter) == Failure(e)
                && forall j :: 0 <= j < i ==> b.getSetting(keys[j], labelFilter).Success?
  }

  /** Reads the keys one by one in request order and stops at the first failure. */
  function ReadKeys(b: Backend, keys: seq<string>, labelFilter: Option<string>): (r: Result<map<string, Item>, BackendError>)
    ensures r.Success? <==> forall i :: 0 <= i < |keys| ==> b.getSetting(keys[i], labelFilter).Success?
    ensures r.Success? ==> ReadsAll(b, keys, labelFilter, r.value)
    ensures r.Failure? ==> FirstReadFailure(b, keys, labelFilter, r.error)
  {
    if |keys| == 0 then Success(map[])
    else
      var front := keys[..|keys| - 1];
      var key := keys[|keys| - 1];
      assert forall i :: 0 <= i < |front| ==> front[i] == keys[i];
      assert KeySet(keys) == KeySet(front) + {key};
      var items :- ReadKeys(b, front, labelFilter);
      var s :- b.getSetting(key, labelFilter);
      Success(items[key := ItemOf(s)])
  }

  // ----- listing -----

  /** `i` is the last position at which its key occurs. */
  predicate LastOccurrence(settings: seq<ListedSetting>, i: int)
    requires 0 <= i < |settings|
  {
    forall j :: i < j < |settings| ==> settings[j].key != settings[i].key
  }

  /** `items` is what a listing of `settings` yields: every listed key, each
      with the item of its last listed setting. */
  ghost predicate IsListing(settings: seq<ListedSetting>, items: map<string, Item>) {
    && items.Keys == KeysOf(settings)
    && forall i :: 0 <= i < |settings| && LastOccurrence(settings, i) ==>
         settings[i].key in items && items[settings[i].key] == ItemOf(settings[i].setting)
  }

  /** `r` is `items` with `settings` added one by one: every listed key is
      present with the item of its last listed setting, and every other entry
      of `items` is kept. */
  ghost predicate AbsorbedInto(items: map<string, Item>, settings: seq<ListedSetting>, r: map<string, Item>) {
    && r.Keys == items.Keys + KeysOf(settings)
    && (forall k :: k in items && k !in KeysOf(settings) ==> k in r && r[k] == items[k])
    && (forall i :: 0 <= i < |settings| && LastOccurrence(settings, i) ==>
          settings[i].key in r && r[settings[i].key] == ItemOf(settings[i].setting))
  }

  /** Adding one more setting keeps `AbsorbedInto`. */
  lemma AbsorbStep(items: map<string, Item>, settings: seq<ListedSetting>, r: map<string, Item>)
    requires |settings| > 0
    requires AbsorbedInto(items, settings[..|settings| - 1], r)
    ensures AbsorbedInto(items, settings, r[settings[|settings| - 1].key := ItemOf(settings[|settings| - 1].setting)])
  {
    var front := settings[..|settings| - 1];
    var s := settings[|settings| - 1];
    assert forall i :: 0 <= i < |front| ==> front[i] == settings[i];
    forall i | 0 <= i < |front| && LastOccurrence(settings, i)
      ensures LastOccurrence(front, i) && settings[i].key != s.key
    {
    }
  }

  /** Adds the settings one by one to `items`, a later one replacing an earlier one with the same key. */
  function Absorb(items: map<string, Item>, settings: seq<ListedSetting>): (r: map<string, Item>)
    ensures AbsorbedInto(items, settings, r)
  {
    if |settings| == 0 then items
    else
      var s := settings[|settings| - 1];
      var r := Absorb(items, settings[..|settings| - 1]);
      AbsorbStep(items, settings, r);
      r[s.key := ItemOf(s.setting)]
  }

  predicate PagesOk(pages: seq<Page>) {
    forall i :: 0 <= i < |pages| ==> pages[i].Success?
  }

  /** The settings of the successful pages, in page order. */
  function Listed(pages: seq<Page>): seq<ListedSetting> {
    if |pages| == 0 then []
    else Listed(pages[..|pages| - 1]) + (if pages[|pages| - 1].Success? then pages[|pages| - 1].value else [])
  }

  /** `e` is the error of the first failing page. */
  ghost predicate FirstPageFailure(pages: seq<Page>, e: BackendError) {
    exists i :: 0 <= i < |pages| && pages[i] == Failure(e) && forall j :: 0 <= j < i ==> pages[j].Success?
  }

  /** The keys of two listings one after the other are the keys of both. */
  lemma {:induction false} KeysOfAppend(a: seq<ListedSetting>, b: seq<ListedSetting>)
    ensures KeysOf(a + b) == KeysOf(a) + KeysOf(b)
    decreases |b|
  {
    var ab := a + b;
    if |b| == 0 {
      assert ab == a;
    } else {
      KeysOfAppend(a, b[..|b| - 1]);
      assert ab[..|ab| - 1] == a + b[..|b| - 1];
    }
  }

  /** A key no listed setting carries is not among the listed keys. */
  lemma {:induction false} KeysOfOnly(settings: seq<ListedSetting>, k: string)
    requires forall j :: 0 <= j < |settings| ==> settings[j].key != k
    ensures k !in KeysOf(settings)
    decreases |settings|
  {
    if |settings| > 0 {
      var front := settings[..|settings| - 1];
      assert forall j :: 0 <= j < |front| ==> front[j] == settings[j];
      KeysOfOnly(front, k);
    }
  }

  /** The last occurrence of a key in `a + b` that lies in `a` is its last
      occurrence in `a`, and `b` does not list that key. */
  lemma LastInFront(a: seq<ListedSetting>, b: seq<ListedSetting>, i: nat)
    requires i < |a| && LastOccurrence(a + b, i)
    ensures LastOccurrence(a, i) && a[i].key !in KeysOf(b)
  {
    var ab := a + b;
    forall j | i < j < |a|
      ensures a[j].key != a[i].key
    {
      assert ab[j] == a[j];
    }
    forall j | 0 <= j < |b|
      ensures b[j].key != a[i].key
    {
      assert ab[|a| + j] == b[j];
    }
    KeysOfOnly(b, a[i].key);
  }

  /** The last occurrence of a key in `a + b` that lies in `b` is its last occurrence in `b`. */
  lemma LastInBack(a: seq<ListedSetting>, b: seq<ListedSetting>, i: nat)
    requires |a| <= i < |a + b| && LastOccurrence(a + b, i)
    ensures LastOccurrence(b, i - |a|)
  {
    var ab := a + b;
    forall j | i - |a| < j < |b|
      ensures b[j].key != b[i - |a|].key
    {
      assert ab[|a| + j] == b[j];
    }
  }

  /** A listing followed by more settings added one by one is the listing of
      everything, in order. */
  lemma ListingExtend(a: seq<ListedSetting>, m: map<string, Item>, b: seq<ListedSetting>, r: map<string, Item>)
    requires IsListing(a, m)
    requires AbsorbedInto(m, b, r)
    ensures IsListing(a + b, r)
  {
    var ab := a + b;
    KeysOfAppend(a, b);
    forall i | 0 <= i < |ab| && LastOccurrence(ab, i)
      ensures ab[i].key in r && r[ab[i].key] == ItemOf(ab[i].setting)
    {
      if i < |a| {
        LastInFront(a, b, i);
        assert ab[i] == a[i];
      } else {
        LastInBack(a, b, i);
        assert ab[i] == b[i - |a|];
      }
    }
  }

  /** Fetches page after page, accumulating items; the first failing page ends
      the listing with its error and discards what was gathered. */
  function CollectPages(pages: seq<Page>): (r: Result<map<string, Item>, BackendError>)
    ensures r.Success? <==> PagesOk(pages)
    ensures r.Success? ==> IsListing(Listed(pages), r.value)
    ensures r.Failure? ==> FirstPageFailure(pages, r.error)
  {
    if |pages| == 0 then Success(map[])
    else
      var front := pages[..|pages| - 1];
      assert forall i :: 0 <= i < |front| ==> front[i] == pages[i];
      match CollectPages(front)
      case Failure(e) =>
        assert FirstPageFailure(pages, e);
        Failure(e)
      case Success(items) =>
        match pages[|pages| - 1]
        case Failure(e) =>
          assert pages[|pages| - 1] == Failure(e);
          Failure(e)
        case Success(page) =>
          var all := Absorb(items, page);
          ListingExtend(Listed(front), items, page, all);
          Success(all)
  }

  /** The selector of a full listing: every key, under the requested label or under every label. */
  function ListSelector(md: map<string, string>): (s: Selector)
    ensures s.keyFilter == Wildcard
    ensures LabelFromMetadata(md).Some? ==> s.labelFilter == md[LabelKey]
    ensures LabelFromMetadata(md).None? ==> s.labelFilter == Wildcard
  {
    Selector(Wildcard, LabelFromMetadata(md).GetOr(Wildcard))
  }

  function GetAll(b: Backend, md: map<string, string>): (r: Result<map<string, Item>, FetchError>)
    ensures r.Success? <==> PagesOk(b.listSettings(ListSelector(md)))
    ensures r.Success? ==> IsListing(Listed(b.listSettings(ListSelector(md))), r.value)
    ensures r.Failure? ==> r.error.ListFailed? && FirstPageFailure(b.listSettings(ListSelector(md)), r.error.cause)
  {
    match CollectPages(b.listSettings(ListSelector(md)))
    case Success(items) => Success(items)
    case Failure(e) => Failure(ListFailed(e))
  }

  /** The store's `Get`: an empty key list lists every key, otherwise each key is read. */
  function Get(b: Backend, keys: seq<string>, md: map<string, string>): (r: Result<map<string, Item>, FetchError>)
    ensures |keys| == 0 ==> (r.Success? <==> PagesOk(b.listSettings(ListSelector(md))))
    ensures |keys| == 0 && r.Success? ==> IsListing(Listed(b.listSettings(ListSelector(md))), r.value)
    ensures |keys| == 0 && r.Failure? ==>
              r.error.ListFailed? && FirstPageFailure(b.listSettings(ListSelector(md)), r.error.cause)
    ensures |keys| > 0 ==>
              (r.Success? <==> forall i :: 0 <= i < |keys| ==> b.getSetting(keys[i], LabelFromMetadata(md)).Success?)
    ensures |keys| > 0 && r.Success? ==> ReadsAll(b, keys, LabelFromMetadata(md), r.value)
    ensures |keys| > 0 && r.Failure? ==>
              r.error.ReadFailed? && FirstReadFailure(b, keys, LabelFromMetadata(md), r.error.cause)
  {
    if |keys| == 0 then GetAll(b, md)
    else
      match ReadKeys(b, keys, LabelFromMetadata(md))
      case Success(items) => Success(items)
      case Failure(e) => Failure(ReadFailed(e))
  }

  /** A listing stops at its first failing page: what later pages hold never matters. */
  lemma {:induction false} CollectPagesStopsAtFailure(pages: seq<Page>, i: nat)
    requires i < |pages| && pages[i].Failure?
    ensures CollectPages(pages) == CollectPages(pages[..i + 1])
    decreases |pages|
  {
    if i + 1 < |pages| {
      var front := pages[..|pages| - 1];
      assert front[i] == pages[i];
      CollectPagesStopsAtFailure(front, i);
      assert front[..i + 1] == pages[..i + 1];
    } else {
      assert pages[..i + 1] == pages;
    }
  }

  /** A store holding x = "1" and y = "2" under label "prod" and z = "3" under
      label "dev", listed in two pages when every label is asked for. */
  function ExampleListingStore(): Backend {
    var x := ListedSetting("x", Setting("1", Some("prod")));
    var y := ListedSetting("y", Setting("2", Some("prod")));
    var z := ListedSetting("z", Setting("3", Some("dev")));
    Backend(
      (k: string, l: Option<string>) => Failure(NotFound),
      (s: Selector) =>
        if s.labelFilter == "prod" then [Success([x, y])]
        else if s.labelFilter == "dev" then [Success([z])]
        else if s.labelFilter == Wildcard then [Success([x, y]), Success([z])]
        else [])
  }

  /** A full listing scoped to "prod" returns the two "prod" items; without a
      label it returns all three, each carrying its label. */
  lemma ExampleListing()
    ensures Get(ExampleListingStore(), [], map[LabelKey := "prod"]) == Success(map[
              "x" := Item("1", map[LabelKey := "prod"]),
              "y" := Item("2", map[LabelKey := "prod"])])
    ensures Get(ExampleListingStore(), [], map[]) == Success(map[
              "x" := Item("1", map[LabelKey := "prod"]),
              "y" := Item("2", map[LabelKey := "prod"]),
              "z" := Item("3", map[LabelKey := "dev"])])
  {
    var x := ListedSetting("x", Setting("1", Some("prod")));
    var y := ListedSetting("y", Setting("2", Some("prod")));
    var z := ListedSetting("z", Setting("3", Some("dev")));
    var prod := map[LabelKey := "prod"];
    var xy := Absorb(map[], [x, y]);
    assert [x, y][..1] == [x];
    assert Absorb(map[], [x]) == map["x" := Item("1", prod)];
    assert xy == map["x" := Item("1", prod), "y" := Item("2", prod)];
    assert ListSelector(prod) == Selector(Wildcard, "prod");
    var one: seq<Page> := [Success([x, y])];
    assert ExampleListingStore().listSettings(Selector(Wildcard, "prod")) == one;
    assert one[..0] == [];
    assert CollectPages(one) == Success(xy);
    assert ListSelector(map[]) == Selector(Wildcard, Wildcard);
    var pages: seq<Page> := [Success([x, y]), Success([z])];
    assert ExampleListingStore().listSettings(Selector(Wildcard, Wildcard)) == pages;
    assert pages[..1] == one;
    assert Absorb(xy, [z]) == xy["z" := Item("3", map[LabelKey := "dev"])];
    assert CollectPages(pages) == Success(Absorb(xy, [z]));
  }
}
