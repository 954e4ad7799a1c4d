/** The rarity report: a table from each layer's display name to one entry
    per element of that layer (its display name, its weight written without
    decimals, and how often it occurs), built from the layer configuration
    and then filled in from the attributes of the generated records. */
module Rarity {
  import opened Wrappers
  import opened JsText
  import opened Faults
  import opened Elements
  import opened Metadata

  /** `{trait, weight, occurrence}` for one element of a layer (`trait` is a
      reserved word here, hence `traitName`). */
  datatype RarityEntry = RarityEntry(traitName: string, weight: string, occurrence: nat)

  /** `rarityData`: display name of a layer to the entries of its elements. */
  type Table = map<string, seq<RarityEntry>>

  // ---------------------------------------------------------------------
  // Initialising the table
  // ---------------------------------------------------------------------

  /** The entries of a layer's elements in folder order, each with
      `occurrence: 0`; the first element without a display name throws. */
  function Entries(es: seq<Element>): (r: Result<seq<RarityEntry>, Fault>)
    ensures r.Success? <==> forall j :: 0 <= j < |es| ==> DisplayName(es[j].name).Success?
    ensures r.Success? ==> |r.value| == |es|
    // The fault names the first element without a display name.
    ensures r.Failure? ==> exists j ::
      && 0 <= j < |es| && r.error == NoDisplayName(es[j].name)
      && DisplayName(es[j].name).Failure?
      && forall m :: 0 <= m < j ==> DisplayName(es[m].name).Success?
    decreases |es|
  {
    if |es| == 0 then Success([])
    else
      var name := DisplayName(es[0].name);
      if name.Failure? then Failure(name.error)
      else
        var rest := Entries(es[1..]);
        assert forall j :: 1 <= j < |es| ==> es[1..][j - 1] == es[j];
        if rest.Failure? then rest
        else Success([RarityEntry(name.value, NatToString(es[0].weight), 0)] + rest.value)
  }

  /** Entry `j` is element `j`'s display name and weight, not yet seen. */
  lemma {:induction false} EntriesValues(es: seq<Element>)
    requires Entries(es).Success?
    ensures forall j :: 0 <= j < |es| ==>
      Entries(es).value[j] == RarityEntry(DisplayName(es[j].name).value, NatToString(es[j].weight), 0)
    decreases |es|
  {
    if |es| > 0 {
      var r := Entries(es).value;
      assert r[1..] == Entries(es[1..]).value;
      EntriesValues(es[1..]);
      forall j | 1 <= j < |es|
        ensures r[j] == RarityEntry(DisplayName(es[j].name).value, NatToString(es[j].weight), 0)
      {
        assert es[1..][j - 1] == es[j] && r[1..][j - 1] == r[j];
      }
    }
  }

  /** The elements the report reads for one layer entry. */
  function LayerElements(folders: Folders, layersDir: string, delimiter: char, lc: LayerConfig): seq<Element>
    requires lc.name in folders
  {
    GetElements(LayerDir(layersDir, lc.name), delimiter, folders[lc.name])
  }

  /** The entries of one layer entry: its folder must exist (`readdirSync`
      throws otherwise) and each of its elements needs a display name. */
  function LayerEntries(folders: Folders, layersDir: string, delimiter: char, lc: LayerConfig)
    : (r: Result<seq<RarityEntry>, Fault>)
    ensures r.Success? <==> lc.name in folders && Entries(LayerElements(folders, layersDir, delimiter, lc)).Success?
    ensures r.Success? ==> r == Entries(LayerElements(folders, layersDir, delimiter, lc))
    ensures r.Failure? ==> r.error == MissingFolder(lc.name) || r.error.NoDisplayName?
  {
    if lc.name !in folders then Failure(MissingFolder(lc.name))
    else Entries(LayerElements(folders, layersDir, delimiter, lc))
  }

  /** A layer entry the report can load. */
  predicate Loadable(folders: Folders, layersDir: string, delimiter: char, lc: LayerConfig) {
    LayerEntries(folders, layersDir, delimiter, lc).Success?
  }

  /** The display names of the layer entries. */
  function DisplayKeys(order: seq<LayerConfig>): (keys: set<string>)
    ensures forall k :: 0 <= k < |order| ==> DisplayKey(order[k]) in keys
    ensures forall key :: key in keys ==> exists k :: 0 <= k < |order| && DisplayKey(order[k]) == key
    decreases |order|
  {
    if |order| == 0 then {}
    else
      var rest := DisplayKeys(order[1..]);
      assert forall k :: 1 <= k < |order| ==> order[1..][k - 1] == order[k];
      {DisplayKey(order[0])} + rest
  }

  /** No layer entry after position `k` shares the display name of entry `k`. */
  predicate LastWithKey(order: seq<LayerConfig>, k: nat)
    requires k < |order|
  {
    DisplayKey(order[k]) !in DisplayKeys(order[k + 1..])
  }

  /** The initialisation loop over the layer entries in order. The guard
      `!rarityData.includes(layer.name)` looks among the array's elements,
      which stay empty (the table is filled through named properties), so it
      always holds: an entry replaces whatever an earlier entry with the same
      display name stored. */
  function InitTable(folders: Folders, layersDir: string, delimiter: char, order: seq<LayerConfig>, table: Table)
    : (r: Result<Table, Fault>)
    ensures r.Success? <==> forall k :: 0 <= k < |order| ==> Loadable(folders, layersDir, delimiter, order[k])
    ensures r.Failure? ==> exists k :: (0 <= k < |order| &&
      (r.error == MissingFolder(order[k].name) || r.error.NoDisplayName?))
    ensures r.Success? ==> forall key :: key in r.value <==> key in table || key in DisplayKeys(order)
    decreases |order|
  {
    if |order| == 0 then Success(table)
    else
      var lc := order[0];
      var entries := LayerEntries(folders, layersDir, delimiter, lc);
      if entries.Failure? then Failure(entries.error)
      else
        assert forall k :: 1 <= k < |order| ==> order[1..][k - 1] == order[k];
        InitTable(folders, layersDir, delimiter, order[1..], table[DisplayKey(lc) := entries.value])
  }

  /** Each display name maps to the entries of the LAST layer entry carrying
      it. */
  lemma {:induction false} InitTableLastWins(folders: Folders, layersDir: string, delimiter: char,
                                              order: seq<LayerConfig>, table: Table)
    requires InitTable(folders, layersDir, delimiter, order, table).Success?
    ensures var t := InitTable(folders, layersDir, delimiter, order, table).value;
      forall k :: 0 <= k < |order| && LastWithKey(order, k) ==>
        t[DisplayKey(order[k])] == LayerEntries(folders, layersDir, delimiter, order[k]).value
    decreases |order|
  {
    if |order| > 0 {
      var lc := order[0];
      var table' := table[DisplayKey(lc) := LayerEntries(folders, layersDir, delimiter, lc).value];
      var tail := order[1..];
      var t := InitTable(folders, layersDir, delimiter, order, table).value;
      assert t == InitTable(folders, layersDir, delimiter, tail, table').value;
      InitTableLastWins(folders, layersDir, delimiter, tail, table');
      forall k | 0 <= k < |order| && LastWithKey(order, k)
        ensures t[DisplayKey(order[k])] == LayerEntries(folders, layersDir, delimiter, order[k]).value
      {
        if k == 0 {
          assert order[1..] == tail;
          InitTableKeepsOthers(folders, layersDir, delimiter, tail, table');
        } else {
          assert tail[k - 1] == order[k] && tail[k..] == order[k + 1..];
          assert LastWithKey(tail, k - 1);
        }
      }
    }
  }

  /** Display names no layer entry carries keep their value. */
  lemma {:induction false} InitTableKeepsOthers(folders: Folders, layersDir: string, delimiter: char,
                                                 order: seq<LayerConfig>, table: Table)
    requires InitTable(folders, layersDir, delimiter, order, table).Success?
    ensures var t := InitTable(folders, layersDir, delimiter, order, table).value;
      forall key :: key in table && key !in DisplayKeys(order) ==> t[key] == table[key]
    decreases |order|
  {
    if |order| > 0 {
      var lc := order[0];
      var table' := table[DisplayKey(lc) := LayerEntries(folders, layersDir, delimiter, lc).value];
      var tail := order[1..];
      var t := InitTable(folders, layersDir, delimiter, order, table).value;
      assert t == InitTable(folders, layersDir, delimiter, tail, table').value;
      assert DisplayKeys(order) == {DisplayKey(lc)} + DisplayKeys(tail);
      InitTableKeepsOthers(folders, layersDir, delimiter, tail, table');
    }
  }

  /** Every occurrence in the table is 0. */
  predicate Fresh(t: Table) {
    forall key, j :: key in t && 0 <= j < |t[key]| ==> t[key][j].occurrence == 0
  }

  /** Initialising from an empty table leaves every occurrence at 0. */
  lemma {:induction false} InitTableIsFresh(folders: Folders, layersDir: string, delimiter: char,
                                             order: seq<LayerConfig>, table: Table)
    requires Fresh(table)
    requires InitTable(folders, layersDir, delimiter, order, table).Success?
    ensures Fresh(InitTable(folders, layersDir, delimiter, order, table).value)
    decreases |order|
  {
    if |order| > 0 {
      var lc := order[0];
      var entries := LayerEntries(folders, layersDir, delimiter, lc).value;
      var table' := table[DisplayKey(lc) := entries];
      assert Fresh(table') by {
        EntriesValues(LayerElements(folders, layersDir, delimiter, lc));
      }
      assert InitTable(folders, layersDir, delimiter, order, table)
          == InitTable(folders, layersDir, delimiter, order[1..], table');
      InitTableIsFresh(folders, layersDir, delimiter, order[1..], table');
    }
  }

  /** The layer entries of all phases, phase after phase. */
  function AllLayers(orders: seq<seq<LayerConfig>>): (r: seq<LayerConfig>)
    ensures |orders| > 0 ==> r == orders[0] + AllLayers(orders[1..])
    decreases |orders|
  {
    if |orders| == 0 then [] else orders[0] + AllLayers(orders[1..])
  }

  // ---------------------------------------------------------------------
  // Counting
  // ---------------------------------------------------------------------

  /** The attributes of all records, record after record. */
  function AllAttributes(records: seq<Record>): seq<Attribute>
    decreases |records|
  {
    if |records| == 0 then [] else records[0].attributes + AllAttributes(records[1..])
  }

  /** How many attributes carry the trait type `traitType` and the value
      `value`. */
  function Count(attrs: seq<Attribute>, traitType: string, value: string): nat
    decreases |attrs|
  {
    if |attrs| == 0 then 0
    else (if attrs[0].traitType == traitType && attrs[0].value == value then 1 else 0)
         + Count(attrs[1..], traitType, value)
  }

  /** `rarityDataTrait.occurrence++` on every entry whose trait is `value`. */
  function Bump(entries: seq<RarityEntry>, value: string): (r: seq<RarityEntry>)
    ensures |r| == |entries|
    ensures forall j :: 0 <= j < |r| ==>
      && r[j].traitName == entries[j].traitName && r[j].weight == entries[j].weight
      && r[j].occurrence == entries[j].occurrence + (if entries[j].traitName == value then 1 else 0)
  {
    seq(|entries|, j requires 0 <= j < |entries| =>
      var e := entries[j];
      if e.traitName == value then e.(occurrence := e.occurrence + 1) else e)
  }

  /** The same entries, occurrences aside. */
  predicate SameShape(t: Table, u: Table) {
    && t.Keys == u.Keys
    && forall key :: key in t ==> |t[key]| == |u[key]| && forall j :: 0 <= j < |t[key]| ==>
         t[key][j].traitName == u[key][j].traitName && t[key][j].weight == u[key][j].weight
  }

  /** The counting loop over the attributes in order; a trait type the table
      has no entry for throws. */
  function Tally(table: Table, attrs: seq<Attribute>): (r: Result<Table, Fault>)
    ensures r.Success? <==> forall k :: 0 <= k < |attrs| ==> attrs[k].traitType in table
    ensures r.Failure? ==> exists k :: (0 <= k < |attrs| && attrs[k].traitType !in table
      && r.error == UnknownTraitType(attrs[k].traitType))
    ensures r.Success? ==> SameShape(table, r.value)
    decreases |attrs|
  {
    if |attrs| == 0 then Success(table)
    else
      var a := attrs[0];
      if a.traitType !in table then Failure(UnknownTraitType(a.traitType))
      else
        var r := Tally(table[a.traitType := Bump(table[a.traitType], a.value)], attrs[1..]);
        assert forall k :: 1 <= k < |attrs| ==> attrs[1..][k - 1] == attrs[k];
        r
  }

  /** Each entry's occurrence grows by exactly the number of attributes with
      its layer's display name and its trait. */
  lemma {:induction false} TallyCounts(table: Table, attrs: seq<Attribute>)
    requires Tally(table, attrs).Success?
    ensures var t := Tally(table, attrs).value;
      forall key, j :: key in table && 0 <= j < |table[key]| ==>
        t[key][j].occurrence == table[key][j].occurrence + Count(attrs, key, table[key][j].traitName)
    decreases |attrs|
  {
    if |attrs| > 0 {
      var a := attrs[0];
      var table' := table[a.traitType := Bump(table[a.traitType], a.value)];
      TallyCounts(table', attrs[1..]);
      var t: Table := Tally(table, attrs).value;
      forall key: string, j: int | key in table && 0 <= j < |table[key]|
        ensures t[key][j].occurrence == table[key][j].occurrence + Count(attrs, key, table[key][j].traitName)
      {
        assert table'[key][j].traitName == table[key][j].traitName;
      }
    }
  }

  /** Attributes that match no entry's trait leave the table as it was. */
  lemma {:induction false} TallyUnmatched(table: Table, attrs: seq<Attribute>)
    requires forall k :: 0 <= k < |attrs| ==> attrs[k].traitType in table
    requires forall k, j :: 0 <= k < |attrs| && 0 <= j < |table[attrs[k].traitType]| ==>
      table[attrs[k].traitType][j].traitName != attrs[k].value
    ensures Tally(table, attrs) == Success(table)
    decreases |attrs|
  {
    if |attrs| > 0 {
      var a := attrs[0];
      assert Bump(table[a.traitType], a.value) == table[a.traitType];
      assert table[a.traitType := Bump(table[a.traitType], a.value)] == table;
      assert forall k :: 1 <= k < |attrs| ==> attrs[1..][k - 1] == attrs[k];
      TallyUnmatched(table, attrs[1..]);
    }
  }

  // ---------------------------------------------------------------------
  // The report
  // ---------------------------------------------------------------------

  /** The table for the given phases' layer orders and records. */
  function Report(folders: Folders, layersDir: string, delimiter: char,
                  orders: seq<seq<LayerConfig>>, records: seq<Record>)
    : (r: Result<Table, Fault>)
    ensures r.Success? ==> forall key :: key in r.value <==> key in DisplayKeys(AllLayers(orders))
  {
    var init :- InitTable(folders, layersDir, delimiter, AllLayers(orders), map[]);
    Tally(init, AllAttributes(records))
  }

  /** In the finished report each entry of each layer counts exactly the
      attributes, over all records, with that layer's display name and that
      entry's trait; the entries are those of the last layer entry with that
      display name. */
  lemma ReportCountsOccurrences(folders: Folders, layersDir: string, delimiter: char,
                                orders: seq<seq<LayerConfig>>, records: seq<Record>)
    requires Report(folders, layersDir, delimiter, orders, records).Success?
    ensures var layers := AllLayers(orders);
      var t := Report(folders, layersDir, delimiter, orders, records).value;
      forall k :: 0 <= k < |layers| && LastWithKey(layers, k) ==>
        var key := DisplayKey(layers[k]);
        var es := LayerEntries(folders, layersDir, delimiter, layers[k]).value;
        && |t[key]| == |es|
        && forall j :: 0 <= j < |es| ==>
             t[key][j] == es[j].(occurrence := Count(AllAttributes(records), key, es[j].traitName))
  {
    var layers := AllLayers(orders);
    var init := InitTable(folders, layersDir, delimiter, layers, map[]).value;
    InitTableLastWins(folders, layersDir, delimiter, layers, map[]);
    InitTableIsFresh(folders, layersDir, delimiter, layers, map[]);
    TallyCounts(init, AllAttributes(records));
  }

  /** Every attribute's trait type is the display name of some layer entry. */
  predicate KnownTraitTypes(layers: seq<LayerConfig>, attrs: seq<Attribute>) {
    forall n :: 0 <= n < |attrs| ==>
      exists k :: 0 <= k < |layers| && DisplayKey(layers[k]) == attrs[n].traitType
  }

  /** Every layer entry can be loaded. */
  predicate AllLoadable(folders: Folders, layersDir: string, delimiter: char, layers: seq<LayerConfig>) {
    forall k :: 0 <= k < |layers| ==> Loadable(folders, layersDir, delimiter, layers[k])
  }

  /** The report succeeds exactly when every layer folder exists, every
      element has a display name, and every attribute's trait type is the
      display name of some layer entry. */
  lemma ReportSucceeds(folders: Folders, layersDir: string, delimiter: char,
                       orders: seq<seq<LayerConfig>>, records: seq<Record>)
    ensures Report(folders, layersDir, delimiter, orders, records).Success? <==>
      AllLoadable(folders, layersDir, delimiter, AllLayers(orders))
      && KnownTraitTypes(AllLayers(orders), AllAttributes(records))
  {
    var layers := AllLayers(orders);
    var attrs := AllAttributes(records);
    var init := InitTable(folders, layersDir, delimiter, layers, map[]);
    if init.Success? {
      assert Report(folders, layersDir, delimiter, orders, records) == Tally(init.value, attrs);
      forall n | 0 <= n < |attrs|
        ensures attrs[n].traitType in init.value <==>
          exists k :: 0 <= k < |layers| && DisplayKey(layers[k]) == attrs[n].traitType
      {
        if exists k :: 0 <= k < |layers| && DisplayKey(layers[k]) == attrs[n].traitType {
          var k :| 0 <= k < |layers| && DisplayKey(layers[k]) == attrs[n].traitType;
          assert DisplayKey(layers[k]) in init.value.Keys;
        }
      }
    }
  }
}
