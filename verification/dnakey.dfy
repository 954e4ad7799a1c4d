/** The uniqueness key of a DNA (`filterDNAOptions`, `isDnaUnique`) and the
    way back from a DNA string to the chosen elements (`removeQueryStrings`,
    `cleanDna`, `constructLayerToDna`). */
module DnaKey {
  import opened Wrappers
  import opened JsText
  import opened Faults
  import opened Elements
  import opened Weighted
  import opened Dna

  // ---------------------------------------------------------------------
  // filterDNAOptions
  // ---------------------------------------------------------------------

  /** `options.bypassDNA` after `query.split('&').reduce(...)`: the value of
      the last setting whose key is `bypassDNA` (`None` when there is no such
      setting or it has no `=`). The first setting's key keeps the leading
      `?` of the query. */
  function BypassOption(settings: seq<string>): Option<string>
    decreases |settings|
  {
    if |settings| == 0 then None
    else
      var kv := Split(settings[|settings| - 1], '=');
      if kv[0] == "bypassDNA" then (if |kv| > 1 then Some(kv[1]) else None)
      else BypassOption(settings[..|settings| - 1])
  }

  /** The filter callback of `filterDNAOptions`: an item without a query is
      kept; one with a query is kept exactly when `options.bypassDNA` is a
      non-empty string, the only truthy value it can hold. */
  predicate KeepInKey(item: string) {
    match QueryStart(item)
    case None => true
    case Some(q) =>
      var v := BypassOption(Split(item[q..], '&'));
      v.Some? && |v.value| > 0
  }

  /** The filter of `filterDNAOptions`: an item survives exactly when the
      callback accepts it. */
  function FilterItems(items: seq<string>): (kept: seq<string>)
    ensures |kept| <= |items|
    ensures forall x :: x in kept <==> x in items && KeepInKey(x)
  {
    Filter(KeepInKey, items)
  }

  /** `filterDNAOptions`: the admission key of a DNA. */
  function FilterDnaOptions(dna: string): string {
    Join(FilterItems(Split(dna, DnaDelimiter)), DnaDelimiter)
  }

  /** `isDnaUnique`: the key of the DNA is not yet in the list. */
  predicate IsDnaUnique(dnaList: seq<string>, dna: string) {
    FilterDnaOptions(dna) !in dnaList
  }

  lemma BypassSuffixParts()
    ensures BypassSuffix == "?bypassDNA" + ['='] + "true"
    ensures '&' !in BypassSuffix
  {
  }

  lemma BypassSuffixKey()
    ensures Split(BypassSuffix, '=')[0] == "?bypassDNA"
    ensures Split(BypassSuffix, '&') == [BypassSuffix]
  {
    BypassSuffixParts();
    SplitAfterPiece("?bypassDNA", '=', "true");
    SplitWithoutDelimiter(BypassSuffix, '&');
  }

  /** The setting `?bypassDNA=true` has the key `?bypassDNA`, so
      `options.bypassDNA` stays undefined. */
  lemma BypassSettingIsNotRead()
    ensures BypassOption(Split(BypassSuffix, '&')) == None
  {
    BypassSuffixKey();
    var settings := [BypassSuffix];
    var kv := Split(settings[|settings| - 1], '=');
    assert kv[0] != "bypassDNA" by {
      assert kv[0][0] == '?';
    }
    assert settings[..|settings| - 1] == [];
  }

  /** File names of a layer that the DNA format can carry unambiguously. */
  predicate PlainFileNames(layers: seq<Layer>) {
    forall k, j :: 0 <= k < |layers| && 0 <= j < |layers[k].elements| ==>
      DnaDelimiter !in layers[k].elements[j].filename && '?' !in layers[k].elements[j].filename
  }

  /** The layers the DNA format and `constructLayerToDna` are made for:
      positional ids and file names free of `-` and `?`. */
  predicate ParseableLayers(layers: seq<Layer>) {
    PlainFileNames(layers) && forall k :: 0 <= k < |layers| ==> PositionalIds(layers[k].elements)
  }

  lemma TupleHead(e: Element, bypass: bool)
    ensures Tuple(e, bypass) == NatToString(e.id) + [':'] + (e.filename + (if bypass then BypassSuffix else ""))
    ensures ':' !in NatToString(e.id) && '?' !in NatToString(e.id) && DnaDelimiter !in NatToString(e.id)
  {
  }

  /** A tuple without bypass has no query and is kept; a bypass tuple has the
      query `?bypassDNA=true` and is dropped. */
  lemma KeepTuple(e: Element, bypass: bool)
    requires '?' !in e.filename
    ensures KeepInKey(Tuple(e, bypass)) <==> !bypass
  {
    TupleHead(e, bypass);
    var head := NatToString(e.id) + ":" + e.filename;
    assert '?' !in head;
    if bypass {
      assert Tuple(e, bypass) == head + "?" + "bypassDNA=true";
      QueryStartAfter(head, "bypassDNA=true");
      assert Tuple(e, bypass)[|head|..] == BypassSuffix;
      BypassSettingIsNotRead();
    } else {
      assert Tuple(e, bypass) == head;
      NoQuestionMarkNoQuery(head);
    }
  }

  lemma TupleWithoutDelimiter(e: Element, bypass: bool)
    requires DnaDelimiter !in e.filename
    ensures DnaDelimiter !in Tuple(e, bypass)
  {
    TupleHead(e, bypass);
  }

  /** The tuples of the layers that do not bypass the key, in layer order. */
  function KeyTuples(layers: seq<Layer>, picks: seq<Option<nat>>): seq<string>
    requires ValidPicks(layers, picks)
    decreases |layers|
  {
    if |layers| == 0 then []
    else
      (if layers[0].bypassDNA then [] else Emitted(layers[0], picks[0]))
      + KeyTuples(layers[1..], picks[1..])
  }

  lemma {:induction false} SerializedWithoutDelimiter(layers: seq<Layer>, picks: seq<Option<nat>>)
    requires ValidPicks(layers, picks) && PlainFileNames(layers)
    ensures forall k :: 0 <= k < |Serialize(layers, picks)| ==>
      (DnaDelimiter !in Serialize(layers, picks)[k] && |Serialize(layers, picks)[k]| > 0)
    ensures forall k :: 0 <= k < |KeyTuples(layers, picks)| ==>
      (DnaDelimiter !in KeyTuples(layers, picks)[k] && |KeyTuples(layers, picks)[k]| > 0)
    decreases |layers|
  {
    if |layers| > 0 {
      assert PlainFileNames(layers[1..]) by {
        forall k, j | 0 <= k < |layers| - 1 && 0 <= j < |layers[1..][k].elements|
          ensures DnaDelimiter !in layers[1..][k].elements[j].filename
          ensures '?' !in layers[1..][k].elements[j].filename
        {
          assert layers[1..][k] == layers[k + 1];
        }
      }
      SerializedWithoutDelimiter(layers[1..], picks[1..]);
      if picks[0].Some? {
        TupleWithoutDelimiter(layers[0].elements[picks[0].value], layers[0].bypassDNA);
        TupleHead(layers[0].elements[picks[0].value], layers[0].bypassDNA);
      }
    }
  }

  /** On the tuples of `createDna`, the filter drops exactly the bypass
      tuples and keeps every other tuple unchanged and in order. */
  lemma {:induction false} FilterSerialized(layers: seq<Layer>, picks: seq<Option<nat>>)
    requires ValidPicks(layers, picks) && PlainFileNames(layers)
    ensures FilterItems(Serialize(layers, picks)) == KeyTuples(layers, picks)
    decreases |layers|
  {
    if |layers| > 0 {
      assert PlainFileNames(layers[1..]) by {
        forall k, j | 0 <= k < |layers| - 1 && 0 <= j < |layers[1..][k].elements|
          ensures DnaDelimiter !in layers[1..][k].elements[j].filename
          ensures '?' !in layers[1..][k].elements[j].filename
        {
          assert layers[1..][k] == layers[k + 1];
        }
      }
      FilterSerialized(layers[1..], picks[1..]);
      var emitted := Emitted(layers[0], picks[0]);
      var rest := Serialize(layers[1..], picks[1..]);
      FilterAppend(KeepInKey, emitted, rest);
      if picks[0].Some? {
        KeepTuple(layers[0].elements[picks[0].value], layers[0].bypassDNA);
      }
    }
  }

  /** The admission key of a `createDna` string is the join of the tuples of
      the layers that do not bypass it. */
  lemma KeyOfSerialized(layers: seq<Layer>, picks: seq<Option<nat>>)
    requires ValidPicks(layers, picks) && PlainFileNames(layers)
    ensures FilterDnaOptions(Join(Serialize(layers, picks), DnaDelimiter))
      == Join(KeyTuples(layers, picks), DnaDelimiter)
  {
    var ts := Serialize(layers, picks);
    SerializedWithoutDelimiter(layers, picks);
    FilterSerialized(layers, picks);
    if |ts| == 0 {
      assert Split("", DnaDelimiter) == [""];
      NoQuestionMarkNoQuery("");
      assert FilterItems([""]) == [""];
      assert KeyTuples(layers, picks) == FilterItems([]) == [];
    } else {
      SplitJoin(ts, DnaDelimiter);
    }
  }

  /** Every layer chose an element. */
  predicate AllChosen(picks: seq<Option<nat>>) {
    forall k :: 0 <= k < |picks| ==> picks[k].Some?
  }

  /** Two tuples of the same layer agree exactly when they name the same id. */
  lemma TupleInjective(e1: Element, e2: Element, bypass: bool)
    requires Tuple(e1, bypass) == Tuple(e2, bypass)
    ensures e1.id == e2.id
  {
    TupleHead(e1, bypass);
    TupleHead(e2, bypass);
    var t := Tuple(e1, bypass);
    SplitAfterPiece(NatToString(e1.id), ':', e1.filename + (if bypass then BypassSuffix else ""));
    SplitAfterPiece(NatToString(e2.id), ':', e2.filename + (if bypass then BypassSuffix else ""));
    assert Split(t, ':')[0] == NatToString(e1.id) == NatToString(e2.id);
    NatToStringInjective(e1.id, e2.id);
  }

  lemma {:induction false} KeyTuplesAgree(layers: seq<Layer>, p1: seq<Option<nat>>, p2: seq<Option<nat>>)
    requires ValidPicks(layers, p1) && ValidPicks(layers, p2) && AllChosen(p1) && AllChosen(p2)
    requires forall k :: 0 <= k < |layers| ==> PositionalIds(layers[k].elements)
    ensures KeyTuples(layers, p1) == KeyTuples(layers, p2)
        <==> forall k :: 0 <= k < |layers| && !layers[k].bypassDNA ==> p1[k] == p2[k]
    decreases |layers|
  {
    if |layers| > 0 {
      KeyTuplesAgree(layers[1..], p1[1..], p2[1..]);
      var h1 := if layers[0].bypassDNA then [] else Emitted(layers[0], p1[0]);
      var h2 := if layers[0].bypassDNA then [] else Emitted(layers[0], p2[0]);
      var t1 := KeyTuples(layers[1..], p1[1..]);
      var t2 := KeyTuples(layers[1..], p2[1..]);
      assert |h1| == |h2|;
      if h1 + t1 == h2 + t2 {
        assert h1 == (h1 + t1)[..|h1|] == (h2 + t2)[..|h2|] == h2;
        assert t1 == (h1 + t1)[|h1|..] == (h2 + t2)[|h2|..] == t2;
        if !layers[0].bypassDNA {
          TupleInjective(layers[0].elements[p1[0].value], layers[0].elements[p2[0].value], false);
        }
      }
      if forall k :: 0 <= k < |layers| && !layers[k].bypassDNA ==> p1[k] == p2[k] {
        forall k | 0 <= k < |layers| - 1 && !layers[1..][k].bypassDNA
          ensures p1[1..][k] == p2[1..][k]
        {
          assert layers[1..][k] == layers[k + 1];
        }
      }
      forall k | 0 <= k < |layers| - 1
        ensures layers[1..][k] == layers[k + 1] && p1[1..][k] == p1[k + 1] && p2[1..][k] == p2[k + 1]
      {
      }
    }
  }

  lemma {:induction false} KeyTuplesCount(layers: seq<Layer>, p1: seq<Option<nat>>, p2: seq<Option<nat>>)
    requires ValidPicks(layers, p1) && ValidPicks(layers, p2) && AllChosen(p1) && AllChosen(p2)
    ensures |KeyTuples(layers, p1)| == |KeyTuples(layers, p2)|
    decreases |layers|
  {
    if |layers| > 0 {
      KeyTuplesCount(layers[1..], p1[1..], p2[1..]);
    }
  }

  /** The admission key depends on exactly the choices of the layers that do
      not bypass it: two complete choices over the same layers have the same
      key if and only if they agree on every such layer. */
  lemma KeyDeterminedByUnbypassedChoices(layers: seq<Layer>, p1: seq<Option<nat>>, p2: seq<Option<nat>>)
    requires ParseableLayers(layers)
    requires ValidPicks(layers, p1) && ValidPicks(layers, p2) && AllChosen(p1) && AllChosen(p2)
    ensures FilterDnaOptions(Join(Serialize(layers, p1), DnaDelimiter))
         == FilterDnaOptions(Join(Serialize(layers, p2), DnaDelimiter))
        <==> forall k :: 0 <= k < |layers| && !layers[k].bypassDNA ==> p1[k] == p2[k]
  {
    KeyOfSerialized(layers, p1);
    KeyOfSerialized(layers, p2);
    KeyTuplesAgree(layers, p1, p2);
    KeyTuplesCount(layers, p1, p2);
    SerializedWithoutDelimiter(layers, p1);
    SerializedWithoutDelimiter(layers, p2);
    var k1 := KeyTuples(layers, p1);
    var k2 := KeyTuples(layers, p2);
    if Join(k1, DnaDelimiter) == Join(k2, DnaDelimiter) && |k1| > 0 {
      JoinInjective(k1, k2, DnaDelimiter);
    }
  }

  // ---------------------------------------------------------------------
  // Parse-back
  // ---------------------------------------------------------------------

  /** `removeQueryStrings`: drops the match of `/(\?.*$)/`, if any. */
  function RemoveQueryStrings(s: string): (r: string)
    ensures IsPrefix(r, s)
  {
    match QueryStart(s)
    case None => s
    case Some(q) => s[..q]
  }

  /** Removing the query twice removes nothing more. */
  lemma RemoveQueryStringsIdempotent(s: string)
    ensures RemoveQueryStrings(RemoveQueryStrings(s)) == RemoveQueryStrings(s)
  {
    match QueryStart(s)
    case None =>
    case Some(q) =>
      var r := s[..q];
      forall j | 0 <= j < |r|
        ensures !QueryAt(r, j)
      {
        assert !QueryAt(s, j);
        if r[j] == '?' {
          var p :| j + 1 <= p < |s| && IsLineTerminator(s[p]) by {
            assert !NoLineTerminator(s[j + 1..]);
            var i :| 0 <= i < |s[j + 1..]| && IsLineTerminator(s[j + 1..][i]);
            assert IsLineTerminator(s[j + 1 + i]);
          }
          assert p < q;
          assert r[j + 1..][p - j - 1] == s[p];
        }
      }
  }

  /** On one line of text, the query removal cuts at the first `?` and keeps
      text without `?` unchanged. */
  lemma RemoveQueryStringsCutsAtFirstQuestionMark(s: string)
    requires NoLineTerminator(s)
    ensures '?' !in RemoveQueryStrings(s)
    ensures RemoveQueryStrings(s) == s || s[|RemoveQueryStrings(s)|] == '?'
  {
    match QueryStart(s)
    case None =>
      if '?' in s {
        var j :| 0 <= j < |s| && s[j] == '?';
        assert QueryAt(s, j);
      }
    case Some(q) =>
      if '?' in s[..q] {
        var j :| 0 <= j < q && s[..q][j] == '?';
        assert QueryAt(s, j);
      }
  }

  /** `cleanDna`: the number before the first `:` of the tuple without query. */
  function CleanDna(item: string): Option<nat> {
    ToNumber(First(RemoveQueryStrings(item), ':'))
  }

  /** `cleanDna` of a tuple gives back the element id. */
  lemma CleanDnaOfTuple(e: Element, bypass: bool)
    requires '?' !in e.filename
    ensures CleanDna(Tuple(e, bypass)) == Some(e.id)
  {
    TupleHead(e, bypass);
    var head := NatToString(e.id) + [':'] + e.filename;
    assert '?' !in head;
    if bypass {
      assert Tuple(e, bypass) == head + "?" + "bypassDNA=true";
      QueryStartAfter(head, "bypassDNA=true");
      assert RemoveQueryStrings(Tuple(e, bypass)) == head;
    } else {
      NoQuestionMarkNoQuery(head);
      assert RemoveQueryStrings(Tuple(e, bypass)) == head;
    }
    SplitAfterPiece(NatToString(e.id), ':', e.filename);
    ToNumberOfNatToString(e.id);
  }

  /** `layer.elements.find((e) => e.id == id)`: the first element with that
      id; none for NaN. */
  function FindById(es: seq<Element>, id: Option<nat>): (r: Option<Element>)
    ensures r.Some? ==> id.Some? && r.value in es && r.value.id == id.value
    ensures r.None? ==> id.None? || forall j :: 0 <= j < |es| ==> es[j].id != id.value
    decreases |es|
  {
    if |es| == 0 || id.None? then None
    else if es[0].id == id.value then Some(es[0])
    else FindById(es[1..], id)
  }

  lemma FindPositional(es: seq<Element>, i: nat)
    requires PositionalIds(es) && i < |es|
    ensures FindById(es, Some(i)) == Some(es[i])
  {
    var r := FindById(es, Some(i));
    assert es[i].id == i;
    assert r.Some?;
    var j :| 0 <= j < |es| && es[j] == r.value;
    assert es[j].id == j;
  }

  /** One entry of `constructLayerToDna`'s result. */
  datatype Resolved = Resolved(name: string, blend: string, opacity: real, selectedElement: Option<Element>)

  function Resolve(layer: Layer, item: string): Resolved {
    Resolved(layer.name, layer.blend, layer.opacity, FindById(layer.elements, CleanDna(item)))
  }

  /** The first layer from `k` on that has elements; reading a tuple for it
      when there is none throws. */
  function FirstWithElements(layers: seq<Layer>, k: nat): (r: Option<nat>)
    requires k <= |layers|
    ensures r.None? <==> forall m :: k <= m < |layers| ==> |layers[m].elements| == 0
    ensures r.Some? ==>
      && k <= r.value < |layers| && |layers[r.value].elements| > 0
      && forall m :: k <= m < r.value ==> |layers[m].elements| == 0
    decreases |layers| - k
  {
    if k == |layers| then None
    else if |layers[k].elements| > 0 then Some(k)
    else FirstWithElements(layers, k + 1)
  }

  /** `constructLayerToDna`: for layer `k`, the element named by the `k`-th
      tuple. A layer past the last tuple finds nothing when it has no
      elements, since `find` then never calls its callback; otherwise
      `cleanDna(undefined)` makes `removeQueryStrings` throw. */
  function ConstructLayerToDna(dna: string, layers: seq<Layer>): (r: Result<seq<Resolved>, Fault>)
    ensures r.Success? <==>
      forall k :: |Split(dna, DnaDelimiter)| <= k < |layers| ==> |layers[k].elements| == 0
    ensures r.Failure? ==>
      exists k ::
        && |Split(dna, DnaDelimiter)| <= k < |layers| && r.error == MissingTuple(k)
        && |layers[k].elements| > 0
        && forall m :: |Split(dna, DnaDelimiter)| <= m < k ==> |layers[m].elements| == 0
    ensures r.Success? ==> |r.value| == |layers|
    ensures r.Success? ==> forall k :: 0 <= k < |layers| ==>
      && r.value[k].name == layers[k].name
      && r.value[k].blend == layers[k].blend
      && r.value[k].opacity == layers[k].opacity
      && (k >= |Split(dna, DnaDelimiter)| ==> r.value[k].selectedElement.None?)
  {
    var items := Split(dna, DnaDelimiter);
    var missing := FirstWithElements(layers, if |items| < |layers| then |items| else |layers|);
    if missing.Some? then Failure(MissingTuple(missing.value))
    else Success(seq(|layers|, k requires 0 <= k < |layers| =>
      if k < |items| then Resolve(layers[k], items[k])
      else Resolved(layers[k].name, layers[k].blend, layers[k].opacity, None)))
  }

  /** Round trip: parsing a `createDna` string back selects, for every layer,
      exactly the element drawn for it. */
  lemma ConstructLayerToDnaRoundTrip(layers: seq<Layer>, clashes: map<string, string>, draws: seq<nat>)
    requires ParseableLayers(layers) && PositiveWeights(layers)
    requires CreateDna(layers, clashes, draws).Success?
    ensures var (dna, d) := CreateDna(layers, clashes, draws).value;
      && AllChosen(d.picks)
      && ConstructLayerToDna(dna, layers).Success?
      && forall k :: 0 <= k < |layers| ==>
           ConstructLayerToDna(dna, layers).value[k]
             == Resolved(layers[k].name, layers[k].blend, layers[k].opacity,
                         Some(layers[k].elements[d.picks[k].value]))
  {
    var (dna, d) := CreateDna(layers, clashes, draws).value;
    SampleChoosesEveryLayer(layers, clashes, [], draws);
    SerializeAllChosen(layers, d.picks);
    SerializedWithoutDelimiter(layers, d.picks);
    var ts := d.tuples;
    if |layers| > 0 {
      SplitJoin(ts, DnaDelimiter);
      forall k | 0 <= k < |layers|
        ensures ConstructLayerToDna(dna, layers).value[k]
          == Resolved(layers[k].name, layers[k].blend, layers[k].opacity,
                      Some(layers[k].elements[d.picks[k].value]))
      {
        var e := layers[k].elements[d.picks[k].value];
        CleanDnaOfTuple(e, layers[k].bypassDNA);
        FindPositional(layers[k].elements, d.picks[k].value);
      }
    }
  }
}
