/** `createDna`: one weighted draw per layer, the clash table, and the DNA
    string `id:filename[?bypassDNA=true]` joined with `-`. */
module Dna {
  import opened Wrappers
  import opened JsText
  import opened Faults
  import opened Elements
  import opened Weighted

  const DnaDelimiter: char := '-'

  /** Appended to a tuple of a layer whose `bypassDNA` option is set. */
  const BypassSuffix: string := "?bypassDNA=true"

  /** `clashMonitor`: an element file name mapped to a file name that must not
      already appear in the DNA being built. */
  const ClashMonitor: map<string, string> := map[
    "head_jimbun.png" := "bg_lightvoid.png",
    "head_messy.png" := "bg_lightvoid.png",
    "head_doublebuns.png" := "bg_lightvoid.png",
    "head_bedtime#65.png" := "bg_lightvoid.png",
    "head_goodtime#50.png" := "bg_blue.png"
  ]

  /** The tuple for one chosen element: `${id}:${filename}` plus the bypass
      suffix when the layer bypasses the uniqueness key. */
  function Tuple(e: Element, bypass: bool): string {
    NatToString(e.id) + ":" + e.filename + (if bypass then BypassSuffix else "")
  }

  /** Some tuple already built includes `t` as a substring. */
  predicate AnyIncludes(dna: seq<string>, t: string) {
    exists n | 0 <= n < |dna| :: Contains(dna[n], t)
  }

  /** The choice of a layer is a clash: its file name is a key of the table
      and an earlier tuple includes the mapped file name. */
  predicate Clashes(clashes: map<string, string>, dna: seq<string>, filename: string) {
    filename in clashes && AnyIncludes(dna, clashes[filename])
  }

  /** `rest` is what remains of `draws` after some were used. */
  predicate IsSuffix(rest: seq<nat>, draws: seq<nat>) {
    |rest| <= |draws| && rest == draws[|draws| - |rest|..]
  }

  /** The re-roll loop: draw uniformly over all elements of the layer until
      the element is not a key of the table. */
  function Reroll(es: seq<Element>, clashes: map<string, string>, draws: seq<nat>)
    : (r: Result<(nat, seq<nat>), Fault>)
    requires |es| > 0
    ensures r.Success? ==> r.value.0 < |es| && es[r.value.0].filename !in clashes
    ensures r.Success? ==> IsSuffix(r.value.1, draws) && |r.value.1| < |draws|
    ensures r.Failure? ==> r.error == OutOfDraws
    decreases |draws|
  {
    if |draws| == 0 then Failure(OutOfDraws)
    else
      var idx := draws[0] % |es|;
      if es[idx].filename in clashes then Reroll(es, clashes, draws[1..])
      else Success((idx, draws[1..]))
  }

  /** Every draw before the `j`-th landed on a key of the table. */
  predicate KeysBefore(es: seq<Element>, clashes: map<string, string>, draws: seq<nat>, j: nat)
    requires |es| > 0 && j <= |draws|
  {
    forall m :: 0 <= m < j ==> es[draws[m] % |es|].filename in clashes
  }

  /** The re-roll ends on the first draw that lands on an element that is no
      key of the table: every draw before it landed on a key. */
  lemma {:induction false} RerollTakesFirstFreeDraw(es: seq<Element>, clashes: map<string, string>, draws: seq<nat>)
    requires |es| > 0 && Reroll(es, clashes, draws).Success?
    ensures exists j ::
      && 0 <= j < |draws| && KeysBefore(es, clashes, draws, j)
      && Reroll(es, clashes, draws).value == (draws[j] % |es|, draws[j + 1..])
    decreases |draws|
  {
    var r := Reroll(es, clashes, draws).value;
    if es[draws[0] % |es|].filename in clashes {
      var tail := draws[1..];
      assert r == Reroll(es, clashes, tail).value;
      RerollTakesFirstFreeDraw(es, clashes, tail);
      var i :| 0 <= i < |tail| && KeysBefore(es, clashes, tail, i) && r == (tail[i] % |es|, tail[i + 1..]);
      assert KeysBefore(es, clashes, draws, i + 1) by {
        forall m | 0 < m < i + 1 ensures es[draws[m] % |es|].filename in clashes {
          assert tail[m - 1] == draws[m];
        }
      }
      assert tail[i] == draws[i + 1] && tail[i + 1..] == draws[i + 2..];
    } else {
      assert KeysBefore(es, clashes, draws, 0);
    }
  }

  /** The re-roll runs out of draws exactly when every draw lands on a key. */
  lemma {:induction false} RerollRunsOut(es: seq<Element>, clashes: map<string, string>, draws: seq<nat>)
    requires |es| > 0
    ensures Reroll(es, clashes, draws).Failure? <==>
      forall m :: 0 <= m < |draws| ==> es[draws[m] % |es|].filename in clashes
    decreases |draws|
  {
    if |draws| > 0 {
      RerollRunsOut(es, clashes, draws[1..]);
      assert forall m :: 1 <= m < |draws| ==> draws[1..][m - 1] == draws[m];
    }
  }

  /** The choice for one layer given the tuples built so far: the weighted
      pick, re-rolled when it clashes; `None` when the walk picks nothing. */
  function PickLayer(layer: Layer, clashes: map<string, string>, dna: seq<string>, draws: seq<nat>)
    : (r: Result<(Option<nat>, seq<nat>), Fault>)
    ensures r.Failure? ==> r.error == OutOfDraws
    ensures r.Success? ==> |draws| > 0 && IsSuffix(r.value.1, draws) && |r.value.1| < |draws|
    ensures r.Success? && r.value.0.Some? ==> r.value.0.value < |layer.elements|
    // A choice that does not clash is the weighted pick itself, made with one draw.
    ensures r.Success? ==>
      var es := layer.elements;
      var pick := Walk(es, LayerDraw(TotalWeight(es), draws[0]), 0);
      pick.None? || !Clashes(clashes, dna, es[pick.value].filename)
      ==> r.value == (pick, draws[1..])
    // A clashing pick is replaced by an element that is no key of the table.
    ensures r.Success? ==>
      var es := layer.elements;
      var pick := Walk(es, LayerDraw(TotalWeight(es), draws[0]), 0);
      pick.Some? && Clashes(clashes, dna, es[pick.value].filename)
      ==> r.value.0.Some? && es[r.value.0.value].filename !in clashes
  {
    if |draws| == 0 then Failure(OutOfDraws)
    else
      var es := layer.elements;
      match Walk(es, LayerDraw(TotalWeight(es), draws[0]), 0)
      case None => Success((None, draws[1..]))
      case Some(i) =>
        if Clashes(clashes, dna, es[i].filename) then
          var rolled := Reroll(es, clashes, draws[1..]);
          if rolled.Failure? then Failure(rolled.error)
          else Success((Some(rolled.value.0), rolled.value.1))
        else Success((Some(i), draws[1..]))
  }

  /** A choice per layer is valid when it names an element of that layer. */
  predicate ValidPicks(layers: seq<Layer>, picks: seq<Option<nat>>) {
    |picks| == |layers|
    && forall k :: 0 <= k < |layers| && picks[k].Some? ==> picks[k].value < |layers[k].elements|
  }

  /** The tuples of the chosen elements, one per layer that chose, in layer
      order. */
  function Serialize(layers: seq<Layer>, picks: seq<Option<nat>>): seq<string>
    requires ValidPicks(layers, picks)
    decreases |layers|
  {
    if |layers| == 0 then []
    else
      Emitted(layers[0], picks[0]) + Serialize(layers[1..], picks[1..])
  }

  /** The outcome of `createDna`: the choice per layer, the tuples, and the
      draws left over. */
  datatype DnaDraw = DnaDraw(picks: seq<Option<nat>>, tuples: seq<string>, rest: seq<nat>)

  /** A choice that is a key of the table was made while no earlier tuple
      included the file name it maps to. */
  predicate ClashFree(layers: seq<Layer>, picks: seq<Option<nat>>, clashes: map<string, string>, dna: seq<string>)
    requires ValidPicks(layers, picks)
  {
    forall k :: 0 <= k < |layers| && picks[k].Some? ==>
      var f := layers[k].elements[picks[k].value].filename;
      f in clashes ==> !AnyIncludes(dna + Serialize(layers[..k], picks[..k]), clashes[f])
  }

  lemma SerializePrefix(layers: seq<Layer>, picks: seq<Option<nat>>, k: nat)
    requires ValidPicks(layers, picks) && 0 < k <= |layers|
    ensures ValidPicks(layers[..k], picks[..k]) && ValidPicks(layers[1..][..k - 1], picks[1..][..k - 1])
    ensures Serialize(layers[..k], picks[..k])
      == Serialize(layers[..1], picks[..1]) + Serialize(layers[1..][..k - 1], picks[1..][..k - 1])
  {
    assert layers[..k][1..] == layers[1..][..k - 1];
    assert picks[..k][1..] == picks[1..][..k - 1];
  }

  /** The layers from the first on, continuing the tuples `dna`. */
  function Sample(layers: seq<Layer>, clashes: map<string, string>, dna: seq<string>, draws: seq<nat>)
    : (r: Result<DnaDraw, Fault>)
    ensures r.Failure? ==> r.error == OutOfDraws
    ensures r.Success? ==> ValidPicks(layers, r.value.picks)
    ensures r.Success? ==> IsSuffix(r.value.rest, draws) && |r.value.rest| + |layers| <= |draws|
    decreases |layers|
  {
    if |layers| == 0 then Success(DnaDraw([], dna, draws))
    else
      var chosen := PickLayer(layers[0], clashes, dna, draws);
      if chosen.Failure? then Failure(chosen.error)
      else
        var (pick, rest) := chosen.value;
        var tail := Sample(layers[1..], clashes, dna + Emitted(layers[0], pick), rest);
        if tail.Failure? then Failure(tail.error)
        else
          var picks := [pick] + tail.value.picks;
          assert picks[1..] == tail.value.picks && |picks| == |layers|;
          assert forall k :: 1 <= k < |layers| ==> picks[k] == tail.value.picks[k - 1] && layers[k] == layers[1..][k - 1];
          Success(DnaDraw(picks, tail.value.tuples, tail.value.rest))
  }

  /** The tuples Sample returns are those it was given followed by the
      tuples of its choices. */
  lemma {:induction false} SampleTuples(layers: seq<Layer>, clashes: map<string, string>, dna: seq<string>, draws: seq<nat>)
    requires Sample(layers, clashes, dna, draws).Success?
    ensures var d := Sample(layers, clashes, dna, draws).value;
      d.tuples == dna + Serialize(layers, d.picks)
    decreases |layers|
  {
    if |layers| > 0 {
      var (pick, rest) := PickLayer(layers[0], clashes, dna, draws).value;
      var dna' := dna + Emitted(layers[0], pick);
      var tail := Sample(layers[1..], clashes, dna', rest).value;
      var d := Sample(layers, clashes, dna, draws).value;
      assert d.picks[0] == pick && d.picks[1..] == tail.picks && d.tuples == tail.tuples;
      SampleTuples(layers[1..], clashes, dna', rest);
      assert Serialize(layers, d.picks) == Emitted(layers[0], pick) + Serialize(layers[1..], tail.picks);
      AppendAssociative(dna, Emitted(layers[0], pick), Serialize(layers[1..], tail.picks));
    }
  }

  lemma PrefixOfTail<T>(s: seq<T>, k: nat)
    requires 0 < k < |s|
    ensures s[..k][0] == s[0] && s[..k][1..] == s[1..][..k - 1] && s[1..][k - 1] == s[k]
  {
  }

  lemma PrefixOfCons<T>(x: T, t: seq<T>, k: nat)
    requires 0 < k <= |t|
    ensures ([x] + t)[..k] == [x] + t[..k - 1] && ([x] + t)[k] == t[k - 1]
  {
  }

  /** Sampling works layer by layer: the first `k` layers are sampled as a
      sampling of their own, and layer `k`'s choice is `PickLayer` given the
      tuples and the draws left after them, whatever the clash table. */
  lemma {:induction false} SamplePicksLayer(layers: seq<Layer>, clashes: map<string, string>, dna: seq<string>, draws: seq<nat>, k: nat)
    requires Sample(layers, clashes, dna, draws).Success? && k < |layers|
    ensures var d := Sample(layers, clashes, dna, draws).value;
      var before := Sample(layers[..k], clashes, dna, draws);
      && before.Success? && before.value.picks == d.picks[..k]
      && PickLayer(layers[k], clashes, before.value.tuples, before.value.rest).Success?
      && PickLayer(layers[k], clashes, before.value.tuples, before.value.rest).value.0 == d.picks[k]
    decreases k
  {
    var (pick, rest) := PickLayer(layers[0], clashes, dna, draws).value;
    var dna' := dna + Emitted(layers[0], pick);
    var tail := Sample(layers[1..], clashes, dna', rest).value;
    var d := Sample(layers, clashes, dna, draws).value;
    assert d.picks == [pick] + tail.picks;
    if k == 0 {
      assert layers[..0] == [];
    } else {
      SamplePicksLayer(layers[1..], clashes, dna', rest, k - 1);
      var prefix := layers[..k];
      PrefixOfTail(layers, k);
      var inner := Sample(layers[1..][..k - 1], clashes, dna', rest).value;
      assert Sample(prefix, clashes, dna, draws).value == DnaDraw([pick] + inner.picks, inner.tuples, inner.rest);
      PrefixOfCons(pick, tail.picks, k);
    }
  }

  /** The tuple a layer contributes for its choice. */
  function Emitted(layer: Layer, pick: Option<nat>): seq<string>
    requires pick.Some? ==> pick.value < |layer.elements|
  {
    match pick
    case None => []
    case Some(i) => [Tuple(layer.elements[i], layer.bypassDNA)]
  }

  /** The first layer's choice respects the table given the tuples before it. */
  predicate FirstClashFree(layers: seq<Layer>, picks: seq<Option<nat>>, clashes: map<string, string>, dna: seq<string>)
    requires ValidPicks(layers, picks) && |layers| > 0
  {
    picks[0].Some? ==>
      var f := layers[0].elements[picks[0].value].filename;
      f in clashes ==> !AnyIncludes(dna, clashes[f])
  }

  lemma ClashFreeCons(layers: seq<Layer>, picks: seq<Option<nat>>, clashes: map<string, string>, dna: seq<string>)
    requires ValidPicks(layers, picks) && |layers| > 0
    requires FirstClashFree(layers, picks, clashes, dna)
    requires ValidPicks(layers[1..], picks[1..])
    requires ClashFree(layers[1..], picks[1..], clashes, dna + Emitted(layers[0], picks[0]))
    ensures ClashFree(layers, picks, clashes, dna)
  {
    var emitted := Emitted(layers[0], picks[0]);
    forall k | 0 <= k < |layers| && picks[k].Some?
      ensures var f := layers[k].elements[picks[k].value].filename;
        f in clashes ==> !AnyIncludes(dna + Serialize(layers[..k], picks[..k]), clashes[f])
    {
      if k == 0 {
        assert dna + Serialize(layers[..0], picks[..0]) == dna;
      } else {
        SerializePrefix(layers, picks, k);
        assert Serialize(layers[..1], picks[..1]) == emitted;
        assert layers[1..][k - 1] == layers[k];
        assert picks[1..][k - 1] == picks[k];
        assert dna + Serialize(layers[..k], picks[..k])
          == (dna + emitted) + Serialize(layers[1..][..k - 1], picks[1..][..k - 1]);
      }
    }
  }

  /** Clash avoidance: every choice that is a key of the table was made while
      no tuple before it included the file name the key maps to. */
  lemma {:induction false} SampleAvoidsClashes(layers: seq<Layer>, clashes: map<string, string>, dna: seq<string>, draws: seq<nat>)
    requires Sample(layers, clashes, dna, draws).Success?
    ensures ClashFree(layers, Sample(layers, clashes, dna, draws).value.picks, clashes, dna)
    decreases |layers|
  {
    if |layers| > 0 {
      var chosen := PickLayer(layers[0], clashes, dna, draws).value;
      var emitted := Emitted(layers[0], chosen.0);
      var tail := Sample(layers[1..], clashes, dna + emitted, chosen.1).value;
      SampleAvoidsClashes(layers[1..], clashes, dna + emitted, chosen.1);
      var picks := Sample(layers, clashes, dna, draws).value.picks;
      assert picks == [chosen.0] + tail.picks;
      assert picks[1..] == tail.picks;
      ClashFreeCons(layers, picks, clashes, dna);
    }
  }

  /** `createDna`: the DNA string and the choices and draws behind it. */
  function CreateDna(layers: seq<Layer>, clashes: map<string, string>, draws: seq<nat>)
    : (r: Result<(string, DnaDraw), Fault>)
    ensures r.Failure? ==> r.error == OutOfDraws
    ensures r.Success? ==> ValidPicks(layers, r.value.1.picks)
    ensures r.Success? ==> r.value.1.tuples == Serialize(layers, r.value.1.picks)
    ensures r.Success? ==> r.value.0 == Join(r.value.1.tuples, DnaDelimiter)
    ensures r.Success? ==> IsSuffix(r.value.1.rest, draws)
  {
    var sampled := Sample(layers, clashes, [], draws);
    if sampled.Failure? then Failure(sampled.error)
    else
      SampleTuples(layers, clashes, [], draws);
      assert [] + Serialize(layers, sampled.value.picks) == Serialize(layers, sampled.value.picks);
      Success((Join(sampled.value.tuples, DnaDelimiter), sampled.value))
  }

  // ---------------------------------------------------------------------
  // Properties of the draw
  // ---------------------------------------------------------------------

  /** Without a clash table each layer uses exactly one draw, in layer order,
      and chooses the element whose weight interval holds that draw. */
  lemma {:induction false} SampleWithoutClashes(layers: seq<Layer>, dna: seq<string>, draws: seq<nat>)
    requires |layers| <= |draws|
    ensures Sample(layers, map[], dna, draws).Success?
    ensures var d := Sample(layers, map[], dna, draws).value;
      && d.rest == draws[|layers|..]
      && forall k :: 0 <= k < |layers| ==>
           d.picks[k] == Walk(layers[k].elements, LayerDraw(TotalWeight(layers[k].elements), draws[k]), 0)
    decreases |layers|
  {
    if |layers| > 0 {
      var r := PickLayer(layers[0], map[], dna, draws);
      assert r.Success?;
      var emitted := Emitted(layers[0], r.value.0);
      SampleWithoutClashes(layers[1..], dna + emitted, draws[1..]);
      var d := Sample(layers, map[], dna, draws).value;
      forall k | 0 <= k < |layers|
        ensures d.picks[k] == Walk(layers[k].elements, LayerDraw(TotalWeight(layers[k].elements), draws[k]), 0)
      {
        if k > 0 {
          assert layers[1..][k - 1] == layers[k];
          assert draws[1..][k - 1] == draws[k];
        }
      }
    }
  }

  /** Layers of positive total weight each yield exactly one tuple. */
  predicate PositiveWeights(layers: seq<Layer>) {
    forall k :: 0 <= k < |layers| ==> TotalWeight(layers[k].elements) > 0
  }

  lemma {:induction false} SampleChoosesEveryLayer(layers: seq<Layer>, clashes: map<string, string>, dna: seq<string>, draws: seq<nat>)
    requires PositiveWeights(layers)
    requires Sample(layers, clashes, dna, draws).Success?
    ensures forall k :: 0 <= k < |layers| ==> Sample(layers, clashes, dna, draws).value.picks[k].Some?
    decreases |layers|
  {
    if |layers| > 0 {
      var chosen := PickLayer(layers[0], clashes, dna, draws).value;
      DrawPicks(layers[0].elements, draws[0]);
      var emitted := Emitted(layers[0], chosen.0);
      assert PositiveWeights(layers[1..]) by {
        forall k | 0 <= k < |layers| - 1
          ensures TotalWeight(layers[1..][k].elements) > 0
        {
          assert layers[1..][k] == layers[k + 1];
        }
      }
      SampleChoosesEveryLayer(layers[1..], clashes, dna + emitted, chosen.1);
    }
  }

  /** When every choice is made, the DNA has one tuple per layer, in layer
      order, each `id:filename` with the bypass suffix exactly for layers
      that set `bypassDNA`. */
  lemma {:induction false} SerializeAllChosen(layers: seq<Layer>, picks: seq<Option<nat>>)
    requires ValidPicks(layers, picks)
    requires forall k :: 0 <= k < |layers| ==> picks[k].Some?
    ensures |Serialize(layers, picks)| == |layers|
    ensures forall k :: 0 <= k < |layers| ==>
      Serialize(layers, picks)[k] == Tuple(layers[k].elements[picks[k].value], layers[k].bypassDNA)
    decreases |layers|
  {
    if |layers| > 0 {
      SerializeAllChosen(layers[1..], picks[1..]);
      forall k | 0 <= k < |layers|
        ensures Serialize(layers, picks)[k] == Tuple(layers[k].elements[picks[k].value], layers[k].bypassDNA)
      {
        if k > 0 {
          assert layers[1..][k - 1] == layers[k];
          assert picks[1..][k - 1] == picks[k];
        }
      }
    }
  }

  /** Tuples end in the bypass suffix exactly for bypassing layers. */
  lemma TupleSuffix(e: Element, bypass: bool)
    requires '?' !in e.filename
    ensures bypass <==> '?' in Tuple(e, bypass)
    ensures bypass ==> Tuple(e, bypass) == Tuple(e, false) + BypassSuffix
  {
    var head := NatToString(e.id) + ":" + e.filename;
    assert Tuple(e, bypass) == head + (if bypass then BypassSuffix else "");
    assert '?' !in NatToString(e.id);
    assert '?' !in head;
    if bypass {
      assert (head + BypassSuffix)[|head|] == '?';
    }
  }

  /** The tuple of every layer that chose is among the serialized tuples. */
  lemma {:induction false} SerializeHasTuple(layers: seq<Layer>, picks: seq<Option<nat>>, b: nat)
    requires ValidPicks(layers, picks) && b < |layers| && picks[b].Some?
    ensures Tuple(layers[b].elements[picks[b].value], layers[b].bypassDNA) in Serialize(layers, picks)
    decreases b
  {
    if b > 0 {
      SerializeHasTuple(layers[1..], picks[1..], b - 1);
      assert layers[1..][b - 1] == layers[b] && picks[1..][b - 1] == picks[b];
    }
  }

  /** A tuple includes its element's file name. */
  lemma TupleIncludesFileName(e: Element, bypass: bool)
    ensures Contains(Tuple(e, bypass), e.filename)
  {
    var t := Tuple(e, bypass);
    var i := |NatToString(e.id)| + 1;
    assert t[i..i + |e.filename|] == e.filename;
    ContainsAt(t, e.filename, i);
  }

  /** A table key is never chosen after an earlier layer chose an element
      whose tuple includes the file name the key maps to. */
  lemma ClashingChoiceNeverFollows(layers: seq<Layer>, clashes: map<string, string>, draws: seq<nat>, b: nat, h: nat)
    requires b < h < |layers|
    requires CreateDna(layers, clashes, draws).Success?
    requires var picks := CreateDna(layers, clashes, draws).value.1.picks;
      picks[b].Some? && picks[h].Some?
    ensures var picks := CreateDna(layers, clashes, draws).value.1.picks;
      var f := layers[h].elements[picks[h].value].filename;
      f in clashes ==> !Contains(Tuple(layers[b].elements[picks[b].value], layers[b].bypassDNA), clashes[f])
  {
    var picks := CreateDna(layers, clashes, draws).value.1.picks;
    SampleAvoidsClashes(layers, clashes, [], draws);
    SerializePrefix(layers, picks, h);
    assert layers[..h][b] == layers[b] && picks[..h][b] == picks[b];
    SerializeHasTuple(layers[..h], picks[..h], b);
    assert [] + Serialize(layers[..h], picks[..h]) == Serialize(layers[..h], picks[..h]);
  }

  /** With the Jims clash table and the background layer before the head
      layer, `head_jimbun.png` never comes with `bg_lightvoid.png`. */
  lemma JimbunNeverOnLightVoid(layers: seq<Layer>, draws: seq<nat>, bg: nat, head: nat)
    requires bg < head < |layers|
    requires CreateDna(layers, ClashMonitor, draws).Success?
    requires var picks := CreateDna(layers, ClashMonitor, draws).value.1.picks;
      && picks[bg].Some? && picks[head].Some?
      && layers[bg].elements[picks[bg].value].filename == "bg_lightvoid.png"
    ensures var picks := CreateDna(layers, ClashMonitor, draws).value.1.picks;
      layers[head].elements[picks[head].value].filename != "head_jimbun.png"
  {
    var picks := CreateDna(layers, ClashMonitor, draws).value.1.picks;
    ClashingChoiceNeverFollows(layers, ClashMonitor, draws, bg, head);
    TupleIncludesFileName(layers[bg].elements[picks[bg].value], layers[bg].bypassDNA);
    assert ClashMonitor["head_jimbun.png"] == "bg_lightvoid.png";
  }

  /** A single layer with a single element of positive weight: one draw
      picks that element, and no clash can force a re-roll since there is no
      earlier tuple. So every DNA drawn from it is the same. */
  lemma OneElementDna(layer: Layer, draws: seq<nat>)
    requires |layer.elements| == 1 && layer.elements[0].weight > 0
    requires |draws| > 0
    ensures CreateDna([layer], ClashMonitor, draws).Success?
    ensures CreateDna([layer], ClashMonitor, draws).value.1.picks == [Some(0)]
    ensures CreateDna([layer], ClashMonitor, draws).value.1.rest == draws[1..]
  {
    var es := layer.elements;
    assert TotalWeight(es) == es[0].weight;
    assert Walk(es, LayerDraw(TotalWeight(es), draws[0]), 0) == Some(0);
    assert !Clashes(ClashMonitor, [], es[0].filename);
    assert PickLayer(layer, ClashMonitor, [], draws) == Success((Some(0), draws[1..]));
    var layers := [layer];
    var tuples := [] + Emitted(layer, Some(0));
    var none: seq<Option<nat>> := [];
    assert layers[0] == layer && layers[1..] == [];
    assert Sample([], ClashMonitor, tuples, draws[1..]) == Success(DnaDraw(none, tuples, draws[1..]));
    assert [Some(0)] + none == [Some(0)];
    assert Sample(layers, ClashMonitor, [], draws) == Success(DnaDraw([Some(0)], tuples, draws[1..]));
  }
}
