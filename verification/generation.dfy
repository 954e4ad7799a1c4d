/** `startCreating`: the phase loop that draws DNA until each phase's
    `growEditionSizeTo` is reached, assigning edition numbers from the pool
    and rejecting DNA whose admission key was seen before. The run is a pure
    function of the configuration, the layer folders and the random draws. */
module Generation {
  import opened Wrappers
  import opened JsText
  import opened Faults
  import opened Elements
  import opened Dna
  import opened DnaKey
  import opened Metadata
  import opened Shuffle

  /** One entry of `layerConfigurations`. */
  datatype Phase = Phase(growEditionSizeTo: int, layersOrder: seq<LayerConfig>)

  /** The configuration the run reads. `randomBackground` is
      `background.generate && !background.static`: a background colour is
      then drawn for every edition. */
  datatype Config = Config(
    branding: Branding,
    uniqueDnaTorrance: int,
    layerConfigurations: seq<Phase>,
    rarityDelimiter: char,
    shuffleLayerConfigurations: bool,
    randomBackground: bool,
    layersDir: string)

  /** The variables of `startCreating` and the module state it updates:
      `abstractedIndexes` is the pool, `dnaList` holds the accepted keys in
      insertion order, and `draws` is what is left of the random numbers. */
  datatype RunState = RunState(
    editionCount: nat,
    failedCount: nat,
    pool: seq<nat>,
    dnaList: seq<string>,
    metadataList: seq<Record>,
    draws: seq<nat>)

  /** What one turn of the inner loop did. */
  datatype StepResult = Accepted(next: RunState) | Rejected(next: RunState)

  /** How a run ended: the state reached, and the fault that stopped it
      early, if any. Only a run without one writes `_metadata`. */
  datatype Run = Run(state: RunState, stop: Option<Fault>)

  // ---------------------------------------------------------------------
  // One edition
  // ---------------------------------------------------------------------

  /** The selected elements of `constructLayerToDna`'s result from layer `k`
      on, each with its layer's name. A missing element leaves the image
      promise unsettled, so nothing is drawn. */
  function SelectedElements(results: seq<Resolved>, k: nat): (r: Result<seq<(string, Element)>, Fault>)
    requires k <= |results|
    ensures r.Success? <==> forall i :: k <= i < |results| ==> results[i].selectedElement.Some?
    ensures r.Success? ==> |r.value| == |results| - k
    ensures r.Success? ==> forall i :: 0 <= i < |r.value| ==>
      (results[k + i].selectedElement.Some?
       && r.value[i] == (results[k + i].name, results[k + i].selectedElement.value))
    // The fault names the first layer from `k` on that resolved to nothing.
    ensures r.Failure? ==> exists i ::
      && k <= i < |results| && r.error == ElementNotFound(i)
      && results[i].selectedElement.None?
      && forall m :: k <= m < i ==> results[m].selectedElement.Some?
    decreases |results| - k
  {
    if k == |results| then Success([])
    else if results[k].selectedElement.None? then Failure(ElementNotFound(k))
    else
      var rest :- SelectedElements(results, k + 1);
      Success([(results[k].name, results[k].selectedElement.value)] + rest)
  }

  /** `genColor`'s `Math.random()`: one draw when the background is random. */
  function BackgroundDraw(randomBackground: bool, draws: seq<nat>): (r: Result<seq<nat>, Fault>)
    ensures r.Success? <==> !randomBackground || |draws| > 0
    ensures r.Success? ==> r.value == if randomBackground then draws[1..] else draws
    ensures r.Failure? ==> r.error == OutOfDraws
  {
    if !randomBackground then Success(draws)
    else if |draws| == 0 then Failure(OutOfDraws)
    else Success(draws[1..])
  }

  /** The body of the `Promise.all(...).then` callback for an accepted DNA:
      the record of the edition at the head of the pool, and the draws left. */
  function RenderEdition(cfg: Config, layers: seq<Layer>, dna: string, pool: seq<nat>, draws: seq<nat>)
    : (r: Result<(Record, seq<nat>), Fault>)
    ensures r.Success? ==> |pool| > 0 && r.value.0.edition == pool[0] && r.value.0.dna == Sha1(dna)
    ensures r.Success? ==> |r.value.0.attributes| == |layers|
    ensures r.Success? ==> IsSuffix(r.value.1, draws)
    ensures r.Failure? ==>
      (r.error.MissingTuple? || r.error.ElementNotFound? || r.error == OutOfDraws
       || r.error == NoLayers || r.error.NoDisplayName? || r.error == PoolExhausted)
  {
    var results :- ConstructLayerToDna(dna, layers);
    RenderResults(cfg, results, dna, pool, draws)
  }

  /** The part of `RenderEdition` after `constructLayerToDna`: the drawing
      of the resolved layers and the record. */
  function RenderResults(cfg: Config, results: seq<Resolved>, dna: string, pool: seq<nat>, draws: seq<nat>)
    : (r: Result<(Record, seq<nat>), Fault>)
    ensures r.Success? ==> |pool| > 0 && r.value.0.edition == pool[0] && r.value.0.dna == Sha1(dna)
    ensures r.Success? ==> |r.value.0.attributes| == |results|
    ensures r.Success? ==> IsSuffix(r.value.1, draws)
    ensures r.Failure? ==>
      (r.error.ElementNotFound? || r.error == OutOfDraws
       || r.error == NoLayers || r.error.NoDisplayName? || r.error == PoolExhausted)
  {
    var selected :- SelectedElements(results, 0);
    var rest :- BackgroundDraw(cfg.randomBackground, draws);
    var rec :- MakeRecord(cfg.branding, selected, dna, pool);
    Success((rec, rest))
  }

  /** The drawing of the selected elements, which pushes their attributes,
      and `addMetadata` for the edition at the pool's head. The file
      extension is that of the first layer's element. */
  function MakeRecord(b: Branding, selected: seq<(string, Element)>, dna: string, pool: seq<nat>)
    : (r: Result<Record, Fault>)
    ensures r.Success? <==>
      && |selected| > 0 && |pool| > 0
      && forall k :: 0 <= k < |selected| ==> DisplayName(selected[k].1.name).Success?
    ensures r.Success? ==>
      && r.value == Record(EditionName(b.namePrefix, pool[0]), b.description,
                           ImageUri(b.baseUri, pool[0], Last(selected[0].1.path, '.')),
                           Sha1(dna), pool[0], r.value.attributes)
      && |r.value.attributes| == |selected|
      && forall k :: 0 <= k < |selected| ==>
           r.value.attributes[k] == Attribute(selected[k].0, DisplayName(selected[k].1.name).value)
    ensures r.Failure? ==> (r.error == NoLayers || r.error.NoDisplayName? || r.error == PoolExhausted)
  {
    if |selected| == 0 then Failure(NoLayers)
    else
      var ext := Last(selected[0].1.path, '.');
      var attributes :- PushAttributes([], selected);
      PushAttributesValues([], selected);
      if |pool| == 0 then Failure(PoolExhausted)
      else Success(AddMetadata(b, attributes, dna, pool[0], ext).0)
  }

  /** The record of an accepted DNA describes the draw behind it: one
      attribute per layer, in layer order, naming the layer and the display
      name of the element drawn for it; its name and image carry the edition
      number taken from the pool's head and the extension of the first
      layer's element. Rendering succeeds exactly when there is a layer, a
      pool entry, a background draw if needed, and a display name for every
      drawn element. */
  lemma RecordDescribesDraw(cfg: Config, layers: seq<Layer>, draws: seq<nat>, pool: seq<nat>)
    requires ParseableLayers(layers) && PositiveWeights(layers)
    requires CreateDna(layers, ClashMonitor, draws).Success?
    ensures var (dna, d) := CreateDna(layers, ClashMonitor, draws).value;
      && AllChosen(d.picks)
      && (RenderEdition(cfg, layers, dna, pool, d.rest).Success? <==>
            && |layers| > 0 && |pool| > 0
            && (cfg.randomBackground ==> |d.rest| > 0)
            && forall k :: 0 <= k < |layers| ==>
                 DisplayName(layers[k].elements[d.picks[k].value].name).Success?)
    ensures var (dna, d) := CreateDna(layers, ClashMonitor, draws).value;
      RenderEdition(cfg, layers, dna, pool, d.rest).Success? ==>
        var rec := RenderEdition(cfg, layers, dna, pool, d.rest).value.0;
        && rec.name == EditionName(cfg.branding.namePrefix, pool[0])
        && rec.image == ImageUri(cfg.branding.baseUri, pool[0], Last(layers[0].elements[d.picks[0].value].path, '.'))
        && rec.description == cfg.branding.description
        && |rec.attributes| == |layers|
        && forall k :: 0 <= k < |layers| ==>
             rec.attributes[k]
               == Attribute(layers[k].name, DisplayName(layers[k].elements[d.picks[k].value].name).value)
  {
    var (dna, d) := CreateDna(layers, ClashMonitor, draws).value;
    ConstructLayerToDnaRoundTrip(layers, ClashMonitor, draws);
    var results := ConstructLayerToDna(dna, layers).value;
    assert RenderEdition(cfg, layers, dna, pool, d.rest) == RenderResults(cfg, results, dna, pool, d.rest);
    PicksRendered(cfg, layers, d.picks, results, dna, pool, d.rest);
  }

  /** `RenderResolved` with the elements named by a pick per layer. */
  lemma PicksRendered(cfg: Config, layers: seq<Layer>, picks: seq<Option<nat>>, results: seq<Resolved>, dna: string, pool: seq<nat>, rest: seq<nat>)
    requires ValidPicks(layers, picks) && AllChosen(picks) && |results| == |layers|
    requires forall k :: 0 <= k < |layers| ==>
      results[k] == Resolved(layers[k].name, layers[k].blend, layers[k].opacity, Some(layers[k].elements[picks[k].value]))
    ensures RenderResults(cfg, results, dna, pool, rest).Success? <==>
      && |layers| > 0 && |pool| > 0 && (cfg.randomBackground ==> |rest| > 0)
      && forall k :: 0 <= k < |layers| ==> DisplayName(layers[k].elements[picks[k].value].name).Success?
    ensures RenderResults(cfg, results, dna, pool, rest).Success? ==>
      var rec := RenderResults(cfg, results, dna, pool, rest).value.0;
      && rec.name == EditionName(cfg.branding.namePrefix, pool[0])
      && rec.image == ImageUri(cfg.branding.baseUri, pool[0], Last(layers[0].elements[picks[0].value].path, '.'))
      && rec.description == cfg.branding.description
      && |rec.attributes| == |layers|
      && forall k :: 0 <= k < |layers| ==>
           rec.attributes[k] == Attribute(layers[k].name, DisplayName(layers[k].elements[picks[k].value].name).value)
  {
    var chosen := seq(|layers|, k requires 0 <= k < |layers| => layers[k].elements[picks[k].value]);
    RenderResolved(cfg, layers, results, dna, pool, rest, chosen);
  }

  /** `RenderResults` once every layer's element is known. */
  lemma RenderResolved(cfg: Config, layers: seq<Layer>, results: seq<Resolved>, dna: string, pool: seq<nat>, rest: seq<nat>, chosen: seq<Element>)
    requires |results| == |layers| && |chosen| == |layers|
    requires forall k :: 0 <= k < |layers| ==>
      results[k].selectedElement == Some(chosen[k]) && results[k].name == layers[k].name
    ensures RenderResults(cfg, results, dna, pool, rest).Success? <==>
      && |layers| > 0 && |pool| > 0 && (cfg.randomBackground ==> |rest| > 0)
      && forall k :: 0 <= k < |layers| ==> DisplayName(chosen[k].name).Success?
    ensures RenderResults(cfg, results, dna, pool, rest).Success? ==>
      var rec := RenderResults(cfg, results, dna, pool, rest).value.0;
      && rec.name == EditionName(cfg.branding.namePrefix, pool[0])
      && rec.image == ImageUri(cfg.branding.baseUri, pool[0], Last(chosen[0].path, '.'))
      && rec.description == cfg.branding.description
      && |rec.attributes| == |layers|
      && forall k :: 0 <= k < |layers| ==>
           rec.attributes[k] == Attribute(layers[k].name, DisplayName(chosen[k].name).value)
  {
    var selected := SelectedElements(results, 0);
    assert selected.Success?;
    var sel := selected.value;
    assert forall k :: 0 <= k < |layers| ==> sel[k] == (layers[k].name, chosen[k]);
    var mr := MakeRecord(cfg.branding, sel, dna, pool);
    assert mr.Success? <==>
      && |layers| > 0 && |pool| > 0
      && forall k :: 0 <= k < |layers| ==> DisplayName(chosen[k].name).Success?;
    assert RenderResults(cfg, results, dna, pool, rest).Success?
      <==> BackgroundDraw(cfg.randomBackground, rest).Success? && mr.Success?;
  }

  /** `n` is `st` after an accepted edition: the pool's head became the
      number of the new record, whose key is new and now recorded. */
  predicate AcceptedFrom(st: RunState, n: RunState) {
    && |st.pool| > 0
    && n.pool == st.pool[1..]
    && n.editionCount == st.editionCount + 1
    && n.failedCount == st.failedCount
    && |n.dnaList| == |st.dnaList| + 1 && n.dnaList[..|st.dnaList|] == st.dnaList
    && n.dnaList[|st.dnaList|] !in st.dnaList
    && |n.metadataList| == |st.metadataList| + 1 && n.metadataList[..|st.metadataList|] == st.metadataList
    && n.metadataList[|st.metadataList|].edition == st.pool[0]
    && n.dnaList[|st.dnaList|] == FilterDnaOptions(n.metadataList[|st.metadataList|].dna.of)
    && IsSuffix(n.draws, st.draws)
  }

  /** `n` is `st` after a rejected DNA: only the failure count (by one) and
      the draws changed, and the count is still below the tolerance. */
  predicate RejectedFrom(cfg: Config, st: RunState, n: RunState) {
    && n == st.(failedCount := st.failedCount + 1, draws := n.draws)
    && st.failedCount + 1 < cfg.uniqueDnaTorrance
    && IsSuffix(n.draws, st.draws)
  }

  /** The state after accepting `dna` with record `rec`. */
  function Accept(st: RunState, dna: string, rec: Record, rest: seq<nat>): (n: RunState)
    requires |st.pool| > 0 && rec.edition == st.pool[0] && rec.dna == Sha1(dna)
    requires IsDnaUnique(st.dnaList, dna) && IsSuffix(rest, st.draws)
    ensures AcceptedFrom(st, n)
  {
    st.(
      editionCount := st.editionCount + 1,
      pool := st.pool[1..],
      dnaList := st.dnaList + [FilterDnaOptions(dna)],
      metadataList := st.metadataList + [rec],
      draws := rest)
  }

  lemma SuffixOfSuffix(a: seq<nat>, b: seq<nat>, c: seq<nat>)
    requires IsSuffix(a, b) && IsSuffix(b, c)
    ensures IsSuffix(a, c)
  {
  }

  /** How a turn's outcome follows from its draw. A DNA that cannot be
      drawn ends the phase with its fault. A drawn DNA whose key was seen
      counts a failure, keeping the draws `createDna` left, and stops the run
      once the count reaches the tolerance. A drawn DNA with a new key is
      accepted with the record rendered for it, or ends the phase with the
      rendering's fault. */
  predicate FollowsDraw(cfg: Config, layers: seq<Layer>, target: int, st: RunState, r: Result<StepResult, Fault>) {
    var c := CreateDna(layers, ClashMonitor, st.draws);
    if c.Failure? then r == Failure(c.error)
    else
      var (dna, d) := c.value;
      if !IsDnaUnique(st.dnaList, dna) then
        if st.failedCount + 1 >= cfg.uniqueDnaTorrance
        then r == Failure(TooManyFailures(st.failedCount + 1, target))
        else r == Success(Rejected(st.(failedCount := st.failedCount + 1, draws := d.rest)))
      else
        var e := RenderEdition(cfg, layers, dna, st.pool, d.rest);
        if e.Failure? then r == Failure(e.error)
        else
          && r.Success? && r.value.Accepted?
          && r.value.next.metadataList == st.metadataList + [e.value.0]
          && r.value.next.dnaList == st.dnaList + [FilterDnaOptions(dna)]
          && r.value.next.draws == e.value.1
  }

  /** One turn of the inner `while`: draw a DNA; if its key is new, render
      the edition, take the pool's head as its number and record the key;
      otherwise count a failure and stop once the count reaches
      `uniqueDnaTorrance`. */
  function Step(cfg: Config, layers: seq<Layer>, target: int, st: RunState): (r: Result<StepResult, Fault>)
    ensures r.Success? && r.value.Accepted? ==> AcceptedFrom(st, r.value.next)
    ensures r.Success? && r.value.Rejected? ==> RejectedFrom(cfg, st, r.value.next)
    ensures r.Failure? && r.error.TooManyFailures? ==>
      r.error == TooManyFailures(st.failedCount + 1, target)
      && st.failedCount + 1 >= cfg.uniqueDnaTorrance
    ensures r.Failure? ==> r.error != NoPhases && !r.error.MissingFolder?
    ensures FollowsDraw(cfg, layers, target, st, r)
  {
    var c := CreateDna(layers, ClashMonitor, st.draws);
    if c.Failure? then Failure(c.error)
    else if !IsDnaUnique(st.dnaList, c.value.0) then
      if st.failedCount + 1 >= cfg.uniqueDnaTorrance then Failure(TooManyFailures(st.failedCount + 1, target))
      else Success(Rejected(st.(failedCount := st.failedCount + 1, draws := c.value.1.rest)))
    else
      var e := RenderEdition(cfg, layers, c.value.0, st.pool, c.value.1.rest);
      if e.Failure? then Failure(e.error)
      else
        SuffixOfSuffix(e.value.1, c.value.1.rest, st.draws);
        Success(Accepted(Accept(st, c.value.0, e.value.0, e.value.1)))
  }

  // ---------------------------------------------------------------------
  // Invariants of the run
  // ---------------------------------------------------------------------

  /** What holds between any two turns of the loops, for the pool `pool0` the
      run started with: the keys are distinct and are the keys of the
      records, one record per edition counted, and the records' edition
      numbers are the pool's numbers used so far, in pool order. */
  predicate Invariant(pool0: seq<nat>, st: RunState) {
    && Distinct(st.dnaList)
    && |st.metadataList| == |st.dnaList| == st.editionCount - 1
    && (forall k :: 0 <= k < |st.dnaList| ==> st.dnaList[k] == FilterDnaOptions(st.metadataList[k].dna.of))
    && Editions(st.metadataList) + st.pool == pool0
  }

  /** An accepted edition keeps the invariant. */
  lemma AcceptKeepsInvariant(pool0: seq<nat>, st: RunState, n: RunState)
    requires Invariant(pool0, st) && AcceptedFrom(st, n)
    ensures Invariant(pool0, n)
  {
    forall k | 0 <= k < |n.dnaList| - 1
      ensures n.dnaList[k] == st.dnaList[k] && n.metadataList[k] == st.metadataList[k]
    {
      assert n.dnaList[..|st.dnaList|][k] == n.dnaList[k];
      assert n.metadataList[..|st.metadataList|][k] == n.metadataList[k];
    }
    assert Editions(n.metadataList) == Editions(st.metadataList) + [st.pool[0]];
    assert st.pool == [st.pool[0]] + n.pool;
  }

  /** A rejected DNA keeps the invariant. */
  lemma RejectKeepsInvariant(cfg: Config, pool0: seq<nat>, st: RunState, n: RunState)
    requires Invariant(pool0, st) && RejectedFrom(cfg, st, n)
    ensures Invariant(pool0, n)
  {
  }

  /** What the invariant says about a state of a run whose pool `pool0` holds
      `1..size` once each: distinct edition numbers in that range, and all of
      them once the pool is used up. */
  lemma InvariantEditions(pool0: seq<nat>, size: int, st: RunState)
    requires Invariant(pool0, st)
    requires Distinct(pool0) && forall e: nat :: e in pool0 <==> 1 <= e <= size
    ensures Distinct(Editions(st.metadataList))
    ensures forall k :: 0 <= k < |st.metadataList| ==> 1 <= st.metadataList[k].edition <= size
    ensures |st.pool| == 0 ==> forall e: nat :: e in Editions(st.metadataList) <==> 1 <= e <= size
  {
    var es := Editions(st.metadataList);
    forall i, j | 0 <= i < j < |es|
      ensures es[i] != es[j]
    {
      assert es[i] == pool0[i] && es[j] == pool0[j];
    }
    forall k | 0 <= k < |st.metadataList|
      ensures 1 <= st.metadataList[k].edition <= size
    {
      assert es[k] == pool0[k];
      assert pool0[k] in pool0;
    }
    if |st.pool| == 0 {
      assert es == pool0;
    }
  }

  /** Once as many editions are counted as the pool held, the pool is used
      up. */
  lemma PoolUsedUp(pool0: seq<nat>, st: RunState)
    requires Invariant(pool0, st) && |pool0| < st.editionCount
    ensures |st.pool| == 0
  {
    assert |Editions(st.metadataList)| + |st.pool| == |pool0|;
  }

  // ---------------------------------------------------------------------
  // The loops
  // ---------------------------------------------------------------------

  /** What is left of the rejection budget. */
  function Budget(cfg: Config, st: RunState): nat {
    if cfg.uniqueDnaTorrance > st.failedCount then cfg.uniqueDnaTorrance - st.failedCount else 0
  }

  /** `layerConfigurations[layerConfigurations.length - 1]`. */
  function FinalPhase(cfg: Config): Phase
    requires |cfg.layerConfigurations| > 0
  {
    cfg.layerConfigurations[|cfg.layerConfigurations| - 1]
  }

  /** The state before the first phase, around a given pool. */
  function Initial(pool: seq<nat>, draws: seq<nat>): RunState {
    RunState(1, 0, pool, [], [], draws)
  }

  /** The inner `while` as a function: turns are taken from `st` until
      `editionCount` passes `target` or a turn fails, whose fault stops the
      phase. Each turn uses up a pool entry or some of the rejection budget,
      so this ends. */
  function Turns(cfg: Config, layers: seq<Layer>, target: int, st: RunState): (RunState, Option<Fault>)
    decreases |st.pool| + Budget(cfg, st)
  {
    if st.editionCount > target then (st, None)
    else
      var r := Step(cfg, layers, target, st);
      if r.Failure? then (st, Some(r.error))
      else Turns(cfg, layers, target, r.value.next)
  }

  /** The turns end in one of two ways: `editionCount` has passed the
      target, or the turn taken from the final state failed with the fault
      that stops the phase. */
  lemma {:induction false} TurnsEnd(cfg: Config, layers: seq<Layer>, target: int, st: RunState)
    ensures var (s, stop) := Turns(cfg, layers, target, st);
      && (stop.None? ==> s.editionCount > target)
      && (stop.Some? ==> s.editionCount <= target && Step(cfg, layers, target, s) == Failure(stop.value))
    decreases |st.pool| + Budget(cfg, st)
  {
    if st.editionCount <= target {
      var r := Step(cfg, layers, target, st);
      if r.Success? {
        TurnsEnd(cfg, layers, target, r.value.next);
      }
    }
  }

  /** A phase as a function: a missing layer folder stops it before any
      turn. */
  function PhaseOutcome(cfg: Config, folders: Folders, phase: Phase, st: RunState): (RunState, Option<Fault>) {
    var setup := LayersSetup(folders, cfg.layersDir, cfg.rarityDelimiter, phase.layersOrder);
    if setup.Failure? then (st, Some(setup.error))
    else Turns(cfg, setup.value, phase.growEditionSizeTo, st)
  }

  /** The phases run in order from `st`; the first fault stops the rest. */
  function Phases(cfg: Config, folders: Folders, phases: seq<Phase>, st: RunState): (RunState, Option<Fault>)
    decreases |phases|
  {
    if |phases| == 0 then (st, None)
    else
      var (next, stop) := PhaseOutcome(cfg, folders, phases[0], st);
      if stop.Some? then (next, stop) else Phases(cfg, folders, phases[1..], next)
  }

  /** `Phases` from phase `i` on runs phase `i`, then the rest unless it
      stopped. */
  lemma PhasesFrom(cfg: Config, folders: Folders, phases: seq<Phase>, i: nat, st: RunState)
    requires i < |phases|
    ensures var (next, stop) := PhaseOutcome(cfg, folders, phases[i], st);
      Phases(cfg, folders, phases[i..], st)
        == if stop.Some? then (next, stop) else Phases(cfg, folders, phases[i + 1..], next)
  {
    assert phases[i..][0] == phases[i] && phases[i..][1..] == phases[i + 1..];
  }

  /** What the turns keep: the invariant, the failure count below the
      tolerance, and, when they stop for rejections, the count that reached
      it. Without a stop, `editionCount` has passed the target. */
  lemma {:induction false} TurnsKeep(cfg: Config, layers: seq<Layer>, target: int, st: RunState, pool0: seq<nat>)
    requires Invariant(pool0, st)
    requires st.failedCount > 0 ==> st.failedCount < cfg.uniqueDnaTorrance
    ensures var (s, stop) := Turns(cfg, layers, target, st);
      && Invariant(pool0, s)
      && s.editionCount >= st.editionCount && s.failedCount >= st.failedCount
      && (stop.None? ==> s.editionCount > target)
      && stop != Some(NoPhases)
      && (stop.Some? && stop.value.TooManyFailures? ==>
            stop.value == TooManyFailures(s.failedCount + 1, target) && s.failedCount + 1 >= cfg.uniqueDnaTorrance)
      && (s.failedCount > 0 ==> s.failedCount < cfg.uniqueDnaTorrance)
    decreases |st.pool| + Budget(cfg, st)
  {
    if st.editionCount <= target {
      var r := Step(cfg, layers, target, st);
      if r.Success? {
        if r.value.Accepted? {
          AcceptKeepsInvariant(pool0, st, r.value.next);
        } else {
          RejectKeepsInvariant(cfg, pool0, st, r.value.next);
        }
        TurnsKeep(cfg, layers, target, r.value.next, pool0);
      }
    }
  }

  /** What a phase keeps: as `TurnsKeep`, a missing folder being a fault
      other than `NoPhases`. */
  lemma PhaseKeeps(cfg: Config, folders: Folders, phase: Phase, st: RunState, pool0: seq<nat>)
    requires Invariant(pool0, st)
    requires st.failedCount > 0 ==> st.failedCount < cfg.uniqueDnaTorrance
    ensures var (s, stop) := PhaseOutcome(cfg, folders, phase, st);
      && Invariant(pool0, s)
      && s.editionCount >= st.editionCount && s.failedCount >= st.failedCount
      && (stop.None? ==> s.editionCount > phase.growEditionSizeTo)
      && stop != Some(NoPhases)
      && (stop.Some? && stop.value.TooManyFailures? ==>
            stop.value == TooManyFailures(s.failedCount + 1, phase.growEditionSizeTo)
            && s.failedCount + 1 >= cfg.uniqueDnaTorrance)
      && (s.failedCount > 0 ==> s.failedCount < cfg.uniqueDnaTorrance)
  {
    var setup := LayersSetup(folders, cfg.layersDir, cfg.rarityDelimiter, phase.layersOrder);
    if setup.Success? {
      TurnsKeep(cfg, setup.value, phase.growEditionSizeTo, st, pool0);
    }
  }

  /** What the phases keep: the invariant and the failure count below the
      tolerance; a rejection stop has the count at the tolerance; a run
      without a stop has passed the last phase's target. */
  lemma {:induction false} PhasesKeep(cfg: Config, folders: Folders, phases: seq<Phase>, st: RunState, pool0: seq<nat>)
    requires Invariant(pool0, st)
    requires st.failedCount > 0 ==> st.failedCount < cfg.uniqueDnaTorrance
    ensures var (s, stop) := Phases(cfg, folders, phases, st);
      && Invariant(pool0, s)
      && (stop.None? && |phases| > 0 ==> s.editionCount > phases[|phases| - 1].growEditionSizeTo)
      && stop != Some(NoPhases)
      && (stop.Some? && stop.value.TooManyFailures? ==>
            stop.value.failedCount == s.failedCount + 1 >= cfg.uniqueDnaTorrance)
      && (s.failedCount > 0 ==> s.failedCount < cfg.uniqueDnaTorrance)
    decreases |phases|
  {
    if |phases| > 0 {
      PhaseKeeps(cfg, folders, phases[0], st, pool0);
      var (next, stop) := PhaseOutcome(cfg, folders, phases[0], st);
      if stop.None? {
        PhasesKeep(cfg, folders, phases[1..], next, pool0);
        if |phases| > 1 {
          assert phases[1..][|phases| - 2] == phases[|phases| - 1];
        }
      }
    }
  }

  /** The whole of `startCreating` as a function of the layer folders and the
      random draws. */
  function Creation(cfg: Config, folders: Folders, draws: seq<nat>): Run {
    if |cfg.layerConfigurations| == 0 then Run(Initial([], draws), Some(NoPhases))
    else
      var pooled := EditionPool(FinalPhase(cfg).growEditionSizeTo, cfg.shuffleLayerConfigurations, draws);
      if pooled.Failure? then Run(Initial([], draws), Some(pooled.error))
      else
        var (st, stop) := Phases(cfg, folders, cfg.layerConfigurations, Initial(pooled.value.0, pooled.value.1));
        Run(st, stop)
  }

  /** Rendering uses up the background draw when a random background is
      configured, and no other draw. */
  lemma RenderLeavesDraws(cfg: Config, layers: seq<Layer>, dna: string, pool: seq<nat>, draws: seq<nat>)
    requires RenderEdition(cfg, layers, dna, pool, draws).Success?
    ensures RenderEdition(cfg, layers, dna, pool, draws).value.1
      == if cfg.randomBackground then draws[1..] else draws
  {
    var parsed := ConstructLayerToDna(dna, layers);
    assert parsed.Success?;
    assert RenderEdition(cfg, layers, dna, pool, draws) == RenderResults(cfg, parsed.value, dna, pool, draws);
    ResultsLeaveDraws(cfg, parsed.value, dna, pool, draws);
  }

  lemma ResultsLeaveDraws(cfg: Config, results: seq<Resolved>, dna: string, pool: seq<nat>, draws: seq<nat>)
    requires RenderResults(cfg, results, dna, pool, draws).Success?
    ensures RenderResults(cfg, results, dna, pool, draws).value.1
      == if cfg.randomBackground then draws[1..] else draws
  {
    var selected := SelectedElements(results, 0);
    assert selected.Success?;
    var rest := BackgroundDraw(cfg.randomBackground, draws);
    assert rest.Success?;
    var rec := MakeRecord(cfg.branding, selected.value, dna, pool);
    assert rec.Success?;
    assert RenderResults(cfg, results, dna, pool, draws) == Success((rec.value, rest.value));
  }

  /** Once the key of the only DNA a single-element layer can yield is
      recorded, every later turn of the phase is a rejection until the
      failure count reaches `uniqueDnaTorrance`, and then the run aborts;
      nothing but the count and the draws changes on the way. */
  lemma {:induction false} SeenKeyAborts(cfg: Config, layer: Layer, target: int, st: RunState)
    requires |layer.elements| == 1 && layer.elements[0].weight > 0
    requires FilterDnaOptions(Join(Serialize([layer], [Some(0)]), DnaDelimiter)) in st.dnaList
    requires st.editionCount <= target
    requires |st.draws| > 0 && |st.draws| >= Budget(cfg, st)
    ensures var (s, stop) := Turns(cfg, [layer], target, st);
      && stop == Some(TooManyFailures(s.failedCount + 1, target))
      && s.failedCount + 1 == (if st.failedCount + 1 >= cfg.uniqueDnaTorrance then st.failedCount + 1 else cfg.uniqueDnaTorrance)
      && s == st.(failedCount := s.failedCount, draws := s.draws)
    decreases Budget(cfg, st)
  {
    OneElementDna(layer, st.draws);
    assert !IsDnaUnique(st.dnaList, CreateDna([layer], ClashMonitor, st.draws).value.0);
    if st.failedCount + 1 < cfg.uniqueDnaTorrance {
      var next := st.(failedCount := st.failedCount + 1, draws := st.draws[1..]);
      assert Step(cfg, [layer], target, st) == Success(Rejected(next));
      SeenKeyAborts(cfg, layer, target, next);
    }
  }

  /** The first turn over a single layer with a single element accepts its
      DNA, records its key and uses one draw, or two with a random
      background. */
  lemma OneElementFirstTurn(cfg: Config, layer: Layer, target: int, pool: seq<nat>, draws: seq<nat>)
    requires |layer.elements| == 1 && layer.elements[0].weight > 0
    requires ParseableLayers([layer]) && DisplayName(layer.elements[0].name).Success?
    requires |pool| > 0 && |draws| >= 2
    ensures var r := Step(cfg, [layer], target, Initial(pool, draws));
      && r.Success? && r.value.Accepted?
      && r.value.next.dnaList == [FilterDnaOptions(Join(Serialize([layer], [Some(0)]), DnaDelimiter))]
      && |r.value.next.metadataList| == 1 && r.value.next.failedCount == 0 && r.value.next.editionCount == 2
      && |r.value.next.draws| + 2 >= |draws|
  {
    OneElementDna(layer, draws);
    RecordDescribesDraw(cfg, [layer], draws, pool);
    var c := CreateDna([layer], ClashMonitor, draws).value;
    RenderLeavesDraws(cfg, [layer], c.0, pool, c.1.rest);
  }

  /** A phase of target 2 over a single layer with a single element, with a
      tolerance of 3: the first DNA is accepted; every later one repeats its
      key, so after two rejections the third aborts the run with
      `TooManyFailures(3, 2)`, leaving one record. */
  lemma OneElementPhaseAborts(cfg: Config, layer: Layer, pool: seq<nat>, draws: seq<nat>)
    requires cfg.uniqueDnaTorrance == 3
    requires |layer.elements| == 1 && layer.elements[0].weight > 0
    requires ParseableLayers([layer]) && DisplayName(layer.elements[0].name).Success?
    requires |pool| > 0 && |draws| >= 5
    ensures var (s, stop) := Turns(cfg, [layer], 2, Initial(pool, draws));
      stop == Some(TooManyFailures(3, 2)) && |s.metadataList| == 1 && s.failedCount == 2
  {
    var st0 := Initial(pool, draws);
    OneElementFirstTurn(cfg, layer, 2, pool, draws);
    var st1 := Step(cfg, [layer], 2, st0).value.next;
    SeenKeyAborts(cfg, layer, 2, st1);
    assert Turns(cfg, [layer], 2, st0) == Turns(cfg, [layer], 2, st1);
  }

  /** The failure scenario of a collection too small for its target, for the
      whole run: one phase of target 2 whose only layer has a single
      element, and a tolerance of 3, abort with `TooManyFailures(3, 2)`
      after one record. */
  lemma OneElementRunAborts(cfg: Config, folders: Folders, draws: seq<nat>, layer: Layer)
    requires |cfg.layerConfigurations| == 1 && cfg.layerConfigurations[0].growEditionSizeTo == 2
    requires cfg.uniqueDnaTorrance == 3
    requires LayersSetup(folders, cfg.layersDir, cfg.rarityDelimiter, cfg.layerConfigurations[0].layersOrder)
      == Success([layer])
    requires |layer.elements| == 1 && layer.elements[0].weight > 0
    requires ParseableLayers([layer]) && DisplayName(layer.elements[0].name).Success?
    requires var pooled := EditionPool(2, cfg.shuffleLayerConfigurations, draws);
      pooled.Success? && |pooled.value.1| >= 5
    ensures Creation(cfg, folders, draws).stop == Some(TooManyFailures(3, 2))
    ensures |Creation(cfg, folders, draws).state.metadataList| == 1
    ensures Creation(cfg, folders, draws).state.failedCount == 2
  {
    var phase := cfg.layerConfigurations[0];
    assert FinalPhase(cfg) == phase;
    var pooled := EditionPool(2, cfg.shuffleLayerConfigurations, draws).value;
    var st0 := Initial(pooled.0, pooled.1);
    assert |pooled.0| == 2 by {
      assert |multiset(pooled.0)| == |multiset(Range(1, 2))|;
    }
    OneElementPhaseAborts(cfg, layer, pooled.0, pooled.1);
    assert PhaseOutcome(cfg, folders, phase, st0) == Turns(cfg, [layer], 2, st0);
    PhasesFrom(cfg, folders, cfg.layerConfigurations, 0, st0);
  }

  /** One phase: its layers are set up, then the inner
      `while (editionCount <= growEditionSizeTo)` runs. It ends with
      `editionCount` past the target unless a fault stops it. The failure
      count only grows. */
  method RunPhase(cfg: Config, folders: Folders, phase: Phase, st0: RunState, ghost pool0: seq<nat>)
    returns (st: RunState, stop: Option<Fault>)
    requires Invariant(pool0, st0)
    requires st0.failedCount > 0 ==> st0.failedCount < cfg.uniqueDnaTorrance
    ensures Invariant(pool0, st)
    ensures stop.None? ==> st.editionCount > phase.growEditionSizeTo
    ensures st.editionCount >= st0.editionCount && st.failedCount >= st0.failedCount
    ensures stop != Some(NoPhases)
    ensures stop.Some? && stop.value.TooManyFailures? ==>
      stop.value == TooManyFailures(st.failedCount + 1, phase.growEditionSizeTo)
      && st.failedCount + 1 >= cfg.uniqueDnaTorrance
    ensures st.failedCount > 0 ==> st.failedCount < cfg.uniqueDnaTorrance
    ensures (st, stop) == PhaseOutcome(cfg, folders, phase, st0)
  {
    var target := phase.growEditionSizeTo;
    var setup := LayersSetup(folders, cfg.layersDir, cfg.rarityDelimiter, phase.layersOrder);
    if setup.Failure? {
      PhaseKeeps(cfg, folders, phase, st0, pool0);
      return st0, Some(setup.error);
    }
    var layers := setup.value;
    st, stop := st0, None;
    while stop.None? && st.editionCount <= target
      invariant stop.None? ==> Turns(cfg, layers, target, st) == Turns(cfg, layers, target, st0)
      invariant stop.Some? ==> (st, stop) == Turns(cfg, layers, target, st0)
      decreases |st.pool| + Budget(cfg, st) + (if stop.None? then 1 else 0)
    {
      var turn := Step(cfg, layers, target, st);
      st, stop := Turn(cfg, st, turn);
    }
    PhaseKeeps(cfg, folders, phase, st0, pool0);
  }

  /** One turn of the inner loop, given the outcome of its `Step`: a fault
      stops the phase, a new state replaces the old, and a turn that does
      not stop uses up a pool entry or some of the rejection budget. */
  method Turn(cfg: Config, st0: RunState, turn: Result<StepResult, Fault>)
    returns (st: RunState, stop: Option<Fault>)
    requires turn.Success? && turn.value.Accepted? ==> AcceptedFrom(st0, turn.value.next)
    requires turn.Success? && turn.value.Rejected? ==> RejectedFrom(cfg, st0, turn.value.next)
    ensures turn.Failure? ==> st == st0 && stop == Some(turn.error)
    ensures turn.Success? ==> st == turn.value.next && stop.None?
    ensures stop.None? ==> |st.pool| + Budget(cfg, st) < |st0.pool| + Budget(cfg, st0)
  {
    if turn.Failure? {
      return st0, Some(turn.error);
    }
    return turn.value.next, None;
  }

  /** The outer `while` over `layerConfigurations`: each phase runs from
      the state the previous one left, and the first fault stops the rest. */
  method RunPhases(cfg: Config, folders: Folders, phases: seq<Phase>, st0: RunState, ghost pool0: seq<nat>)
    returns (st: RunState, stop: Option<Fault>)
    requires Invariant(pool0, st0)
    requires st0.failedCount > 0 ==> st0.failedCount < cfg.uniqueDnaTorrance
    ensures (st, stop) == Phases(cfg, folders, phases, st0)
    decreases |phases|
  {
    if |phases| == 0 {
      return st0, None;
    }
    st, stop := RunPhase(cfg, folders, phases[0], st0, pool0);
    if stop.None? {
      st, stop := RunPhases(cfg, folders, phases[1..], st, pool0);
    }
  }

  /** The phases, run from a pool holding each edition number of the last
      phase once, keep what `CreationKeeps` states. */
  lemma PhasesFromPool(cfg: Config, folders: Folders, pool0: seq<nat>, rest: seq<nat>)
    requires |cfg.layerConfigurations| > 0
    requires Distinct(pool0)
    requires |pool0| <= FinalPhase(cfg).growEditionSizeTo || |pool0| == 0
    requires forall e: nat :: e in pool0 <==> 1 <= e <= FinalPhase(cfg).growEditionSizeTo
    ensures Phases(cfg, folders, cfg.layerConfigurations, Initial(pool0, rest)).1 != Some(NoPhases)
    ensures var st := Phases(cfg, folders, cfg.layerConfigurations, Initial(pool0, rest)).0;
      && Distinct(st.dnaList)
      && |st.dnaList| == |st.metadataList|
      && (forall k :: 0 <= k < |st.dnaList| ==> st.dnaList[k] == FilterDnaOptions(st.metadataList[k].dna.of))
      && Distinct(Editions(st.metadataList))
      && (forall k :: 0 <= k < |st.metadataList| ==> 1 <= st.metadataList[k].edition <= FinalPhase(cfg).growEditionSizeTo)
    ensures Phases(cfg, folders, cfg.layerConfigurations, Initial(pool0, rest)).1.None? ==>
      && Phases(cfg, folders, cfg.layerConfigurations, Initial(pool0, rest)).0.editionCount > FinalPhase(cfg).growEditionSizeTo
      && forall e: nat :: e in Editions(Phases(cfg, folders, cfg.layerConfigurations, Initial(pool0, rest)).0.metadataList) <==> 1 <= e <= FinalPhase(cfg).growEditionSizeTo
    ensures Phases(cfg, folders, cfg.layerConfigurations, Initial(pool0, rest)).1.Some? && Phases(cfg, folders, cfg.layerConfigurations, Initial(pool0, rest)).1.value.TooManyFailures? ==>
      Phases(cfg, folders, cfg.layerConfigurations, Initial(pool0, rest)).1.value.failedCount == Phases(cfg, folders, cfg.layerConfigurations, Initial(pool0, rest)).0.failedCount + 1 >= cfg.uniqueDnaTorrance
    ensures Phases(cfg, folders, cfg.layerConfigurations, Initial(pool0, rest)).0.failedCount > 0 ==> Phases(cfg, folders, cfg.layerConfigurations, Initial(pool0, rest)).0.failedCount < cfg.uniqueDnaTorrance
  {
    var phases := cfg.layerConfigurations;
    var size := FinalPhase(cfg).growEditionSizeTo;
    var init := Initial(pool0, rest);
    assert Editions([]) + pool0 == pool0;
    PhasesKeep(cfg, folders, phases, init, pool0);
    var st := Phases(cfg, folders, cfg.layerConfigurations, Initial(pool0, rest)).0;
    InvariantEditions(pool0, size, st);
    if Phases(cfg, folders, cfg.layerConfigurations, Initial(pool0, rest)).1.None? {
      assert st.editionCount > phases[|phases| - 1].growEditionSizeTo == size;
      PoolUsedUp(pool0, st);
    }
  }

  /** What every run keeps, however it ends: the accepted keys are pairwise
      distinct and are the keys of the records, and the records carry
      distinct edition numbers from `1..growEditionSizeTo` of the last phase;
      a run that completes has used every one of them. A rejection stops the
      run exactly when the cumulative failure count reaches
      `uniqueDnaTorrance`. */
  lemma CreationKeeps(cfg: Config, folders: Folders, draws: seq<nat>)
    ensures Creation(cfg, folders, draws).stop == Some(NoPhases) <==> |cfg.layerConfigurations| == 0
    ensures var st := Creation(cfg, folders, draws).state;
      && Distinct(st.dnaList)
      && |st.dnaList| == |st.metadataList|
      && (forall k :: 0 <= k < |st.dnaList| ==> st.dnaList[k] == FilterDnaOptions(st.metadataList[k].dna.of))
      && Distinct(Editions(st.metadataList))
    ensures |cfg.layerConfigurations| > 0 ==>
      forall k :: 0 <= k < |Creation(cfg, folders, draws).state.metadataList| ==>
        1 <= Creation(cfg, folders, draws).state.metadataList[k].edition <= FinalPhase(cfg).growEditionSizeTo
    ensures Creation(cfg, folders, draws).stop.None? ==>
      && |cfg.layerConfigurations| > 0
      && Creation(cfg, folders, draws).state.editionCount > FinalPhase(cfg).growEditionSizeTo
      && forall e: nat :: e in Editions(Creation(cfg, folders, draws).state.metadataList) <==> 1 <= e <= FinalPhase(cfg).growEditionSizeTo
    ensures Creation(cfg, folders, draws).stop.Some? && Creation(cfg, folders, draws).stop.value.TooManyFailures? ==>
      Creation(cfg, folders, draws).stop.value.failedCount == Creation(cfg, folders, draws).state.failedCount + 1 >= cfg.uniqueDnaTorrance
    ensures Creation(cfg, folders, draws).state.failedCount > 0 ==> Creation(cfg, folders, draws).state.failedCount < cfg.uniqueDnaTorrance
  {
    if |cfg.layerConfigurations| > 0 {
      var size := FinalPhase(cfg).growEditionSizeTo;
      var pooled := EditionPool(size, cfg.shuffleLayerConfigurations, draws);
      if pooled.Success? {
        EditionPoolIsPermutation(size, cfg.shuffleLayerConfigurations, draws);
        PhasesFromPool(cfg, folders, pooled.value.0, pooled.value.1);
      }
    }
  }

  /** `startCreating`: the pool `1..growEditionSizeTo` of the last phase,
      shuffled when configured; then, phase by phase, the layers are set up
      and DNA is drawn until `editionCount` passes the phase's target.

      However the run ends, the accepted keys are pairwise distinct and are
      the keys of the records, and the records carry distinct edition numbers
      from `1..growEditionSizeTo` of the last phase; a run that completes has
      used every one of them. A rejection stops the run exactly when the
      cumulative failure count reaches `uniqueDnaTorrance`. */
  method StartCreating(cfg: Config, folders: Folders, draws: seq<nat>) returns (run: Run)
    ensures run.stop == Some(NoPhases) <==> |cfg.layerConfigurations| == 0
    ensures var st := run.state;
      && Distinct(st.dnaList)
      && |st.dnaList| == |st.metadataList|
      && (forall k :: 0 <= k < |st.dnaList| ==> st.dnaList[k] == FilterDnaOptions(st.metadataList[k].dna.of))
      && Distinct(Editions(st.metadataList))
    ensures |cfg.layerConfigurations| > 0 ==>
      forall k :: 0 <= k < |run.state.metadataList| ==>
        1 <= run.state.metadataList[k].edition <= FinalPhase(cfg).growEditionSizeTo
    ensures run.stop.None? ==>
      && |cfg.layerConfigurations| > 0
      && run.state.editionCount > FinalPhase(cfg).growEditionSizeTo
      && forall e: nat :: e in Editions(run.state.metadataList) <==> 1 <= e <= FinalPhase(cfg).growEditionSizeTo
    ensures run.stop.Some? && run.stop.value.TooManyFailures? ==>
      run.stop.value.failedCount == run.state.failedCount + 1 >= cfg.uniqueDnaTorrance
    ensures run.state.failedCount > 0 ==> run.state.failedCount < cfg.uniqueDnaTorrance
    ensures run == Creation(cfg, folders, draws)
  {
    var phases := cfg.layerConfigurations;
    if |phases| == 0 {
      return Run(Initial([], draws), Some(NoPhases));
    }
    var size := FinalPhase(cfg).growEditionSizeTo;
    var pooled := EditionPool(size, cfg.shuffleLayerConfigurations, draws);
    if pooled.Failure? {
      return Run(Initial([], draws), Some(pooled.error));
    }
    var pool0 := pooled.value.0;
    EditionPoolIsPermutation(size, cfg.shuffleLayerConfigurations, draws);
    var st := Initial(pool0, pooled.value.1);
    assert Editions([]) + pool0 == pool0;
    var stop;
    st, stop := RunPhases(cfg, folders, phases, st, pool0);
    run := Run(st, stop);
    CreationKeeps(cfg, folders, draws);
  }
}
