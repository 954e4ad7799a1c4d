/** The configuration the repository ships: the Jims collection, three phases
    growing the collection to 8, 10 and 2048 editions, and what the model
    says about it. */
module Jims {
  import opened Wrappers
  import opened Elements
  import opened Metadata
  import opened Generation
  import opened Rarity

  /** A layer entry with only a display name among its options. */
  function Named(folder: string, displayName: string): LayerConfig {
    LayerConfig(folder, LayerOptions(Some(displayName), None, None, None))
  }

  const SpecialLayer: LayerConfig := Named("special", "Special")
  const GifsLayer: LayerConfig := Named("gifs", "Special")

  const JimsPhases: seq<Phase> := [
    Phase(8, [SpecialLayer]),
    Phase(10, [GifsLayer, Named("animated", "Animated")]),
    Phase(2048, [
      Named("0-bg", "Background"),
      Named("1-body", "Body"),
      Named("2-mouth", "Mouth"),
      Named("3-head", "Head"),
      Named("4-eyes", "Eyes"),
      Named("5-accessory", "Accessory")])
  ]

  const JimsBranding: Branding := Branding(
    "Jim",
    "The Jims are a collection of 2048 small amphibious Jim Simons, trying to escape the tyrannical rule of the Evil Value Investor Gremplin. A FingerprintsDAO drop created by DAO member Gremplin, with a small bit of help from his friends. \n\nThis project is in the public domain, CC0. Feel free to use Jims in any way you want.",
    "ipfs://QmcKy13BCS3vEy6TFcgRHYucdXi4BQxjxE1zvLsKgNQSua")

  /** `${basePath}/layers`. */
  function LayersDir(basePath: string): string {
    basePath + "/layers"
  }

  /** The configuration, for a working directory `basePath`. The background
      is generated and not static, so every edition draws a colour. */
  function JimsConfig(basePath: string): Config {
    Config(JimsBranding, 10000, JimsPhases, '#', true, true, LayersDir(basePath))
  }

  /** The layer orders of the phases, in phase order. */
  function JimsOrders(): seq<seq<LayerConfig>> {
    [JimsPhases[0].layersOrder, JimsPhases[1].layersOrder, JimsPhases[2].layersOrder]
  }

  /** The phase targets grow, and the last one is the collection size. */
  lemma JimsTargets(basePath: string)
    ensures var cfg := JimsConfig(basePath);
      && (forall i, j :: 0 <= i < j < |cfg.layerConfigurations| ==>
            cfg.layerConfigurations[i].growEditionSizeTo < cfg.layerConfigurations[j].growEditionSizeTo)
      && FinalPhase(cfg).growEditionSizeTo == 2048
  {
  }

  /** The layer entries of all phases, one after the other. */
  lemma JimsLayers()
    ensures AllLayers(JimsOrders()) == JimsPhases[0].layersOrder + JimsPhases[1].layersOrder + JimsPhases[2].layersOrder
  {
    var o := JimsOrders();
    assert o[1..][1..][1..] == [];
    assert AllLayers(o[1..][1..]) == o[2] + AllLayers(o[1..][1..][1..]);
  }

  /** No layer entry after the gif layer is displayed as "Special". */
  lemma GifsLastSpecial(layers: seq<LayerConfig>)
    requires layers == JimsPhases[0].layersOrder + JimsPhases[1].layersOrder + JimsPhases[2].layersOrder
    ensures LastWithKey(layers, 1) && layers[1] == GifsLayer
  {
    assert layers == [SpecialLayer, GifsLayer] + JimsPhases[1].layersOrder[1..] + JimsPhases[2].layersOrder;
    forall m | 1 < m < |layers| ensures DisplayKey(layers[m]) != "Special" {
      assert DisplayKey(layers[m])[0] != 'S';
    }
  }

  /** The special and gif phases share the display name "Special". In the
      rarity report the gif folder's entries replace the special folder's,
      so traits of the first eight editions are counted only where a gif
      shares their display name. */
  lemma JimsRarityShowsGifsAsSpecial(folders: Folders, basePath: string)
    requires InitTable(folders, LayersDir(basePath), '#', AllLayers(JimsOrders()), map[]).Success?
    ensures var t := InitTable(folders, LayersDir(basePath), '#', AllLayers(JimsOrders()), map[]).value;
      && t["Special"] == LayerEntries(folders, LayersDir(basePath), '#', GifsLayer).value
  {
    var layers := AllLayers(JimsOrders());
    JimsLayers();
    GifsLastSpecial(layers);
    InitTableLastWins(folders, LayersDir(basePath), '#', layers, map[]);
  }
}
