/** The ways a generation run or a rarity report ends without a result. Each
    one is a JavaScript exception, a promise that never settles, or an
    explicit stop of the process in the original program; `OutOfDraws` and
    `PoolExhausted` belong to the model (see the README). */
module Faults {

  datatype Fault =
    | MissingFolder(folder: string)
      // `fs.readdirSync` throws on a layer folder that does not exist
    | OutOfDraws
      // the sequence of random draws ran out
    | MissingTuple(layer: nat)
      // `_dna.split('-')[index]` is `undefined`, so `removeQueryStrings` throws
    | ElementNotFound(layer: nat)
      // `elements.find(...)` is `undefined`; reading `.path` of it throws
    | NoLayers
      // `results[0]` is `undefined` when a phase has no layers
    | NoDisplayName(elementName: string)
      // `name.split(/_(.+)/)[1]` is `undefined`, so `.replace` throws
    | NoPhases
      // `layerConfigurations[layerConfigurations.length - 1]` is `undefined`
    | PoolExhausted
      // an edition is accepted after every edition number was used
    | TooManyFailures(failedCount: nat, growEditionSizeTo: int)
      // `failedCount >= uniqueDnaTorrance`: the process exits
    | UnknownTraitType(traitType: string)
      // `rarityData[traitType]` is `undefined`, so `.forEach` throws
}
