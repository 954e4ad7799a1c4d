# The Jims edition generator, modelled in Dafny

This project models the edition-generation engine of the Jims NFT collection
(a HashLips-style art engine) and the two passes over the metadata it writes.
All three are modelled as pure functions over immutable data:

- **Element loading.** A layer folder's listing becomes weighted elements:
  hidden files are dropped, the rest get positional ids, and the name and
  weight are read around the `#` delimiter.
- **DNA.** Each phase draws one element per layer by cumulative weight. A
  hard-coded clash table forces a re-roll of some picks. The choices are
  serialised as `id:filename[?bypassDNA=true]` tuples joined by `-`.
- **Admission key.** The key of a DNA drops the bypassing tuples. A DNA is
  admitted only when its key is new.
- **Parse-back.** The DNA is parsed back into the chosen elements.
- **Records.** Each admitted DNA becomes a metadata record. It carries one
  attribute per layer and an edition number taken from a shuffled pool.
- **Rarity report.** The report tabulates, per layer display name, how often
  each element's trait occurs among the records.
  The duplicate-layer guard (utils/rarity.js:49) asks whether the table's
  array elements include a folder name. The table's values are arrays of
  entries, even where a numeric display name such as `0` makes one an array
  element, and `includes` compares them with the folder name, a string. So
  the guard always passes. A display
  name shared by several layer entries therefore holds the entries of the
  last of them. The model keeps this behaviour as written.
- **Re-branding.** The re-branding pass rewrites a record's name,
  description and image URI.

Every `Math.random()` is an entry of an explicit sequence of draws
(`seq<nat>`), consumed in program order. A draw `k` used as
`Math.floor(Math.random() * n)` denotes `k % n`. Running out of draws is the
fault `OutOfDraws`; it also bounds the unbounded clash re-roll. With that, a
whole run is a deterministic function of the configuration, the folder
listings and the draws.

The modules follow the program:

| module | file | models |
|---|---|---|
| `Wrappers` | wrappers.dfy | `Option`, `Result` |
| `JsText` | jstext.dfy | JavaScript string operations the code relies on |
| `Faults` | faults.dfy | every way a run ends early |
| `Elements` | elements.dfy | `getRarityWeight`, `cleanName`, `getElements`, `layersSetup` |
| `Weighted` | weighted.dfy | the weighted pick of `createDna` |
| `Dna` | dna.dfy | `createDna` with its clash table |
| `DnaKey` | dnakey.dfy | `filterDNAOptions`, `isDnaUnique`, `removeQueryStrings`, `cleanDna`, `constructLayerToDna` |
| `Metadata` | metadata.dfy | `getDisplayName`, `addAttributes`, `addMetadata` |
| `Shuffle` | shuffle.dfy | `shuffle` and the edition pool |
| `Generation` | generation.dfy | `startCreating` |
| `Rarity` | rarity.dfy | the rarity table of utils/rarity.js |
| `UpdateInfo` | update_info.dfy | the per-record rewrite of utils/update_info.js |
| `Jims` | jims.dfy | the shipped configuration as a concrete instance |

## Model

| member | source | states |
|---|---|---|
| `JsText.Split` | src/main.js:47 | `split` yields at least one piece, no piece holds the separator, and joining the pieces gives the text back |
| `JsText.SplitJoin` | src/main.js:216 | splitting a join of separator-free pieces gives the pieces back |
| `JsText.ToNumber` | src/main.js:47 | `Number` of a run of decimal digits is its value, kept exact (the source rounds past 2^53, see "Left out") |
| `JsText.ToNumberOfNatToString` | src/main.js:125 | `Number` of an interpolated natural gives the natural back |
| `JsText.NatToStringInjective` | src/main.js:125 | different naturals interpolate to different texts |
| `JsText.ReplaceAll` | src/main.js:146 | `replace(/_/g, ' ')` changes exactly the matching characters, keeping the length |
| `JsText.TitleCase` | utils/rarity.js:16-21 | `toTitleCase`: split at spaces, upper-case each word's first character, join; its meaning is stated by `JsText.TitleCaseIsCapitalized` |
| `JsText.TitleCaseIsCapitalized` | src/main.js:138-143 | split/map/join title case upper-cases exactly the first character and each character after a space |
| `JsText.QueryStart` | src/main.js:243 | `/(\?.*$)/` matches at the leftmost `?` with no line terminator after it, and nowhere when there is none |
| `Elements.RarityWeight` | src/main.js:45-52 | `getRarityWeight`: the number after the last delimiter of the name without its extension, 100 when that is not a number; stated by `Elements.WeightedFileName`, `Elements.NonNumericWeight` and `Elements.EmptyWeightIsZero` |
| `Elements.CleanName` | src/main.js:60-64 | `cleanName`: the name without its extension, up to the first delimiter; stated by `Elements.WeightedFileName` and `Elements.UnweightedFileName` |
| `Elements.WeightedFileName` | src/main.js:45-64 | for `base#w` plus a 4-character extension, the clean name is `base` and the weight is the numeral `w` |
| `Elements.NonNumericWeight` | src/main.js:45-52 | a non-numeric text after the last `#` gives the default weight 100 |
| `Elements.UnweightedFileName` | src/main.js:45-64 | a file name whose stem holds no `#` and is not a number is its own clean name and weighs 100 |
| `Elements.EmptyWeightIsZero` | src/main.js:47-50 | an empty weight text reads as `Number("") == 0`, not as 100 |
| `Elements.Visible` | src/main.js:69 | the filtered listing holds only visible names and is no longer than the listing |
| `Elements.VisibleExactly` | src/main.js:69 | a name survives the filter exactly when it is listed and not hidden |
| `Elements.VisibleConcat` | src/main.js:69 | the filter works name by name, keeping listing order |
| `Elements.GetElements` | src/main.js:66-79 | one element per visible file, with id = position, its file name, path, clean name and weight |
| `Elements.LayersSetup` | src/main.js:81-103 | one layer per entry, with id = position; `displayName` falls back to the folder name, blend to `source-over`, opacity to 1, bypass to false; a missing folder is a fault |
| `Weighted.LayerDraw` | src/main.js:260 | the draw lies below a positive total weight and is 0 for total weight 0 |
| `Weighted.Walk` | src/main.js:261-265 | the subtraction loop picks an index at or after its start |
| `Weighted.WalkPicksInterval` | src/main.js:255-265 | the loop picks element `i` iff the draw lies in `[w0+…+w(i-1), w0+…+wi)`, i.e. the least `i` with draw `< w0+…+wi`; it picks nothing iff the draw reaches the total |
| `Weighted.DrawPicks` | src/main.js:255-265 | a layer yields an element iff its total weight is positive, and never one of weight 0 |
| `Dna.Reroll` | src/main.js:277-279 | the re-roll ends on an element that is no key of the clash table, using up draws |
| `Dna.RerollTakesFirstFreeDraw` | src/main.js:277-279 | the re-roll takes `draws[j] % n` for the first draw `j` that lands on an element that is no key, over all `n` elements, and leaves the draws after it |
| `Dna.RerollRunsOut` | src/main.js:277-279 | the re-roll runs out of draws exactly when every draw lands on a key |
| `Dna.PickLayer` | src/main.js:255-288 | a pick that does not clash is the weighted pick made with one draw; a clashing pick is replaced by an element that is no key of the table |
| `Dna.Sample` | src/main.js:252-290 | every layer's choice is valid for it, at least one draw per layer is used, and only running out of draws stops it |
| `Dna.SampleTuples` | src/main.js:283-291 | the tuples are the serialised choices, in layer order, after the tuples given |
| `Dna.SampleAvoidsClashes` | src/main.js:266-282 | a chosen table key was chosen only when no earlier tuple included its mapped file name |
| `Dna.CreateDna` | src/main.js:252-292 | the DNA is the `-` join of the serialised tuples |
| `Dna.SamplePicksLayer` | src/main.js:252-288 | for any clash table, layer `k`'s choice is `PickLayer` given the tuples and the draws left after sampling the layers before it |
| `Dna.SampleWithoutClashes` | src/main.js:254-265 | without a clash table layer `k` uses exactly draw `k` and chooses the weighted pick for it |
| `Dna.SampleChoosesEveryLayer` | src/main.js:260-265 | with positive total weights every layer chooses an element |
| `Dna.Serialize` | src/main.js:283-288 | the tuples pushed for the layers' choices, in layer order, none for a layer that chose nothing; stated by `Dna.SerializeAllChosen` and `Dna.SampleTuples` |
| `Dna.SerializeAllChosen` | src/main.js:283-287 | with every layer chosen there is one tuple per layer, in layer order, `id:filename` plus the bypass suffix |
| `Dna.TupleSuffix` | src/main.js:283-287 | a tuple carries `?bypassDNA=true` exactly when its layer sets `bypassDNA` |
| `Dna.TupleIncludesFileName` | src/main.js:284 | a tuple includes its element's file name |
| `Dna.ClashingChoiceNeverFollows` | src/main.js:273-280 | an element whose file name is a table key is never chosen after a tuple including the mapped file name |
| `Dna.JimbunNeverOnLightVoid` | src/main.js:266-275 | with the background layer before the head layer, `head_jimbun.png` never comes with `bg_lightvoid.png` |
| `JsText.Filter` | src/main.js:217-229 | `filter` keeps exactly the listed items the callback accepts, and never more items than given |
| `JsText.FilterAppend` | src/main.js:217-229 | `filter` works item by item: filtering a concatenation concatenates the filtered parts |
| `DnaKey.FilterItems` | src/main.js:217-229 | a tuple survives exactly when the callback accepts it, and the key is no longer than the DNA |
| `DnaKey.BypassSettingIsNotRead` | src/main.js:223-228 | the setting `?bypassDNA=true` has the key `?bypassDNA`, so `options.bypassDNA` stays undefined |
| `DnaKey.KeepTuple` | src/main.js:217-229 | a tuple is kept in the key exactly when its layer does not bypass it |
| `DnaKey.FilterDnaOptions` | src/main.js:215-232 | `filterDNAOptions`: the join of the DNA's tuples that the callback keeps; stated by `DnaKey.FilterSerialized` and `DnaKey.KeyOfSerialized` |
| `DnaKey.FilterSerialized` | src/main.js:215-232 | on `createDna` tuples the filter drops exactly the bypass tuples and keeps the others unchanged and in order |
| `DnaKey.KeyOfSerialized` | src/main.js:215-232 | the key of a `createDna` string is the join of the tuples of the non-bypassing layers |
| `DnaKey.IsDnaUnique` | src/main.js:247-250 | `isDnaUnique`: the DNA's key is not among the keys seen; what a key depends on is stated by `DnaKey.KeyDeterminedByUnbypassedChoices` |
| `DnaKey.KeyDeterminedByUnbypassedChoices` | src/main.js:247-250 | two complete choices have the same key iff they agree on every non-bypassing layer |
| `DnaKey.RemoveQueryStrings` | src/main.js:242-245 | the result is a prefix of the text |
| `DnaKey.RemoveQueryStringsIdempotent` | src/main.js:242-245 | removing the query twice removes nothing more |
| `DnaKey.RemoveQueryStringsCutsAtFirstQuestionMark` | src/main.js:242-245 | on one line, the removal cuts at the first `?` and leaves text without `?` alone |
| `DnaKey.CleanDna` | src/main.js:54-58 | `cleanDna`: the number before the first `:` once the query is removed; stated by `DnaKey.CleanDnaOfTuple` |
| `DnaKey.CleanDnaOfTuple` | src/main.js:54-58 | `cleanDna` of a tuple gives back the element id |
| `DnaKey.FindById` | src/main.js:194-196 | `find` yields an element of the layer with the id, or none when no element has it |
| `DnaKey.FindPositional` | src/main.js:194-196 | with positional ids, id `i` finds element `i` |
| `DnaKey.FirstWithElements` | src/main.js:194-196 | the first layer from a position on that has elements, or none when all of them are empty |
| `DnaKey.ConstructLayerToDna` | src/main.js:192-205 | resolution succeeds iff every layer past the last tuple has no elements; such a layer selects nothing; otherwise the fault is the first layer past the last tuple that has elements; every entry keeps its layer's name, blend and opacity |
| `DnaKey.ConstructLayerToDnaRoundTrip` | src/main.js:192-205 | parsing a `createDna` string back selects, for every layer, exactly the element drawn for it, with that layer's name, blend and opacity |
| `Metadata.FirstUnderscore` | src/main.js:146 | the leftmost position where `/_(.+)/` matches |
| `Metadata.LineEnd` | src/main.js:146 | the greedy capture runs up to the first line terminator |
| `Metadata.DisplayName` | src/main.js:145-147 | there is a display name iff the regex matches somewhere; otherwise `.replace` on `undefined` is the fault |
| `Metadata.DisplayNameSingleLine` | utils/rarity.js:23-25 | on one line there is a display name iff an underscore precedes the last character; it is the text after the first underscore, underscores as spaces, title-cased |
| `Metadata.AddAttributes` | src/main.js:137-154 | pushes one attribute, the layer name with the element's display name, exactly when the element has a display name |
| `Metadata.PushAttributes` | src/main.js:380-389 | pushes one attribute per layer behind the pending ones; it fails iff some element has no display name |
| `Metadata.PushedAttributeAt` | src/main.js:380-389 | the attribute pushed for layer `k` is the layer name with the display name of its element |
| `Metadata.PushAttributesValues` | src/main.js:380-389 | every pushed attribute is its layer's name with its element's display name, in layer order |
| `Metadata.AddMetadata` | src/main.js:123-135 | the record carries exactly the pending attributes, the edition and the digest of the DNA; the pending list is emptied |
| `Metadata.EditionOfName` | src/main.js:125 | the number after the last `#` of a name is the edition |
| `Metadata.ExtensionOfImageUri` | src/main.js:127 | the text after the last `.` of an image URI is the extension it was built from |
| `Metadata.EditionName` | src/main.js:125 | `${namePrefix} #${edition}`; stated by `Metadata.NameUnderPrefix` and `Metadata.EditionOfName` |
| `Metadata.ImageUri` | src/main.js:127 | `${baseUri}/${edition}.${ext}`; stated by `Metadata.ImageUnderBaseUri` and `Metadata.ExtensionOfImageUri` |
| `Metadata.NameUnderPrefix` | src/main.js:125 | a name starts with the prefix and ` #`, and the rest reads back as the edition |
| `Metadata.ImageUnderBaseUri` | src/main.js:127 | an image URI starts with the base URI and `/`, and the text up to the next `.` reads back as the edition |
| `Metadata.RecordNamesItsEdition` | src/main.js:123-128 | a record's name gives back its edition and its image gives back the extension |
| `Shuffle.Swap` | src/main.js:317-320 | the swap exchanges the two positions and leaves the rest |
| `Shuffle.SwapPermutes` | src/main.js:317-320 | a swap below `n` rearranges the prefix and keeps the suffix |
| `Shuffle.ShuffleFrom` | src/main.js:311-323 | the loop needs one draw per remaining index, returns a rearrangement of its input, and leaves positions from `currentIndex` on alone |
| `Shuffle.Shuffle` | src/main.js:311-323 | `shuffle` returns a rearrangement of the array using one draw per element |
| `Shuffle.ShuffleReachesEveryPermutation` | src/main.js:311-323 | every rearrangement of the array is the result for some draws |
| `Shuffle.Range` | src/main.js:330-336 | the pool before shuffling is `1, 2, …, growEditionSizeTo` |
| `Shuffle.PermutationKeepsDistinct` | src/main.js:337-339 | a rearrangement of a sequence without repeats has none |
| `Shuffle.EditionPool` | src/main.js:329-339 | the pool is a rearrangement of `1..growEditionSizeTo`, unshuffled when shuffling is off |
| `Shuffle.EditionPoolIsPermutation` | src/main.js:329-339 | the pool holds each of `1..growEditionSizeTo` exactly once and nothing else |
| `Generation.SelectedElements` | src/main.js:355-359 | the drawing succeeds iff every layer resolved to an element; otherwise the fault names the first layer that resolved to nothing |
| `Generation.BackgroundDraw` | src/main.js:112-121 | a random background uses one draw |
| `Generation.RenderEdition` | src/main.js:352-415 | the rendered record has the pool head as edition, the digest of the DNA, and one attribute per layer |
| `Generation.RenderResults` | src/main.js:355-415 | the drawing of resolved layers gives a record with the pool head as edition, the digest of the DNA and one attribute per resolved layer, using only trailing draws |
| `Generation.MakeRecord` | src/main.js:376-408 | the record's name, description, image with the first layer's extension, and one attribute per layer; it fails iff there is no layer, no pool entry, or an element without display name |
| `Generation.RenderResolved` | src/main.js:355-415 | once every layer has resolved to a known element, the drawing succeeds iff there is a layer, a pool entry, a background draw if needed and every display name; the record has the prefix name and base-URI image of the pool head, the first element's extension, and one attribute per layer naming the layer and its element's display name |
| `Generation.RecordDescribesDraw` | src/main.js:350-415 | the record of an admitted DNA names, per layer in order, the element drawn for it; it exists iff there is a layer, a pool entry, a background draw if needed and every display name |
| `Generation.Accept` | src/main.js:408-418 | an acceptance records the new key and the record of the pool head, and removes the head |
| `Generation.Step` | src/main.js:350-428 | a turn draws a DNA with `createDna`, whose fault ends the phase; a DNA whose key is new is accepted with the record `RenderEdition` renders for it on the remaining draws, its key appended, or the rendering's fault ends the phase; a seen key counts a failure on the draws `createDna` left and stops the run once the count reaches `uniqueDnaTorrance` |
| `Generation.AcceptKeepsInvariant` | src/main.js:408-418 | an acceptance keeps the keys distinct, matched to the records, and the editions the used part of the pool |
| `Generation.RejectKeepsInvariant` | src/main.js:419-428 | a rejection keeps the same |
| `Generation.InvariantEditions` | src/main.js:408-418 | the records' editions are distinct members of `1..size`, all of them once the pool is used up |
| `Generation.RunPhase` | src/main.js:344-429 | the phase's state and stop are exactly `PhaseOutcome`: the layer setup's fault, or the turns `Turns` takes from the given state; the invariant is kept and the phase ends with `editionCount` past its target unless a fault stops it |
| `Generation.Turn` | src/main.js:347-428 | one turn of the inner loop does what `Step` says from the current state: its fault stops the phase, its new state replaces the old, and a turn that goes on uses up a pool entry or part of the rejection budget |
| `Generation.TurnsEnd` | src/main.js:347-429 | the turns end either with `editionCount` past the target, or with the turn from the final state failing with the fault that stops the phase |
| `Generation.RenderLeavesDraws` | src/main.js:373-375 | rendering uses up exactly the background draw when a random background is configured |
| `Dna.OneElementDna` | src/main.js:252-292 | a single layer with a single element always yields the same DNA, using one draw |
| `Generation.SeenKeyAborts` | src/main.js:419-428 | once the only DNA a layer can yield is recorded, each later turn is a rejection until the count reaches `uniqueDnaTorrance`, and the run then aborts with `TooManyFailures`, nothing else changed |
| `Generation.OneElementFirstTurn` | src/main.js:350-418 | over a single layer with a single element, the first turn accepts its DNA and records its key |
| `Generation.OneElementPhaseAborts` | src/main.js:347-428 | a phase of target 2 over a single element, tolerance 3, ends with `TooManyFailures(3, 2)` after one record and two rejections |
| `Generation.OneElementRunAborts` | src/main.js:325-429 | the same scenario for the whole run: it aborts with `TooManyFailures(3, 2)` after one record |
| `Generation.TurnsKeep` | src/main.js:347-428 | the turns of a phase keep the keys distinct and matched to the records and the editions the used part of the pool; counts only grow; they end past the target unless a fault stops them; a `TooManyFailures` stop carries the cumulative count at the tolerance |
| `Generation.PhaseKeeps` | src/main.js:343-429 | the same for one phase, including its layer setup |
| `Generation.PhasesKeep` | src/main.js:343-429 | the same for the phases in order; when none stops, the state is past the last phase's target |
| `Generation.RunPhases` | src/main.js:343-429 | running the phases one after another, stopping at the first fault, is exactly `Phases` |
| `Generation.PoolUsedUp` | src/main.js:408-418 | once `editionCount` is past the pool's length, every pool entry has been used |
| `Generation.PhasesFromPool` | src/main.js:329-429 | phases run from a pool of each number of `1..growEditionSizeTo` of the last phase once give distinct keys matched to the records and distinct editions in that range, all of them on completion |
| `Generation.CreationKeeps` | src/main.js:325-433 | every run has distinct keys matching its records and distinct editions in `1..growEditionSizeTo` of the last phase, all of them on completion; `NoPhases` iff there is no phase; a `TooManyFailures` stop carries the cumulative count at the tolerance |
| `Generation.StartCreating` | src/main.js:325-433 | the run is exactly `Creation`: no phase is `NoPhases`, then the pool of the last phase's target, then the phases in order from the initial state, the first fault stopping the rest; keys pairwise distinct and matching the records; editions distinct and in `1..growEditionSizeTo` of the last phase, all of them on completion; a `TooManyFailures` stop happens with the cumulative count at the tolerance |
| `Rarity.Entries` | utils/rarity.js:33-43 | there is one entry per element exactly when every element has a display name; otherwise the fault names the first element without one |
| `Rarity.EntriesValues` | utils/rarity.js:35-43 | entry `j` is element `j`'s display name with its weight as a whole number, and occurrence 0 |
| `Rarity.LayerEntries` | utils/rarity.js:34-43 | a layer's entries exist iff its folder exists and every element has a display name |
| `Rarity.InitTable` | utils/rarity.js:28-54 | the keys are the old keys plus the display names of the layer entries, and it succeeds iff every layer loads |
| `Rarity.InitTableLastWins` | utils/rarity.js:44-52 | each display name holds the entries of the last layer entry carrying it |
| `Rarity.InitTableKeepsOthers` | utils/rarity.js:49-52 | display names no layer carries keep their value |
| `Rarity.InitTableIsFresh` | utils/rarity.js:40 | every occurrence starts at 0 |
| `Rarity.Bump` | utils/rarity.js:64-69 | every entry whose trait is the value gains one occurrence; nothing else changes |
| `Rarity.Tally` | utils/rarity.js:57-71 | counting succeeds iff every trait type has an entry; it keeps the entries' traits and weights |
| `Rarity.TallyCounts` | utils/rarity.js:57-71 | each entry gains exactly the number of attributes with its display name and trait |
| `Rarity.TallyUnmatched` | utils/rarity.js:63-69 | attributes matching no entry leave the table unchanged |
| `Rarity.Report` | utils/rarity.js:28-71 | the report's keys are the display names of all layer entries |
| `Rarity.ReportCountsOccurrences` | utils/rarity.js:28-71 | each entry's occurrence is the number of attributes, over all records, with its display name and trait |
| `Rarity.ReportSucceeds` | utils/rarity.js:28-71 | the report exists iff every layer loads and every trait type is some layer's display name |
| `UpdateInfo.Extension` | utils/update_info.js:17 | the extension holds no `.` |
| `UpdateInfo.UpdateRecord` | utils/update_info.js:14-19 | edition, digest and attributes unchanged; the configured description; the name is the new prefix and ` #` followed by the edition; the image lies under the new base URI and `/`, is named by the edition, and keeps the extension |
| `UpdateInfo.UpdateRebrands` | utils/update_info.js:15-19 | a record generated under one branding and rewritten under another is the record the other would have generated; under the same branding the rewrite is the identity |
| `UpdateInfo.UpdateIdempotent` | utils/update_info.js:14-19 | rewriting twice is rewriting once |
| `UpdateInfo.UpdateAll` | utils/update_info.js:14-25 | one rewritten record per record, in order |
| `UpdateInfo.UpdateSeparatesEditions` | utils/update_info.js:15 | records of different editions get different names |
| `UpdateInfo.UpdateAllKeepsEditions` | utils/update_info.js:14-25 | the editions stay in place, and distinct editions give distinct names |
| `UpdateInfo.UpdateAllIdempotent` | utils/update_info.js:14-25 | running the pass again changes nothing |
| `Jims.JimsRarityShowsGifsAsSpecial` | utils/rarity.js:44-52 | with the shipped phases, the report row `Special` holds the `gifs` folder's entries, not the `special` folder's |

## Left out

- Canvas work is not modelled: drawing, blending, opacity, text mode, `loadImage`, `saveImage` and the GIF encoder. Only the draw that `genColor` consumes is kept; the hue itself is not.
- File and process I/O is not modelled: reading folders, writing `_metadata` and the per-edition files, `copyFileSync`, console output and `process.exit`. Folder listings are a parameter (`Folders`). The abort is the `TooManyFailures` result.
- `sha1` is kept symbolic as `Sha1(of: dna)`.
- `extraMetadata` is not modelled. It is `{}` in the shipped configuration.
- `debugLogs` output is not modelled.
- The rarity percentages (`toFixed(2)`) and the printout, utils/rarity.js:73-104, are not modelled: they use floating point.
- The rarity report reads `_metadata.json` while the generator writes `_metadata`. The model passes the records directly.
- Report keys that name array properties (`length`, `map`, …) are not modelled. The rarity table is a JavaScript array used as a dictionary, so such keys would clash with its own properties.
- The report's row order is not modelled. It is property insertion order in the source; the model's table is a map.
- JsText.ToNumber: models `Number` only on trimmed decimal digits and blank text. Signs, fractions, exponents, hex and `Infinity` read as NaN here, although JavaScript accepts them. A digit run whose value exceeds 2^53 keeps its exact value here, while `Number` rounds it to the nearest double (`Number("9007199254740993")` is 9007199254740992); so weights that large, their sums in `createDna`'s walk, and `toFixed(0)` of weights from 1e21 on (exponent form in the source) differ from the source.
- Elements.LayersSetup: opacity is a `real`. The source's option values are not type-checked.
- Generation.StartCreating: when the pool runs out before the last phase's target, the source keeps going with edition `undefined`. The model stops with the fault `PoolExhausted` instead. This can only happen when an earlier phase has a larger target than the last one.
- Generation.SelectedElements: for a layer whose tuple names no element, the source's `loadLayerImg` reads `path` of `undefined`. The TypeError rejects the async executor's promise, and nothing handles that rejection. The promise passed to `Promise.all` never settles, so the run ends there and writes nothing more: newer Node versions crash on the unhandled rejection, and older ones exit once nothing is pending. The model stops with `ElementNotFound`.
- The fault `OutOfDraws` stands for a draw sequence that is too short. The source has no such limit, so the model says nothing about runs longer than the draws given. This includes a clash re-roll that never ends.
- The GIF copy for `.gif` extensions, src/main.js:397-407, is file I/O and is left out. The record still carries the extension.
- JsText.ToUpper: upper-cases only the ASCII letters `a`-`z`. JavaScript's `toUpperCase` maps all of Unicode: `é` becomes `É`, and `ß` becomes `SS`, which changes the length. Display names, and the attributes and rarity keys built from them, therefore agree with the source only on file names whose lower-case letters are ASCII.
- JsText.TitleCaseIsCapitalized: states the title case with the ASCII-only `ToUpper` above, so it is weaker than `toUpperCase` for non-ASCII letters.
- Dna.PickLayer: `filename in clashMonitor` is JavaScript's `in`, which is also true for the names the object inherits (`constructor`, `toString`, `__proto__`, …). The model tests only the table's own keys, so an element with such a file name is re-rolled away in the source but not in the model. The same holds for Dna.Reroll.
- Strings are sequences of Unicode scalar values, while JavaScript strings are UTF-16 code units. `slice(0, -4)` in `cleanName` and `getRarityWeight`, and `charAt` in the title case, differ from the model on file names with characters outside the Basic Multilingual Plane.
