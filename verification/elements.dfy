/** Layer catalog: turning a layer folder's directory listing into weighted
    elements (`getElements`, `cleanName`, `getRarityWeight`) and a phase's
    layer order into layers with their option defaults (`layersSetup`). */
module Elements {
  import opened Wrappers
  import opened JsText
  import opened Faults

  /** One selectable image of a layer. `id` is its position among the
      folder's visible files. */
  datatype Element = Element(id: nat, name: string, filename: string, path: string, weight: nat)

  /** The options a layer entry of `layersOrder` may carry; `None` is an
      option left undefined. */
  datatype LayerOptions = LayerOptions(
    displayName: Option<string>,
    blend: Option<string>,
    opacity: Option<real>,
    bypassDNA: Option<bool>)

  /** One entry of a phase's `layersOrder`: a folder name and its options. */
  datatype LayerConfig = LayerConfig(name: string, options: LayerOptions)

  /** A loaded layer, as `layersSetup` builds it. */
  datatype Layer = Layer(
    id: nat,
    elements: seq<Element>,
    name: string,
    blend: string,
    opacity: real,
    bypassDNA: bool)

  /** The directory listings the run can see: folder name to the file names
      `fs.readdirSync` returns, in its order. */
  type Folders = map<string, seq<string>>

  /** Weight of an element whose file name carries no numeric weight. */
  const DefaultWeight: nat := 100

  const DefaultBlend: string := "source-over"

  const DefaultOpacity: real := 1.0

  // ---------------------------------------------------------------------
  // File names
  // ---------------------------------------------------------------------

  /** `_str.slice(0, -4)`: the name without its last four characters. */
  function DropExtension(s: string): string {
    if |s| >= 4 then s[..|s| - 4] else ""
  }

  /** `getRarityWeight`: the number after the last delimiter of the name
      without extension; 100 when that text is not a number. */
  function RarityWeight(delimiter: char, filename: string): nat {
    match ToNumber(Last(DropExtension(filename), delimiter))
    case Some(w) => w
    case None => DefaultWeight
  }

  /** `cleanName`: the name without extension, up to the first delimiter. */
  function CleanName(delimiter: char, filename: string): string {
    First(DropExtension(filename), delimiter)
  }

  /** For `base#w.png` the name is `base` and the weight is `w`. */
  lemma WeightedFileName(delimiter: char, base: string, w: string, ext: string)
    requires delimiter !in base && delimiter !in w
    requires AllDigits(w) && |w| > 0
    requires |ext| == 4
    ensures CleanName(delimiter, base + [delimiter] + w + ext) == base
    ensures RarityWeight(delimiter, base + [delimiter] + w + ext) == DigitsValue(w)
  {
    var f := base + [delimiter] + w + ext;
    assert DropExtension(f) == base + [delimiter] + w;
    SplitAfterPiece(base, delimiter, w);
    SplitWithoutDelimiter(w, delimiter);
  }

  /** Whatever precedes the last delimiter, a non-numeric text after it gives
      the default weight. */
  lemma NonNumericWeight(delimiter: char, before: string, t: string, ext: string)
    requires delimiter !in t
    requires ToNumber(t).None?
    requires |ext| == 4
    ensures RarityWeight(delimiter, before + [delimiter] + t + ext) == DefaultWeight
  {
    var f := before + [delimiter] + t + ext;
    assert DropExtension(f) == before + [delimiter] + t;
    SplitAround(before, delimiter, t);
    SplitWithoutDelimiter(t, delimiter);
  }

  /** A name with no delimiter and a non-numeric stem has the default weight
      and is its own clean name. */
  lemma UnweightedFileName(delimiter: char, stem: string, ext: string)
    requires delimiter !in stem
    requires ToNumber(stem).None?
    requires |ext| == 4
    ensures CleanName(delimiter, stem + ext) == stem
    ensures RarityWeight(delimiter, stem + ext) == DefaultWeight
  {
    assert DropExtension(stem + ext) == stem;
    SplitWithoutDelimiter(stem, delimiter);
  }

  /** An empty weight text reads as `Number("") == 0`, not as the default. */
  lemma EmptyWeightIsZero(delimiter: char, base: string, ext: string)
    requires |ext| == 4
    ensures RarityWeight(delimiter, base + [delimiter] + ext) == 0
  {
    var f := base + [delimiter] + ext;
    assert DropExtension(f) == base + [delimiter] + "";
    SplitAround(base, delimiter, "");
  }

  // ---------------------------------------------------------------------
  // Hidden files
  // ---------------------------------------------------------------------

  /** `/(^|\/)\.[^\/\.]/` matches at `i`: a dot at the start or after a
      slash, followed by a character that is neither a slash nor a dot. */
  predicate HiddenAt(s: string, i: int) {
    0 <= i && i + 1 < |s| && (i == 0 || s[i - 1] == '/')
    && s[i] == '.' && s[i + 1] != '/' && s[i + 1] != '.'
  }

  predicate IsHidden(s: string) {
    exists i | 0 <= i < |s| :: HiddenAt(s, i)
  }

  /** The listing without hidden names, in listing order. */
  function Visible(listing: seq<string>): (v: seq<string>)
    ensures |v| <= |listing|
    ensures forall k :: 0 <= k < |v| ==> !IsHidden(v[k])
    decreases |listing|
  {
    if |listing| == 0 then []
    else if IsHidden(listing[0]) then Visible(listing[1..])
    else [listing[0]] + Visible(listing[1..])
  }

  /** Exactly the hidden names are dropped, and the rest keep their order. */
  lemma {:induction false} VisibleExactly(listing: seq<string>, x: string)
    ensures x in Visible(listing) <==> x in listing && !IsHidden(x)
    decreases |listing|
  {
    if |listing| > 0 {
      VisibleExactly(listing[1..], x);
      assert listing == [listing[0]] + listing[1..];
    }
  }

  lemma {:induction false} VisibleConcat(a: seq<string>, b: seq<string>)
    ensures Visible(a + b) == Visible(a) + Visible(b)
    decreases |a|
  {
    if |a| == 0 {
      assert a + b == b;
    } else {
      assert (a + b)[0] == a[0];
      assert (a + b)[1..] == a[1..] + b;
      VisibleConcat(a[1..], b);
    }
  }

  /** Dot-files are hidden; `..name` is not, because the regex wants a
      character other than a dot after the first dot. */
  lemma HiddenExamples()
    ensures IsHidden(".DS_Store")
    ensures !IsHidden("..name")
    ensures !IsHidden("bg_blue.png")
  {
    assert HiddenAt(".DS_Store", 0);
    assert !HiddenAt("..name", 0) && !HiddenAt("..name", 1);
    assert forall i :: 0 <= i < |"bg_blue.png"| && i != 7 ==> "bg_blue.png"[i] != '.';
    assert !HiddenAt("bg_blue.png", 7);
  }

  /** `getElements`: one element per visible file, numbered 0, 1, 2, ... in
      listing order, with its clean name, path and weight. */
  function GetElements(dir: string, delimiter: char, listing: seq<string>): (es: seq<Element>)
    ensures |es| == |Visible(listing)|
    ensures forall j :: 0 <= j < |es| ==>
      && es[j].id == j
      && es[j].filename == Visible(listing)[j]
      && !IsHidden(es[j].filename)
      && es[j].path == dir + es[j].filename
      && es[j].name == CleanName(delimiter, es[j].filename)
      && es[j].weight == RarityWeight(delimiter, es[j].filename)
  {
    var files := Visible(listing);
    seq(|files|, j requires 0 <= j < |files| =>
      Element(j, CleanName(delimiter, files[j]), files[j], dir + files[j], RarityWeight(delimiter, files[j])))
  }

  /** Every element's id is its position: the form `constructLayerToDna`
      relies on to find an element again from its id. */
  predicate PositionalIds(es: seq<Element>) {
    forall j :: 0 <= j < |es| ==> es[j].id == j
  }

  // ---------------------------------------------------------------------
  // Layers
  // ---------------------------------------------------------------------

  /** The folder a layer entry reads: `${layersDir}/${name}/`. */
  function LayerDir(layersDir: string, name: string): string {
    layersDir + "/" + name + "/"
  }

  /** The layer's display name, shared by the attributes of the metadata and
      the keys of the rarity table: `displayName` if defined, else the folder
      name. */
  function DisplayKey(lc: LayerConfig): string {
    lc.options.displayName.GetOr(lc.name)
  }

  /** `layersSetup`: the layers of one phase with their elements and option
      defaults. A missing folder makes `readdirSync` throw. */
  function LayersSetup(folders: Folders, layersDir: string, delimiter: char, order: seq<LayerConfig>)
    : (r: Result<seq<Layer>, Fault>)
    ensures r.Success? <==> forall k :: 0 <= k < |order| ==> order[k].name in folders
    ensures r.Success? ==> |r.value| == |order|
    ensures r.Success? ==> forall k :: 0 <= k < |order| ==>
      && r.value[k].id == k
      && r.value[k].name == DisplayKey(order[k])
      && r.value[k].blend == order[k].options.blend.GetOr(DefaultBlend)
      && r.value[k].opacity == order[k].options.opacity.GetOr(DefaultOpacity)
      && r.value[k].bypassDNA == order[k].options.bypassDNA.GetOr(false)
      && r.value[k].elements
         == GetElements(LayerDir(layersDir, order[k].name), delimiter, folders[order[k].name])
      && PositionalIds(r.value[k].elements)
    ensures r.Failure? ==> exists k :: 0 <= k < |order| && r.error == MissingFolder(order[k].name)
    decreases |order|
  {
    if |order| == 0 then Success([])
    else
      var k := |order| - 1;
      var front :- LayersSetup(folders, layersDir, delimiter, order[..k]);
      var lc := order[k];
      if lc.name !in folders then Failure(MissingFolder(lc.name))
      else
        var layer := Layer(
          k,
          GetElements(LayerDir(layersDir, lc.name), delimiter, folders[lc.name]),
          DisplayKey(lc),
          lc.options.blend.GetOr(DefaultBlend),
          lc.options.opacity.GetOr(DefaultOpacity),
          lc.options.bypassDNA.GetOr(false));
        Success(front + [layer])
  }
}
