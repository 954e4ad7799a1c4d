/** Attribute and metadata records: `addAttributes` with its display-name
    helper (shared verbatim with the rarity report), and `addMetadata`. */
module Metadata {
  import opened Wrappers
  import opened JsText
  import opened Faults
  import opened Elements

  // ---------------------------------------------------------------------
  // Display names
  // ---------------------------------------------------------------------

  /** `/_(.+)/` can match at `i`: an underscore followed by a character
      other than a line terminator. */
  predicate UnderscoreAt(s: string, i: int) {
    0 <= i && i + 1 < |s| && s[i] == '_' && !IsLineTerminator(s[i + 1])
  }

  /** The position of the first match of `/_(.+)/`. */
  function FirstUnderscore(s: string, from: nat): (i: Option<nat>)
    requires from <= |s|
    ensures i.Some? ==> from <= i.value && UnderscoreAt(s, i.value)
    ensures i.Some? ==> forall j :: from <= j < i.value ==> !UnderscoreAt(s, j)
    ensures i.None? ==> forall j :: from <= j < |s| ==> !UnderscoreAt(s, j)
    decreases |s| - from
  {
    if from == |s| then None
    else if UnderscoreAt(s, from) then Some(from)
    else FirstUnderscore(s, from + 1)
  }

  /** Where the greedy `(.+)` stops: the first line terminator at or after
      `from`, or the end. */
  function LineEnd(s: string, from: nat): (j: nat)
    requires from <= |s|
    ensures from <= j <= |s|
    ensures NoLineTerminator(s[from..j])
    ensures j < |s| ==> IsLineTerminator(s[j])
    decreases |s| - from
  {
    if from == |s| || IsLineTerminator(s[from]) then from else LineEnd(s, from + 1)
  }

  /** `getDisplayName`: `toTitleCase(name.split(/_(.+)/)[1].replace(/_/g, ' '))`.
      The split's second piece is the capture of the first match; without a
      match it is `undefined` and `.replace` throws. */
  function DisplayName(raw: string): (r: Result<string, Fault>)
    ensures r.Success? <==> exists i :: UnderscoreAt(raw, i)
    ensures r.Failure? ==> r.error == NoDisplayName(raw)
  {
    match FirstUnderscore(raw, 0)
    case None => Failure(NoDisplayName(raw))
    case Some(i) =>
      var captured := raw[i + 1..LineEnd(raw, i + 1)];
      Success(TitleCase(ReplaceAll(captured, '_', ' ')))
  }

  /** On one line of text, the display name is the text after the first
      underscore with every further underscore turned into a space and every
      word's first letter upper-cased; there is none when the text has no
      underscore before its last character. */
  lemma DisplayNameSingleLine(raw: string)
    requires NoLineTerminator(raw)
    ensures DisplayName(raw).Success? <==> |raw| > 0 && '_' in raw[..|raw| - 1]
    ensures DisplayName(raw).Success? ==>
      exists i :: 0 <= i < |raw| - 1 && raw[i] == '_' && '_' !in raw[..i]
        && DisplayName(raw).value == Capitalized(ReplaceAll(raw[i + 1..], '_', ' '), true)
  {
    if |raw| > 0 && '_' in raw[..|raw| - 1] {
      var j :| 0 <= j < |raw| - 1 && raw[..|raw| - 1][j] == '_';
      var i := FirstIndexOf(raw, '_', j);
      FirstMatchOnOneLine(raw, i);
      assert raw[i + 1..LineEnd(raw, i + 1)] == raw[i + 1..];
      TitleCaseIsCapitalized(ReplaceAll(raw[i + 1..], '_', ' '));
      assert DisplayName(raw).value == Capitalized(ReplaceAll(raw[i + 1..], '_', ' '), true);
    } else {
      NoMatchOnOneLine(raw);
    }
  }

  /** On one line, the first underscore (if not last) is where the regex
      matches, and the capture runs to the end. */
  lemma FirstMatchOnOneLine(raw: string, i: nat)
    requires NoLineTerminator(raw)
    requires i < |raw| - 1 && raw[i] == '_' && '_' !in raw[..i]
    ensures FirstUnderscore(raw, 0) == Some(i)
    ensures LineEnd(raw, i + 1) == |raw|
  {
    assert UnderscoreAt(raw, i);
    assert forall k :: 0 <= k < i ==> raw[..i][k] == raw[k];
  }

  lemma NoMatchOnOneLine(raw: string)
    requires !(|raw| > 0 && '_' in raw[..|raw| - 1])
    ensures forall j :: !UnderscoreAt(raw, j)
  {
    assert forall j :: 0 <= j < |raw| - 1 ==> raw[..|raw| - 1][j] == raw[j];
  }

  /** The least index at or below `j` holding `c`, given that `s[j]` does. */
  lemma FirstIndexOf(s: string, c: char, j: nat) returns (m: nat)
    requires j < |s| && s[j] == c
    ensures m <= j && s[m] == c && c !in s[..m]
    decreases j
  {
    if c in s[..j] {
      var k :| 0 <= k < j && s[..j][k] == c;
      m := FirstIndexOf(s, c, k);
      assert s[..m] == s[..j][..m];
    } else {
      m := j;
    }
  }

  // ---------------------------------------------------------------------
  // Records
  // ---------------------------------------------------------------------

  /** One entry of a record's `attributes`. */
  datatype Attribute = Attribute(traitType: string, value: string)

  /** `sha1(dna)`, kept symbolically as the text it digests. */
  datatype Digest = Sha1(of: string)

  /** The metadata record of one edition. */
  datatype Record = Record(
    name: string,
    description: string,
    image: string,
    dna: Digest,
    edition: nat,
    attributes: seq<Attribute>)

  /** The edition numbers of the records, in order. */
  function Editions(records: seq<Record>): (es: seq<nat>)
    ensures |es| == |records| && forall k :: 0 <= k < |records| ==> es[k] == records[k].edition
  {
    seq(|records|, k requires 0 <= k < |records| => records[k].edition)
  }

  /** The configured texts the records are built from. */
  datatype Branding = Branding(namePrefix: string, description: string, baseUri: string)

  /** `${namePrefix} #${edition}`. */
  function EditionName(namePrefix: string, edition: nat): string {
    namePrefix + " #" + NatToString(edition)
  }

  /** `${baseUri}/${edition}.${ext}`. */
  function ImageUri(baseUri: string, edition: nat, ext: string): string {
    baseUri + "/" + NatToString(edition) + "." + ext
  }

  /** `addAttributes`: pushes the layer's display name and the title-cased
      name of its selected element onto the pending attributes. */
  function AddAttributes(pending: seq<Attribute>, layerName: string, selected: Element)
    : (r: Result<seq<Attribute>, Fault>)
    ensures r.Success? ==> |r.value| == |pending| + 1 && r.value[..|pending|] == pending
    ensures r.Success? <==> DisplayName(selected.name).Success?
    ensures r.Success? ==> r.value[|pending|] == Attribute(layerName, DisplayName(selected.name).value)
    ensures r.Failure? ==> r.error == NoDisplayName(selected.name)
  {
    var value :- DisplayName(selected.name);
    Success(pending + [Attribute(layerName, value)])
  }

  /** The attributes `drawElement` pushes for the layers of one edition, in
      layer order, onto `pending`. */
  function PushAttributes(pending: seq<Attribute>, layers: seq<(string, Element)>)
    : (r: Result<seq<Attribute>, Fault>)
    ensures r.Success? ==> |r.value| == |pending| + |layers| && r.value[..|pending|] == pending
    ensures r.Success? <==> forall k :: 0 <= k < |layers| ==> DisplayName(layers[k].1.name).Success?
    ensures r.Failure? ==> exists k :: 0 <= k < |layers| && r.error == NoDisplayName(layers[k].1.name)
    decreases |layers|
  {
    if |layers| == 0 then Success(pending)
    else
      var pushed := AddAttributes(pending, layers[0].0, layers[0].1);
      if pushed.Failure? then Failure(pushed.error)
      else
        var all := PushAttributes(pushed.value, layers[1..]);
        assert forall k :: 1 <= k < |layers| ==> layers[1..][k - 1] == layers[k];
        if all.Success? then
          PrefixOfPrefix(pending, pushed.value, all.value);
          all
        else all
  }

  lemma PrefixOfPrefix<T>(a: seq<T>, b: seq<T>, c: seq<T>)
    requires |a| <= |b| <= |c| && b[..|a|] == a && c[..|b|] == b
    ensures c[..|a|] == a
  {
    assert c[..|a|] == c[..|b|][..|a|];
  }

  /** The attribute pushed for layer `k` names the layer and the display
      name of its element. */
  lemma {:induction false} PushedAttributeAt(pending: seq<Attribute>, layers: seq<(string, Element)>, k: nat)
    requires PushAttributes(pending, layers).Success? && k < |layers|
    ensures DisplayName(layers[k].1.name).Success?
    ensures PushAttributes(pending, layers).value[|pending| + k]
            == Attribute(layers[k].0, DisplayName(layers[k].1.name).value)
    decreases k
  {
    var pushed := AddAttributes(pending, layers[0].0, layers[0].1).value;
    var r := PushAttributes(pending, layers).value;
    assert r == PushAttributes(pushed, layers[1..]).value;
    if k == 0 {
      assert r[..|pushed|][|pending|] == pushed[|pending|];
    } else {
      PushedAttributeAt(pushed, layers[1..], k - 1);
      assert layers[1..][k - 1] == layers[k];
    }
  }

  /** The pushed attributes name, per layer in order, the layer and the
      display name of its element. */
  lemma PushAttributesValues(pending: seq<Attribute>, layers: seq<(string, Element)>)
    requires PushAttributes(pending, layers).Success?
    ensures var r := PushAttributes(pending, layers).value;
      forall k :: 0 <= k < |layers| ==>
        && DisplayName(layers[k].1.name).Success?
        && r[|pending| + k] == Attribute(layers[k].0, DisplayName(layers[k].1.name).value)
  {
    forall k | 0 <= k < |layers|
      ensures DisplayName(layers[k].1.name).Success?
      ensures PushAttributes(pending, layers).value[|pending| + k]
              == Attribute(layers[k].0, DisplayName(layers[k].1.name).value)
    {
      PushedAttributeAt(pending, layers, k);
    }
  }

  /** `addMetadata`: the record of one edition, carrying the attributes
      pushed since the previous record; the pending list is emptied. */
  function AddMetadata(b: Branding, pending: seq<Attribute>, dna: string, edition: nat, ext: string)
    : (r: (Record, seq<Attribute>))
    ensures r.1 == []
    ensures r.0.attributes == pending && r.0.edition == edition && r.0.dna == Sha1(dna)
  {
    (Record(EditionName(b.namePrefix, edition), b.description, ImageUri(b.baseUri, edition, ext),
            Sha1(dna), edition, pending),
     [])
  }

  /** The edition can be read back from a name: the number after its last
      `#`. */
  lemma EditionOfName(namePrefix: string, edition: nat)
    ensures ToNumber(Last(EditionName(namePrefix, edition), '#')) == Some(edition)
  {
    var digits := NatToString(edition);
    assert '#' !in digits;
    assert EditionName(namePrefix, edition) == (namePrefix + " ") + ['#'] + digits;
    SplitAround(namePrefix + " ", '#', digits);
    SplitWithoutDelimiter(digits, '#');
    ToNumberOfNatToString(edition);
  }

  /** The extension can be read back from an image URI built from an
      extension without `.`: the text after its last `.`. */
  lemma ExtensionOfImageUri(baseUri: string, edition: nat, ext: string)
    requires '.' !in ext
    ensures Last(ImageUri(baseUri, edition, ext), '.') == ext
  {
    assert ImageUri(baseUri, edition, ext) == (baseUri + "/" + NatToString(edition)) + ['.'] + ext;
    SplitAround(baseUri + "/" + NatToString(edition), '.', ext);
    SplitWithoutDelimiter(ext, '.');
  }

  /** A name starts with the prefix and ` #`, and the rest reads back as the
      edition. */
  lemma NameUnderPrefix(namePrefix: string, edition: nat)
    ensures IsPrefix(namePrefix + " #", EditionName(namePrefix, edition))
    ensures ToNumber(EditionName(namePrefix, edition)[|namePrefix| + 2..]) == Some(edition)
  {
    var name := EditionName(namePrefix, edition);
    assert name[..|namePrefix| + 2] == namePrefix + " #";
    assert name[|namePrefix| + 2..] == NatToString(edition);
    ToNumberOfNatToString(edition);
  }

  /** An image URI lies under the base URI and `/`, and the text from there
      up to the first `.` reads back as the edition. */
  lemma ImageUnderBaseUri(baseUri: string, edition: nat, ext: string)
    ensures IsPrefix(baseUri + "/", ImageUri(baseUri, edition, ext))
    ensures ToNumber(First(ImageUri(baseUri, edition, ext)[|baseUri| + 1..], '.')) == Some(edition)
  {
    var uri := ImageUri(baseUri, edition, ext);
    var digits := NatToString(edition);
    assert uri[..|baseUri| + 1] == baseUri + "/";
    assert uri[|baseUri| + 1..] == digits + ['.'] + ext;
    assert '.' !in digits;
    SplitAfterPiece(digits, '.', ext);
    ToNumberOfNatToString(edition);
  }

  /** The edition number can be read back from a record's name and the
      extension from its image. */
  lemma RecordNamesItsEdition(b: Branding, pending: seq<Attribute>, dna: string, edition: nat, ext: string)
    requires '.' !in ext
    ensures var rec := AddMetadata(b, pending, dna, edition, ext).0;
      && ToNumber(Last(rec.name, '#')) == Some(edition)
      && Last(rec.image, '.') == ext
  {
    EditionOfName(b.namePrefix, edition);
    ExtensionOfImageUri(b.baseUri, edition, ext);
  }
}
