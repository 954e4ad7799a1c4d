/** The re-branding pass over generated metadata: each record gets the
    current name prefix, description and base URI, keeping its edition, its
    DNA digest, its attributes and its image's extension. */
module UpdateInfo {
  import opened Wrappers
  import opened JsText
  import opened Metadata
  import opened Shuffle

  /** The image extension: the text after the last `.` of the image URI. */
  function Extension(image: string): (ext: string)
    ensures '.' !in ext
  {
    Last(image, '.')
  }

  /** The body of the `data.forEach`: a new name from the prefix and the
      edition, the configured description, and an image URI under the
      configured base URI with the old image's extension. Nothing else of
      the record changes. */
  function UpdateRecord(b: Branding, rec: Record): (r: Record)
    ensures r.edition == rec.edition && r.dna == rec.dna && r.attributes == rec.attributes
    ensures r.description == b.description
    // The name is the prefix, ` #` and the edition.
    ensures IsPrefix(b.namePrefix + " #", r.name)
    ensures ToNumber(r.name[|b.namePrefix| + 2..]) == Some(rec.edition)
    ensures ToNumber(Last(r.name, '#')) == Some(rec.edition)
    // The image lies under the base URI, named by the edition, with the old
    // extension.
    ensures IsPrefix(b.baseUri + "/", r.image)
    ensures ToNumber(First(r.image[|b.baseUri| + 1..], '.')) == Some(rec.edition)
    ensures Extension(r.image) == Extension(rec.image)
  {
    var ext := Extension(rec.image);
    ExtensionOfImageUri(b.baseUri, rec.edition, ext);
    EditionOfName(b.namePrefix, rec.edition);
    NameUnderPrefix(b.namePrefix, rec.edition);
    ImageUnderBaseUri(b.baseUri, rec.edition, ext);
    rec.(name := EditionName(b.namePrefix, rec.edition),
         description := b.description,
         image := ImageUri(b.baseUri, rec.edition, ext))
  }

  /** A record generated under one branding and updated to another is the
      record the other branding would have generated. */
  lemma UpdateRebrands(previous: Branding, b: Branding, pending: seq<Attribute>, dna: string, edition: nat, ext: string)
    requires '.' !in ext
    ensures UpdateRecord(b, AddMetadata(previous, pending, dna, edition, ext).0)
            == AddMetadata(b, pending, dna, edition, ext).0
  {
    ExtensionOfImageUri(previous.baseUri, edition, ext);
  }

  /** Updating twice under the same branding is updating once. */
  lemma UpdateIdempotent(b: Branding, rec: Record)
    ensures UpdateRecord(b, UpdateRecord(b, rec)) == UpdateRecord(b, rec)
  {
    ExtensionOfImageUri(b.baseUri, rec.edition, Extension(rec.image));
  }

  /** The whole list, in order. */
  function UpdateAll(b: Branding, records: seq<Record>): (r: seq<Record>)
    ensures |r| == |records|
    ensures forall k :: 0 <= k < |r| ==> r[k] == UpdateRecord(b, records[k])
    decreases |records|
  {
    if |records| == 0 then [] else [UpdateRecord(b, records[0])] + UpdateAll(b, records[1..])
  }

  /** Records of different editions get different names. */
  lemma UpdateSeparatesEditions(b: Branding, x: Record, y: Record)
    requires x.edition != y.edition
    ensures UpdateRecord(b, x).name != UpdateRecord(b, y).name
  {
    var nx := UpdateRecord(b, x).name;
    assert ToNumber(nx[|b.namePrefix| + 2..]) == Some(x.edition);
  }

  /** The update keeps every record's edition in place, so distinct editions
      stay distinct, and the rewritten names are distinct too. */
  lemma UpdateAllKeepsEditions(b: Branding, records: seq<Record>)
    requires Distinct(Editions(records))
    ensures var r := UpdateAll(b, records);
      && Editions(r) == Editions(records)
      && forall i, j :: 0 <= i < j < |r| ==> r[i].name != r[j].name
  {
    var r := UpdateAll(b, records);
    assert Editions(r) == Editions(records) by {
      forall k | 0 <= k < |r| ensures Editions(r)[k] == Editions(records)[k] {
        assert r[k] == UpdateRecord(b, records[k]);
      }
    }
    forall i, j | 0 <= i < j < |r|
      ensures r[i].name != r[j].name
    {
      assert Editions(records)[i] != Editions(records)[j];
      UpdateSeparatesEditions(b, records[i], records[j]);
    }
  }

  /** Running the update again changes nothing. */
  lemma UpdateAllIdempotent(b: Branding, records: seq<Record>)
    ensures UpdateAll(b, UpdateAll(b, records)) == UpdateAll(b, records)
  {
    var once := UpdateAll(b, records);
    forall k | 0 <= k < |records|
      ensures UpdateAll(b, once)[k] == once[k]
    {
      UpdateIdempotent(b, records[k]);
    }
  }
}
