/**
 The preset selector: a fixed list of named target sizes, headed by an
 "Original" entry that mirrors the loaded image, looked up by the name the
 drop-down reports (`Array.prototype.find`, first entry whose name matches).
 */
module Presets {

  datatype Option<T> = None | Some(value: T)

  datatype Preset = Preset(name: string, width: nat, height: nat)

  const OriginalName: string := "Original"

  /** The catalog offered for an image of the given original size. */
  function Catalog(originalWidth: nat, originalHeight: nat): (c: seq<Preset>)
    ensures |c| > 0 && c[0] == Preset(OriginalName, originalWidth, originalHeight)
    ensures forall i :: 1 <= i < |c| ==> c[i].name != OriginalName
    ensures forall i :: 1 <= i < |c| ==> c[i].width > 0 && c[i].height > 0
    ensures forall i, j :: 0 <= i < j < |c| ==> c[i].name != c[j].name
  {
    [ Preset(OriginalName, originalWidth, originalHeight),
      Preset("HD", 1920, 1080),
      Preset("Full HD", 1280, 720),
      Preset("Social Media", 1200, 630),
      Preset("Instagram Square", 1080, 1080),
      Preset("Thumbnail", 400, 300) ]
  }

  /** The position of the first entry with the given name, or |catalog| if
      there is none. */
  function FirstMatch(catalog: seq<Preset>, name: string): (k: nat)
    ensures k <= |catalog|
    ensures forall j :: 0 <= j < k ==> catalog[j].name != name
    ensures k < |catalog| ==> catalog[k].name == name
  {
    if |catalog| == 0 then 0
    else if catalog[0].name == name then 0
    else 1 + FirstMatch(catalog[1..], name)
  }

  /** `presetSizes.find(size => size.name === name)`. */
  function Find(catalog: seq<Preset>, name: string): (r: Option<Preset>)
    ensures r.Some? ==> r.value in catalog && r.value.name == name
    ensures r.None? ==> forall i :: 0 <= i < |catalog| ==> catalog[i].name != name
    ensures r.Some? ==> r.value == catalog[FirstMatch(catalog, name)]
  {
    var k := FirstMatch(catalog, name);
    if k < |catalog| then Some(catalog[k]) else None
  }

  /** In a catalog with distinct names, looking an entry up by its own name
      finds that entry. */
  lemma FindByOwnName(catalog: seq<Preset>, i: nat)
    requires i < |catalog|
    requires forall a, b :: 0 <= a < b < |catalog| ==> catalog[a].name != catalog[b].name
    ensures Find(catalog, catalog[i].name) == Some(catalog[i])
  {
    var k := FirstMatch(catalog, catalog[i].name);
    assert k == i;
  }
}
