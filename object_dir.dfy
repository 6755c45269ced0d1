/** Class-name migration for objects in old Milo object directories: classes that were
  * renamed over the engine's history are mapped to their current names by the version of
  * the directory they were saved in. */
module ObjectDir {
  import opened Wrappers
  import opened Ints

  /** Directories from this version on already use the current names. */
  const CURRENT_NAMES_VERSION: nat := 25

  /** The match table of `fix_class_name`: the current name of a legacy class, for the
    * versions in which the legacy name was in use. */
  function NewName(version: U32, className: string): Option<string> {
    if version <= 24 && className == "RenderedTex" then Some("TexRenderer")
    else if version <= 24 && className == "CompositeTexture" then Some("LayerDir")
    else if version <= 23 && className == "BandFx" then Some("WorldFx")
    else if version <= 21 && className == "Slider" then Some("BandSlider")
    else if version <= 20 && className == "TextEntry" then Some("BandTextEntry")
    else if version <= 19 && className == "Placer" then Some("BandPlacer")
    else if version <= 18 && className == "ButtonEx" then Some("BandButton")
    else if version <= 18 && className == "LabelEx" then Some("BandLabel")
    else if version <= 18 && className == "PictureEx" then Some("BandPicture")
    else if version <= 17 && className == "UIPanel" then Some("PanelDir")
    else if version <= 15 && className == "WorldInstance" then Some("WorldObject")
    else if version <= 14 && className == "View" then Some("Group")
    else if version <= 6 && className == "String" then Some("Line")
    else if version <= 5 && className == "MeshGenerator" then Some("Generator")
    else if version <= 4 && className == "TexMovie" then Some("Movie")
    else None
  }

  /** `fix_class_name`: the class name as it should be read; the source updates the string
    * in place, here the new value is returned. */
  function FixClassName(version: U32, className: string): string {
    if version >= CURRENT_NAMES_VERSION then className
    else match NewName(version, className)
      case Some(name) => name
      case None => className
  }

  /** One renaming: `legacy` becomes `current` in directories up to `lastVersion`. */
  datatype Rename = Rename(lastVersion: nat, legacy: string, current: string)

  /** The renamings as data, an independent statement of the table. */
  const RENAMES: seq<Rename> := [
    Rename(24, "RenderedTex", "TexRenderer"),
    Rename(24, "CompositeTexture", "LayerDir"),
    Rename(23, "BandFx", "WorldFx"),
    Rename(21, "Slider", "BandSlider"),
    Rename(20, "TextEntry", "BandTextEntry"),
    Rename(19, "Placer", "BandPlacer"),
    Rename(18, "ButtonEx", "BandButton"),
    Rename(18, "LabelEx", "BandLabel"),
    Rename(18, "PictureEx", "BandPicture"),
    Rename(17, "UIPanel", "PanelDir"),
    Rename(15, "WorldInstance", "WorldObject"),
    Rename(14, "View", "Group"),
    Rename(6, "String", "Line"),
    Rename(5, "MeshGenerator", "Generator"),
    Rename(4, "TexMovie", "Movie")
  ]

  predicate IsLegacyName(name: string) {
    exists k :: 0 <= k < |RENAMES| && RENAMES[k].legacy == name
  }

  /** From version 25 on nothing is renamed. */
  lemma CurrentVersionsUnchanged(version: U32, className: string)
    requires version >= CURRENT_NAMES_VERSION
    ensures FixClassName(version, className) == className
  {
  }

  /** A legacy name is renamed exactly in the versions up to its last one, and kept after. */
  lemma {:induction false} LegacyRenamedInRange(version: U32, k: nat)
    requires k < |RENAMES|
    ensures FixClassName(version, RENAMES[k].legacy)
      == if version <= RENAMES[k].lastVersion then RENAMES[k].current else RENAMES[k].legacy
  {
    var r := RENAMES[k];
    if k == 0 { assert r.legacy == "RenderedTex"; }
    else if k == 1 { assert r.legacy == "CompositeTexture"; }
    else if k == 2 { assert r.legacy == "BandFx"; }
    else if k == 3 { assert r.legacy == "Slider"; }
    else if k == 4 { assert r.legacy == "TextEntry"; }
    else if k == 5 { assert r.legacy == "Placer"; }
    else if k == 6 { assert r.legacy == "ButtonEx"; }
    else if k == 7 { assert r.legacy == "LabelEx"; }
    else if k == 8 { assert r.legacy == "PictureEx"; }
    else if k == 9 { assert r.legacy == "UIPanel"; }
    else if k == 10 { assert r.legacy == "WorldInstance"; }
    else if k == 11 { assert r.legacy == "View"; }
    else if k == 12 { assert r.legacy == "String"; }
    else if k == 13 { assert r.legacy == "MeshGenerator"; }
    else { assert r.legacy == "TexMovie"; }
  }

  /** A name that is not a legacy name is never changed. */
  lemma OtherNamesUnchanged(version: U32, className: string)
    requires !IsLegacyName(className)
    ensures FixClassName(version, className) == className
  {
    assert RENAMES[0].legacy == "RenderedTex";
    assert RENAMES[1].legacy == "CompositeTexture";
    assert RENAMES[2].legacy == "BandFx";
    assert RENAMES[3].legacy == "Slider";
    assert RENAMES[4].legacy == "TextEntry";
    assert RENAMES[5].legacy == "Placer";
    assert RENAMES[6].legacy == "ButtonEx";
    assert RENAMES[7].legacy == "LabelEx";
    assert RENAMES[8].legacy == "PictureEx";
    assert RENAMES[9].legacy == "UIPanel";
    assert RENAMES[10].legacy == "WorldInstance";
    assert RENAMES[11].legacy == "View";
    assert RENAMES[12].legacy == "String";
    assert RENAMES[13].legacy == "MeshGenerator";
    assert RENAMES[14].legacy == "TexMovie";
  }

  /** Every rename `NewName` performs is a row of the table, taken within its versions. */
  lemma NewNameInTable(version: U32, className: string) returns (i: nat)
    requires NewName(version, className).Some?
    ensures i < |RENAMES| && RENAMES[i].legacy == className && version <= RENAMES[i].lastVersion
    ensures NewName(version, className).value == RENAMES[i].current
  {
    if version <= 24 && className == "RenderedTex" { i := 0; }
    else if version <= 24 && className == "CompositeTexture" { i := 1; }
    else if version <= 23 && className == "BandFx" { i := 2; }
    else if version <= 21 && className == "Slider" { i := 3; }
    else if version <= 20 && className == "TextEntry" { i := 4; }
    else if version <= 19 && className == "Placer" { i := 5; }
    else if version <= 18 && className == "ButtonEx" { i := 6; }
    else if version <= 18 && className == "LabelEx" { i := 7; }
    else if version <= 18 && className == "PictureEx" { i := 8; }
    else if version <= 17 && className == "UIPanel" { i := 9; }
    else if version <= 15 && className == "WorldInstance" { i := 10; }
    else if version <= 14 && className == "View" { i := 11; }
    else if version <= 6 && className == "String" { i := 12; }
    else if version <= 5 && className == "MeshGenerator" { i := 13; }
    else if version <= 4 && className == "TexMovie" { i := 14; }
    else { assert false; }
  }

  /** No current name is a legacy name. */
  lemma CurrentNotLegacy(i: nat)
    requires i < |RENAMES|
    ensures !IsLegacyName(RENAMES[i].current)
  {
    assert forall k :: 0 <= k < |RENAMES| ==> RENAMES[k].legacy != RENAMES[i].current;
  }

  /** Fixing a fixed name changes nothing: applying the fix twice is applying it once. */
  lemma FixIdempotent(version: U32, className: string)
    ensures FixClassName(version, FixClassName(version, className)) == FixClassName(version, className)
  {
    if version < CURRENT_NAMES_VERSION && NewName(version, className).Some? {
      var i := NewNameInTable(version, className);
      CurrentNotLegacy(i);
      OtherNamesUnchanged(version, RENAMES[i].current);
    }
  }
}
