/** The four preselected art styles. Each is a radio button of the page's "description"
    group and, by its value, a key of the server's meta-prompt switch. */
module Presets {
  import opened Wrappers

  datatype Preset = Christmas | WinterLandscape | FineArt | Nativity

  /** The radio button's value, which is also its element id. */
  function Key(p: Preset): string {
    match p
    case Christmas => "christmas"
    case WinterLandscape => "winterlandscape"
    case FineArt => "fineart"
    case Nativity => "nativity"
  }

  /** The preset a submitted art prompt names, if any (the server compares with `===`). */
  function ParsePreset(key: string): (p: Option<Preset>)
    ensures p.Some? ==> Key(p.value) == key
    ensures p.None? ==> forall q: Preset :: Key(q) != key
  {
    if key == "christmas" then Some(Christmas)
    else if key == "winterlandscape" then Some(WinterLandscape)
    else if key == "fineart" then Some(FineArt)
    else if key == "nativity" then Some(Nativity)
    else None
  }

  predicate IsPresetKey(key: string) {
    ParsePreset(key).Some?
  }

  /** Reading back a preset's key gives the preset. */
  lemma ParseKey(p: Preset)
    ensures ParsePreset(Key(p)) == Some(p)
  {
  }

  /** No two presets share a key. */
  lemma KeyInjective(p: Preset, q: Preset)
    ensures Key(p) == Key(q) <==> p == q
  {
  }
}
