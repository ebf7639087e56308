/**
 * The preset palettes of ColorPalettes and the operations that hand them out:
 * lookup by name, a whole palette pushed through adjustColor, and the two
 * combined. The table is built once, by the constructor, and never changes
 * afterwards, so it is modelled as a value.
 */
module ColorPalettes {
  import opened Wrappers
  import opened ColorSpace
  import opened ColorAdjust

  /** One entry of the preset table: a display name and its colours. */
  datatype Preset = Preset(name: string, colors: seq<Rgb>)

  /** Every colour of a palette is a byte colour. */
  predicate BytePalette(palette: seq<Rgb>) {
    forall c <- palette :: IsByteColor(c)
  }

  function RetroColors(): (p: seq<Rgb>)
    ensures |p| == 16 && BytePalette(p)
  {
    [Rgb(0, 0, 0), Rgb(255, 255, 255), Rgb(255, 0, 0), Rgb(0, 255, 0),
     Rgb(0, 0, 255), Rgb(255, 255, 0), Rgb(255, 0, 255), Rgb(0, 255, 255),
     Rgb(128, 0, 0), Rgb(0, 128, 0), Rgb(0, 0, 128), Rgb(128, 128, 0),
     Rgb(128, 0, 128), Rgb(0, 128, 128), Rgb(192, 192, 192), Rgb(128, 128, 128)]
  }

  function CgaColors(): (p: seq<Rgb>)
    ensures |p| == 4 && BytePalette(p)
  {
    [Rgb(0, 0, 0), Rgb(0, 255, 255), Rgb(255, 0, 255), Rgb(255, 255, 255)]
  }

  function EgaColors(): (p: seq<Rgb>)
    ensures |p| == 16 && BytePalette(p)
  {
    [Rgb(0, 0, 0), Rgb(0, 0, 170), Rgb(0, 170, 0), Rgb(0, 170, 170),
     Rgb(170, 0, 0), Rgb(170, 0, 170), Rgb(170, 85, 0), Rgb(170, 170, 170),
     Rgb(85, 85, 85), Rgb(85, 85, 255), Rgb(85, 255, 85), Rgb(85, 255, 255),
     Rgb(255, 85, 85), Rgb(255, 85, 255), Rgb(255, 255, 85), Rgb(255, 255, 255)]
  }

  function C64Colors(): (p: seq<Rgb>)
    ensures |p| == 16 && BytePalette(p)
  {
    [Rgb(0, 0, 0), Rgb(255, 255, 255), Rgb(136, 57, 50), Rgb(103, 182, 189),
     Rgb(139, 63, 150), Rgb(85, 160, 73), Rgb(64, 49, 141), Rgb(191, 206, 114),
     Rgb(139, 84, 41), Rgb(87, 66, 0), Rgb(184, 105, 98), Rgb(80, 80, 80),
     Rgb(120, 120, 120), Rgb(148, 224, 137), Rgb(120, 105, 196), Rgb(159, 159, 159)]
  }

  function GameBoyColors(): (p: seq<Rgb>)
    ensures |p| == 4 && BytePalette(p)
  {
    [Rgb(15, 56, 15), Rgb(48, 98, 48), Rgb(139, 172, 15), Rgb(155, 188, 15)]
  }

  function NesColors(): (p: seq<Rgb>)
    ensures |p| == 16 && BytePalette(p)
  {
    [Rgb(124, 124, 124), Rgb(0, 0, 252), Rgb(0, 0, 188), Rgb(68, 40, 188),
     Rgb(148, 0, 132), Rgb(168, 0, 32), Rgb(168, 16, 0), Rgb(136, 20, 0),
     Rgb(80, 48, 0), Rgb(0, 120, 0), Rgb(0, 104, 0), Rgb(0, 88, 0),
     Rgb(0, 64, 88), Rgb(0, 0, 0), Rgb(0, 0, 0), Rgb(0, 0, 0)]
  }

  /** The names the table is keyed by. */
  const PresetNames: set<string> := {"retro", "cga", "ega", "c64", "gameboy", "nes"}

  /**
   * initializePresetPalettes: six palettes keyed by name. Each holds only
   * byte colours: four for CGA and the Game Boy, sixteen for the rest.
   */
  function InitializePresetPalettes(): (presets: map<string, Preset>)
    ensures presets.Keys == PresetNames
    ensures forall name <- presets.Keys :: BytePalette(presets[name].colors)
    ensures forall name <- presets.Keys ::
      |presets[name].colors| == (if name == "cga" || name == "gameboy" then 4 else 16)
  {
    map[
      "retro" := Preset("Retro Gaming", RetroColors()),
      "cga" := Preset("CGA (4 colors)", CgaColors()),
      "ega" := Preset("EGA (16 colors)", EgaColors()),
      "c64" := Preset("Commodore 64", C64Colors()),
      "gameboy" := Preset("Game Boy", GameBoyColors()),
      "nes" := Preset("NES", NesColors())]
  }

  /** getPresetPalette: the colours stored under a name, null (None) for a name not in the table. */
  function GetPresetPalette(paletteName: string): (r: Option<seq<Rgb>>)
    ensures r.None? <==> paletteName !in PresetNames
    ensures r.Some? ==> BytePalette(r.value) && 4 <= |r.value| <= 16
    ensures r.Some? ==> r.value == InitializePresetPalettes()[paletteName].colors
  {
    var presets := InitializePresetPalettes();
    if paletteName in presets then Some(presets[paletteName].colors) else None
  }

  /**
   * The adjustments object adjustPalette hands to adjustColor: each of the
   * four options it destructures, with its default filled in. The legacy
   * `hueOffset` is not passed on.
   */
  function PaletteAdjustments(adjustments: ColorAdjustments): (a: ColorAdjustments)
    ensures a.hueOffset.None? && a.hueShift.Some? && a.saturation.Some? && a.brightness.Some? && a.contrast.Some?
  {
    ColorAdjustments(None,
      Some(adjustments.hueShift.GetOr(0.0)),
      Some(adjustments.saturation.GetOr(100.0)),
      Some(adjustments.brightness.GetOr(100.0)),
      Some(adjustments.contrast.GetOr(100.0)))
  }

  /** adjustPalette: adjustColor applied to every colour, in order. */
  function AdjustPalette(palette: seq<Rgb>, adjustments: ColorAdjustments): (r: seq<Rgb>)
    ensures |r| == |palette|
    ensures BytePalette(r)
  {
    seq(|palette|, i requires 0 <= i < |palette| => AdjustColor(palette[i], PaletteAdjustments(adjustments)))
  }

  /**
   * Filling in the defaults before adjustColor changes nothing, because
   * adjustColor falls back on the same defaults: the i-th colour of the
   * adjusted palette is the i-th colour adjusted directly.
   */
  lemma {:induction false} AdjustPaletteEach(palette: seq<Rgb>, adjustments: ColorAdjustments)
    ensures forall i :: 0 <= i < |palette| ==> AdjustPalette(palette, adjustments)[i] == AdjustColor(palette[i], adjustments)
  {
    var a := PaletteAdjustments(adjustments);
    forall i | 0 <= i < |palette|
      ensures AdjustPalette(palette, adjustments)[i] == AdjustColor(palette[i], adjustments)
    {
      assert AdjustPalette(palette, adjustments)[i] == AdjustColor(palette[i], a);
      AdjustColorDefaults(palette[i], adjustments);
    }
  }

  /** adjustColor reads only the four options, each with its default. */
  lemma {:induction false} AdjustColorDefaults(c: Rgb, adjustments: ColorAdjustments)
    ensures AdjustColor(c, PaletteAdjustments(adjustments)) == AdjustColor(c, adjustments)
  {
    var a := PaletteAdjustments(adjustments);
    assert a.hueShift.GetOr(0.0) == adjustments.hueShift.GetOr(0.0);
    assert a.saturation.GetOr(100.0) == adjustments.saturation.GetOr(100.0);
    assert a.brightness.GetOr(100.0) == adjustments.brightness.GetOr(100.0);
    assert a.contrast.GetOr(100.0) == adjustments.contrast.GetOr(100.0);
  }

  /** Neutral adjustments give a byte palette back unchanged. */
  lemma {:induction false} AdjustPaletteNeutral(palette: seq<Rgb>, adjustments: ColorAdjustments)
    requires BytePalette(palette) && Neutral(adjustments)
    ensures AdjustPalette(palette, adjustments) == palette
  {
    AdjustPaletteEach(palette, adjustments);
    forall i | 0 <= i < |palette|
      ensures AdjustPalette(palette, adjustments)[i] == palette[i]
    {
      assert palette[i] in palette;
      AdjustColorNeutral(palette[i], adjustments);
    }
  }

  /** Adjusting two palettes one after the other is adjusting their concatenation. */
  lemma {:induction false} AdjustPaletteAppend(p1: seq<Rgb>, p2: seq<Rgb>, adjustments: ColorAdjustments)
    ensures AdjustPalette(p1 + p2, adjustments) == AdjustPalette(p1, adjustments) + AdjustPalette(p2, adjustments)
  {
    var a := PaletteAdjustments(adjustments);
    var lhs, rhs := AdjustPalette(p1 + p2, adjustments), AdjustPalette(p1, adjustments) + AdjustPalette(p2, adjustments);
    forall i | 0 <= i < |lhs|
      ensures lhs[i] == rhs[i]
    {
      if i < |p1| {
        assert (p1 + p2)[i] == p1[i];
      } else {
        assert (p1 + p2)[i] == p2[i - |p1|];
      }
    }
  }

  /**
   * getAdjustedPresetPalette: null (None) for a name not in the table,
   * otherwise the stored palette with every colour adjusted.
   */
  function GetAdjustedPresetPalette(paletteName: string, adjustments: ColorAdjustments): (r: Option<seq<Rgb>>)
    ensures r.None? <==> GetPresetPalette(paletteName).None?
    ensures r.Some? ==> |r.value| == |GetPresetPalette(paletteName).value| && BytePalette(r.value)
    ensures r.Some? ==> forall i :: 0 <= i < |r.value| ==>
      r.value[i] == AdjustColor(GetPresetPalette(paletteName).value[i], PaletteAdjustments(adjustments))
  {
    match GetPresetPalette(paletteName)
    case None => None
    case Some(originalPalette) => Some(AdjustPalette(originalPalette, adjustments))
  }

  /** With neutral adjustments the adjusted preset is the preset itself. */
  lemma {:induction false} AdjustedPresetNeutral(paletteName: string, adjustments: ColorAdjustments)
    requires Neutral(adjustments)
    ensures GetAdjustedPresetPalette(paletteName, adjustments) == GetPresetPalette(paletteName)
  {
    match GetPresetPalette(paletteName)
    case None =>
    case Some(p) => AdjustPaletteNeutral(p, adjustments);
  }
}
