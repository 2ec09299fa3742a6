/** The palette manager of Palette.c: the 256-entry game palette and its
    backup copy, their initial contents, the palette built from a shape
    group's colour list, the fade-in and fade-out animations and the
    screen-blanked flag.

    RGBColorToU32 and U32ToRGBColor are not part of this model: they are the
    manager's conversion functions toU32 and toRGB, of which nothing is
    assumed, in particular not that one undoes the other. The frames a fade
    shows (PresentIndexedFramebuffer) are recorded in the presented log, and
    the ticks it waits between them are counted in waitedTicks. */
module Palette {
  import opened Colors

  /** A QuickDraw colour: three unsigned 16-bit channels. */
  datatype RGBColor = RGBColor(red: u16, green: u16, blue: u16)

  const Black: RGBColor := RGBColor(0, 0, 0)

  const PaletteSize: nat := 256
  /** Ticks waited after each frame of a fade. */
  const FadeFrameDelayTicks: nat := 2

  /** `(short)((int32_t)c * brightness / 100)` stored back into an unsigned
      16-bit channel: the product is truncated toward zero by the division
      (both operands are non-negative) and the result is reduced to 16 bits. */
  function ScaleChannel(c: u16, brightness: int): (s: u16)
    requires 0 <= brightness <= 100
    ensures s * 100 <= c * brightness < s * 100 + 100
    ensures s <= c
    ensures brightness == 0 ==> s == 0
    ensures brightness == 100 ==> s == c
  {
    ScaleFits(c, brightness);
    (c * brightness / 100) % 0x1_0000
  }

  /** The scaled channel never exceeds the channel, so the 16-bit reduction
      never wraps. */
  lemma ScaleFits(c: u16, brightness: int)
    requires 0 <= brightness <= 100
    ensures 0 <= c * brightness / 100 <= c
  {
    assert c * brightness <= c * 100;
  }

  /** A brighter level never gives a darker channel. */
  lemma {:induction false} ScaleMonotone(c: u16, b1: int, b2: int)
    requires 0 <= b1 <= b2 <= 100
    ensures ScaleChannel(c, b1) <= ScaleChannel(c, b2)
  {
    assert c * b1 <= c * b2 by {
      assert c * b2 == c * b1 + c * (b2 - b1);
    }
    ScaleFits(c, b1);
    ScaleFits(c, b2);
  }

  /** The colour with each channel scaled to brightness percent. */
  function FadedColor(col: RGBColor, brightness: int): (f: RGBColor)
    requires 0 <= brightness <= 100
    ensures f.red <= col.red && f.green <= col.green && f.blue <= col.blue
    ensures brightness == 0 ==> f == Black
    ensures brightness == 100 ==> f == col
  {
    RGBColor(ScaleChannel(col.red, brightness), ScaleChannel(col.green, brightness), ScaleChannel(col.blue, brightness))
  }

  /** The game palette during one frame of a fade whose backup is pal:
      entries 0 .. 254 are the backup's colours at the given brightness and
      entry 255, which the fades never write, keeps its value. */
  function Faded(toU32: RGBColor -> u32, toRGB: u32 -> RGBColor, pal: seq<u32>, brightness: int): (f: seq<u32>)
    requires |pal| == PaletteSize && 0 <= brightness <= 100
    ensures |f| == PaletteSize && f[255] == pal[255]
  {
    seq(PaletteSize, i requires 0 <= i < PaletteSize =>
      if i < 255 then toU32(FadedColor(toRGB(pal[i]), brightness)) else pal[i])
  }

  /** The brightness levels of FadeInGameCLUT: 4, 12, ..., 100. */
  function FadeInLevels(): (levels: seq<int>)
    ensures |levels| == 13
  {
    seq(13, k requires 0 <= k < 13 => 4 + 8 * k)
  }

  /** The brightness levels of FadeOutGameCLUT: 96, 88, ..., 0. */
  function FadeOutLevels(): (levels: seq<int>)
    ensures |levels| == 13
  {
    seq(13, k requires 0 <= k < 13 => 96 - 8 * k)
  }

  /** The fade-in rises from 4 to full brightness and the fade-out falls
      from 96 to zero, each in 13 steps of 8 within 0 .. 100. */
  lemma FadeLevelsShape()
    ensures FadeInLevels()[0] == 4 && FadeInLevels()[12] == 100
    ensures FadeOutLevels()[0] == 96 && FadeOutLevels()[12] == 0
    ensures forall k :: 0 <= k < 13 ==> 0 <= FadeInLevels()[k] <= 100 && 0 <= FadeOutLevels()[k] <= 100
    ensures forall k :: 0 <= k < 12 ==> FadeInLevels()[k + 1] == FadeInLevels()[k] + 8
    ensures forall k :: 0 <= k < 12 ==> FadeOutLevels()[k + 1] == FadeOutLevels()[k] - 8
  {
  }

  predicate LevelsInRange(levels: seq<int>)
  {
    forall k :: 0 <= k < |levels| ==> 0 <= levels[k] <= 100
  }

  /** The palettes a fade presents, one per brightness level. */
  function FadeFrames(toU32: RGBColor -> u32, toRGB: u32 -> RGBColor, pal: seq<u32>, levels: seq<int>): (frames: seq<seq<u32>>)
    requires |pal| == PaletteSize && LevelsInRange(levels)
    ensures |frames| == |levels|
  {
    seq(|levels|, k requires 0 <= k < |levels| => Faded(toU32, toRGB, pal, levels[k]))
  }

  /** At brightness 0 every faded entry is the conversion of black. */
  lemma FadeToBlack(toU32: RGBColor -> u32, toRGB: u32 -> RGBColor, pal: seq<u32>)
    requires |pal| == PaletteSize
    ensures forall i :: 0 <= i < 255 ==> Faded(toU32, toRGB, pal, 0)[i] == toU32(Black)
  {
  }

  /** At full brightness the faded palette is the backup itself exactly when
      converting each of entries 0 .. 254 to a colour and back gives it back. */
  lemma FullBrightness(toU32: RGBColor -> u32, toRGB: u32 -> RGBColor, pal: seq<u32>)
    requires |pal| == PaletteSize
    ensures Faded(toU32, toRGB, pal, 100) == pal <==> forall i :: 0 <= i < 255 ==> toU32(toRGB(pal[i])) == pal[i]
  {
    if forall i :: 0 <= i < 255 ==> toU32(toRGB(pal[i])) == pal[i] {
      assert forall i :: 0 <= i < PaletteSize ==> Faded(toU32, toRGB, pal, 100)[i] == pal[i];
    }
  }

  /** Each fade-in frame is at least as bright, channel by channel, as the
      one before it, and each fade-out frame at most as bright. */
  lemma {:induction false} FadeSteps(col: RGBColor, k: nat)
    requires k < 12
    ensures var a := FadedColor(col, FadeInLevels()[k]);
      var b := FadedColor(col, FadeInLevels()[k + 1]);
      a.red <= b.red && a.green <= b.green && a.blue <= b.blue
    ensures var a := FadedColor(col, FadeOutLevels()[k]);
      var b := FadedColor(col, FadeOutLevels()[k + 1]);
      b.red <= a.red && b.green <= a.green && b.blue <= a.blue
  {
    var i1, i2 := FadeInLevels()[k], FadeInLevels()[k + 1];
    ScaleMonotone(col.red, i1, i2);
    ScaleMonotone(col.green, i1, i2);
    ScaleMonotone(col.blue, i1, i2);
    var o1, o2 := FadeOutLevels()[k + 1], FadeOutLevels()[k];
    ScaleMonotone(col.red, o1, o2);
    ScaleMonotone(col.green, o1, o2);
    ScaleMonotone(col.blue, o1, o2);
  }

  /** The palette EraseCLUT leaves: its loop stores black into entry 0 on
      every pass, so only entry 0 changes. */
  function ErasedAsWritten(pal: seq<u32>, black: u32): (e: seq<u32>)
    requires |pal| == PaletteSize
    ensures |e| == PaletteSize && e[0] == black
    ensures forall i :: 1 <= i < PaletteSize ==> e[i] == pal[i]
  {
    pal[0 := black]
  }

  /** The palette EraseCLUT is meant to leave ("zap 0..254"): entries 0 .. 254
      black, entry 255 unchanged. */
  function ErasedAsIntended(pal: seq<u32>, black: u32): (e: seq<u32>)
    requires |pal| == PaletteSize
    ensures |e| == PaletteSize && e[255] == pal[255]
    ensures forall i :: 0 <= i < 255 ==> e[i] == black
  {
    seq(PaletteSize, i requires 0 <= i < PaletteSize => if i < 255 then black else pal[i])
  }

  /** The intended erase leaves the palette exactly as a completed fade-out
      leaves it. */
  lemma ErasedLikeFadeOut(toU32: RGBColor -> u32, toRGB: u32 -> RGBColor, pal: seq<u32>)
    requires |pal| == PaletteSize
    ensures ErasedAsIntended(pal, toU32(Black)) == Faded(toU32, toRGB, pal, 0)
  {
    assert forall i :: 0 <= i < PaletteSize ==> ErasedAsIntended(pal, toU32(Black))[i] == Faded(toU32, toRGB, pal, 0)[i];
  }

  /** The erase as written misses every entry 1 .. 254 that is not already
      black: such an entry stays visible although the screen counts as blanked. */
  lemma ErasedAsWrittenMisses(pal: seq<u32>, black: u32, i: nat)
    requires |pal| == PaletteSize && 1 <= i < 255 && pal[i] != black
    ensures ErasedAsWritten(pal, black)[i] != black
    ensures ErasedAsWritten(pal, black) != ErasedAsIntended(pal, black)
  {
    assert ErasedAsWritten(pal, black)[i] != ErasedAsIntended(pal, black)[i];
  }

  /** InitPaletteStuff's entry i, 0xFF000000 | i (the OR of disjoint bits). */
  function InitialEntry(i: byte): u32
  {
    0xFF00_0000 + i
  }

  /** Read through the filter's little-endian byte layout, initial entry i has
      red channel 0xFF, green and blue 0, and i in its fourth byte. */
  lemma InitialEntryBytes(i: byte)
    ensures ByteAt(InitialEntry(i), RI) == 0xFF && ByteAt(InitialEntry(i), GI) == 0
    ensures ByteAt(InitialEntry(i), BI) == 0 && ByteAt(InitialEntry(i), 0) == i
  {
    ByteOfWord(i, 0, 0, 0xFF);
    assert InitialEntry(i) == Word(i, 0, 0, 0xFF);
  }

  /** The palette globals: gGamePalette, gBackUpPalette and gSceenBlankedFlag. */
  class PaletteManager {
    const gamePalette: array<u32>
    const backUpPalette: array<u32>
    var screenBlanked: bool
    /** The game palette at each PresentIndexedFramebuffer call, oldest first. */
    var presented: seq<seq<u32>>
    /** Ticks spent in Wait. */
    var waitedTicks: nat
    const toU32: RGBColor -> u32
    const toRGB: u32 -> RGBColor

    ghost predicate Valid()
    {
      gamePalette.Length == PaletteSize && backUpPalette.Length == PaletteSize && gamePalette != backUpPalette
    }

    /** The zero-initialised globals. */
    constructor (toU32: RGBColor -> u32, toRGB: u32 -> RGBColor)
      ensures Valid() && fresh(gamePalette) && fresh(backUpPalette)
      ensures gamePalette[..] == seq(PaletteSize, i => 0) && backUpPalette[..] == seq(PaletteSize, i => 0)
      ensures !screenBlanked && presented == [] && waitedTicks == 0
      ensures this.toU32 == toU32 && this.toRGB == toRGB
    {
      gamePalette := new u32[PaletteSize](i => 0);
      backUpPalette := new u32[PaletteSize](i => 0);
      screenBlanked := false;
      presented := [];
      waitedTicks := 0;
      this.toU32 := toU32;
      this.toRGB := toRGB;
    }

    /** InitPaletteStuff: entry i of both palettes becomes 0xFF000000 | i. */
    method InitPaletteStuff()
      requires Valid()
      modifies gamePalette, backUpPalette
      ensures forall i :: 0 <= i < PaletteSize ==> gamePalette[i] == InitialEntry(i) && backUpPalette[i] == InitialEntry(i)
    {
      for i := 0 to PaletteSize
        invariant forall j :: 0 <= j < i ==> gamePalette[j] == InitialEntry(j) && backUpPalette[j] == InitialEntry(j)
      {
        gamePalette[i] := InitialEntry(i);
        backUpPalette[i] := InitialEntry(i);
      }
    }

    /** MakeBackUpPalette: the backup becomes a copy of the game palette. */
    method MakeBackUpPalette()
      requires Valid()
      modifies backUpPalette
      ensures backUpPalette[..] == gamePalette[..]
    {
      forall i | 0 <= i < PaletteSize {
        backUpPalette[i] := gamePalette[i];
      }
    }

    /** RestoreBackUpPalette: the game palette becomes a copy of the backup. */
    method RestoreBackUpPalette()
      requires Valid()
      modifies gamePalette
      ensures gamePalette[..] == backUpPalette[..]
    {
      forall i | 0 <= i < PaletteSize {
        gamePalette[i] := backUpPalette[i];
      }
    }

    /** BuildShapePalette, given the colour list read from the shape group's
        table: entry i becomes colour i of the list; when the list has fewer
        than 256 colours entry 255 is forced to black; the other entries keep
        their values. A list longer than 256 would overrun the palette. */
    method BuildShapePalette(colors: seq<RGBColor>)
      requires Valid() && |colors| <= PaletteSize
      modifies gamePalette
      ensures forall i :: 0 <= i < PaletteSize ==>
        gamePalette[i] == if i < |colors| then toU32(colors[i])
                          else if i == 255 then toU32(Black)
                          else old(gamePalette[i])
    {
      for i := 0 to |colors|
        invariant forall j :: 0 <= j < PaletteSize ==>
          gamePalette[j] == if j < i then toU32(colors[j]) else old(gamePalette[j])
      {
        gamePalette[i] := toU32(colors[i]);
      }
      if |colors| < PaletteSize {
        gamePalette[255] := toU32(Black);
      }
    }

    /** ActivateCLUT: the screen is no longer blanked. */
    method ActivateCLUT()
      modifies this
      ensures !screenBlanked && presented == old(presented) && waitedTicks == old(waitedTicks)
    {
      screenBlanked := false;
    }

    /** PresentIndexedFramebuffer as the palette sees it: the current game
        palette is shown. */
    method PresentIndexedFramebuffer()
      requires Valid()
      modifies this
      ensures presented == old(presented) + [gamePalette[..]]
      ensures screenBlanked == old(screenBlanked) && waitedTicks == old(waitedTicks)
    {
      presented := presented + [gamePalette[..]];
    }

    /** Wait(ticks). */
    method Wait(ticks: nat)
      modifies this
      ensures waitedTicks == old(waitedTicks) + ticks
      ensures screenBlanked == old(screenBlanked) && presented == old(presented)
    {
      waitedTicks := waitedTicks + ticks;
    }

    /** One frame of a fade: entries 0 .. 254 of the game palette become the
        backup's colours at the given brightness. */
    method FadeStep(brightness: int)
      requires Valid() && 0 <= brightness <= 100
      requires gamePalette[255] == backUpPalette[255]
      modifies gamePalette
      ensures gamePalette[..] == Faded(toU32, toRGB, backUpPalette[..], brightness)
    {
      for i := 0 to 255
        invariant forall j :: 0 <= j < PaletteSize ==>
          gamePalette[j] == if j < i then toU32(FadedColor(toRGB(backUpPalette[j]), brightness)) else old(gamePalette[j])
      {
        var rgbColor := toRGB(backUpPalette[i]);
        rgbColor := RGBColor(ScaleChannel(rgbColor.red, brightness), ScaleChannel(rgbColor.green, brightness),
                             ScaleChannel(rgbColor.blue, brightness));
        gamePalette[i] := toU32(rgbColor);
      }
    }

    /** FadeInGameCLUT: back the palette up, show it at brightness 4, 12, ...,
        100 percent, then restore the backup and unblank the screen. */
    method FadeInGameCLUT()
      requires Valid()
      modifies this, gamePalette, backUpPalette
      ensures backUpPalette[..] == old(gamePalette[..]) && gamePalette[..] == old(gamePalette[..])
      ensures presented == old(presented) + FadeFrames(toU32, toRGB, old(gamePalette[..]), FadeInLevels())
      ensures waitedTicks == old(waitedTicks) + 13 * FadeFrameDelayTicks
      ensures !screenBlanked
    {
      ghost var pal := gamePalette[..];
      MakeBackUpPalette();
      ghost var k := 0;
      var brightness := 4;
      while brightness <= 100
        invariant 0 <= k <= 13 && brightness == 4 + 8 * k
        invariant backUpPalette[..] == pal && gamePalette[255] == pal[255]
        invariant presented == old(presented) + FadeFrames(toU32, toRGB, pal, FadeInLevels()[..k])
        invariant waitedTicks == old(waitedTicks) + k * FadeFrameDelayTicks
        decreases 100 - brightness
      {
        FadeStep(brightness);
        PresentIndexedFramebuffer();
        Wait(FadeFrameDelayTicks);
        assert FadeInLevels()[..k + 1] == FadeInLevels()[..k] + [brightness];
        brightness := brightness + 8;
        k := k + 1;
      }
      assert FadeInLevels()[..k] == FadeInLevels();
      RestoreBackUpPalette();
      screenBlanked := false;
    }

    /** EraseCLUT as written: every pass of its loop stores black into entry
        0, so entries 1 .. 254 keep their colours; the screen counts as
        blanked. */
    method EraseCLUT()
      requires Valid()
      modifies this, gamePalette
      ensures gamePalette[..] == ErasedAsWritten(old(gamePalette[..]), toU32(Black))
      ensures screenBlanked && presented == old(presented) && waitedTicks == old(waitedTicks)
    {
      var color := toU32(Black);
      for i := 0 to 255
        invariant gamePalette[..] == if i == 0 then old(gamePalette[..]) else ErasedAsWritten(old(gamePalette[..]), color)
        invariant presented == old(presented) && waitedTicks == old(waitedTicks)
      {
        gamePalette[0] := color;
      }
      screenBlanked := true;
    }

    /** EraseCLUT with the evident intent of its "zap 0..254" loop: entry i,
        not entry 0, is stored on pass i. */
    method EraseCLUTAsIntended()
      requires Valid()
      modifies this, gamePalette
      ensures gamePalette[..] == ErasedAsIntended(old(gamePalette[..]), toU32(Black))
      ensures screenBlanked && presented == old(presented) && waitedTicks == old(waitedTicks)
    {
      var color := toU32(Black);
      for i := 0 to 255
        invariant forall j :: 0 <= j < PaletteSize ==>
          gamePalette[j] == if j < i then color else old(gamePalette[j])
        invariant presented == old(presented) && waitedTicks == old(waitedTicks)
      {
        gamePalette[i] := color;
      }
      screenBlanked := true;
    }

    /** FadeOutGameCLUT: nothing happens when the screen is already blanked;
        otherwise back the palette up, show it at brightness 96, 88, ..., 0
        percent, leaving entries 0 .. 254 black, and mark the screen blanked. */
    method FadeOutGameCLUT()
      requires Valid()
      modifies this, gamePalette, backUpPalette
      ensures old(screenBlanked) ==>
        gamePalette[..] == old(gamePalette[..]) && backUpPalette[..] == old(backUpPalette[..]) &&
        presented == old(presented) && waitedTicks == old(waitedTicks) && screenBlanked
      ensures !old(screenBlanked) ==>
        backUpPalette[..] == old(gamePalette[..]) &&
        gamePalette[..] == Faded(toU32, toRGB, old(gamePalette[..]), 0) &&
        presented == old(presented) + FadeFrames(toU32, toRGB, old(gamePalette[..]), FadeOutLevels()) &&
        waitedTicks == old(waitedTicks) + 13 * FadeFrameDelayTicks && screenBlanked
    {
      if screenBlanked {
        return;
      }
      ghost var pal := gamePalette[..];
      MakeBackUpPalette();
      ghost var k := 0;
      var brightness := 96;
      while brightness >= 0
        invariant 0 <= k <= 13 && brightness == 96 - 8 * k
        invariant backUpPalette[..] == pal && gamePalette[255] == pal[255]
        invariant k > 0 ==> gamePalette[..] == Faded(toU32, toRGB, pal, brightness + 8)
        invariant presented == old(presented) + FadeFrames(toU32, toRGB, pal, FadeOutLevels()[..k])
        invariant waitedTicks == old(waitedTicks) + k * FadeFrameDelayTicks
        decreases brightness
      {
        FadeStep(brightness);
        PresentIndexedFramebuffer();
        Wait(FadeFrameDelayTicks);
        assert FadeOutLevels()[..k + 1] == FadeOutLevels()[..k] + [brightness];
        brightness := brightness - 8;
        k := k + 1;
      }
      assert FadeOutLevels()[..k] == FadeOutLevels();
      screenBlanked := true;
    }
  }

  /** A fade-in leaves the palette and the backup as they were before it and
      shows 13 frames, the last of which is the palette itself whenever the
      conversions round-trip on its entries 0 .. 254. */
  method FadeInShowsPalette(m: PaletteManager)
    requires m.Valid()
    requires forall i :: 0 <= i < 255 ==> m.toU32(m.toRGB(m.gamePalette[i])) == m.gamePalette[i]
    modifies m, m.gamePalette, m.backUpPalette
    ensures |m.presented| == |old(m.presented)| + 13
    ensures m.presented[|m.presented| - 1] == old(m.gamePalette[..]) == m.gamePalette[..]
  {
    ghost var pal := m.gamePalette[..];
    m.FadeInGameCLUT();
    FullBrightness(m.toU32, m.toRGB, pal);
    assert FadeInLevels()[12] == 100;
  }

  /** After a fade-out that starts unblanked, the last frame shown and the
      palette left behind both have entries 0 .. 254 black, and fading out
      again changes nothing: the second call shows no frame, waits no tick
      and leaves the palette of the first. */
  method FadeOutTwice(m: PaletteManager)
    requires m.Valid() && !m.screenBlanked
    modifies m, m.gamePalette, m.backUpPalette
    ensures forall i :: 0 <= i < 255 ==> m.gamePalette[i] == m.toU32(Black)
    ensures |m.presented| == |old(m.presented)| + 13 && m.presented[|m.presented| - 1] == m.gamePalette[..]
    ensures m.gamePalette[..] == Faded(m.toU32, m.toRGB, old(m.gamePalette[..]), 0) && m.screenBlanked
    ensures m.waitedTicks == old(m.waitedTicks) + 13 * FadeFrameDelayTicks
    ensures m.gamePalette[255] == old(m.gamePalette[255])
  {
    ghost var pal := m.gamePalette[..];
    m.FadeOutGameCLUT();
    FadeToBlack(m.toU32, m.toRGB, pal);
    assert FadeOutLevels()[12] == 0;
    ghost var shown := m.presented;
    ghost var after := m.gamePalette[..];
    m.FadeOutGameCLUT();
    assert m.gamePalette[..] == after && m.presented == shown;
  }

  /** Making a backup and restoring it leaves the game palette as it was. */
  method BackUpThenRestore(m: PaletteManager)
    requires m.Valid()
    modifies m.gamePalette, m.backUpPalette
    ensures m.gamePalette[..] == old(m.gamePalette[..]) && m.backUpPalette[..] == old(m.gamePalette[..])
  {
    m.MakeBackUpPalette();
    m.RestoreBackUpPalette();
  }
}
