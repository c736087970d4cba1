/**
 * The aspect-ratio link between the crop width and height fields. Editing
 * one field rewrites the other for the ratios 1:1, 4:3 and 16:9; the
 * `is_updating_dimensions` flag keeps the second field's write trace from
 * writing the first one back.
 */
module Aspect {
  import opened Wrappers
  import opened Text

  /** Python's `int(a / b)` for b > 0: the quotient truncated toward zero. */
  function TruncDiv(a: int, b: int): (q: int)
    requires b > 0
    ensures a >= 0 ==> 0 <= q && q * b <= a < q * b + b
    ensures a < 0 ==> q <= 0 && a <= q * b < a + b
  {
    if a >= 0 then a / b else -((-a) / b)
  }

  predicate KnownRatio(ratio: string) { ratio == "1:1" || ratio == "4:3" || ratio == "16:9" }

  /** The height `on_width_change` writes for width `w`, or `None` when the ratio is free. */
  function HeightFor(ratio: string, w: int): (h: Option<int>)
    ensures h.Some? <==> KnownRatio(ratio)
    ensures ratio == "1:1" ==> h == Some(w)
    ensures ratio == "4:3" && w >= 0 ==> 4 * h.value <= 3 * w < 4 * h.value + 4
    ensures ratio == "16:9" && w >= 0 ==> 16 * h.value <= 9 * w < 16 * h.value + 16
  {
    if ratio == "1:1" then Some(w)
    else if ratio == "4:3" then Some(TruncDiv(w * 3, 4))
    else if ratio == "16:9" then Some(TruncDiv(w * 9, 16))
    else None
  }

  /** The width `on_height_change` writes for height `h`, or `None` when the ratio is free. */
  function WidthFor(ratio: string, h: int): (w: Option<int>)
    ensures w.Some? <==> KnownRatio(ratio)
    ensures ratio == "1:1" ==> w == Some(h)
    ensures ratio == "4:3" && h >= 0 ==> 3 * w.value <= 4 * h < 3 * w.value + 3
    ensures ratio == "16:9" && h >= 0 ==> 9 * w.value <= 16 * h < 9 * w.value + 9
  {
    if ratio == "1:1" then Some(h)
    else if ratio == "4:3" then Some(TruncDiv(h * 4, 3))
    else if ratio == "16:9" then Some(TruncDiv(h * 16, 9))
    else None
  }

  /** Truncation toward zero makes the link odd: a negative entry gives the negated result. */
  lemma LinkIsOdd(ratio: string, v: int)
    requires KnownRatio(ratio)
    ensures HeightFor(ratio, -v).value == -HeightFor(ratio, v).value
    ensures WidthFor(ratio, -v).value == -WidthFor(ratio, v).value
  {
  }

  /**
   * Deriving the height from a width and then the width back from that
   * height never gives more than the width typed, and loses at most 2.
   */
  lemma LinkRoundTrip(ratio: string, w: nat)
    requires KnownRatio(ratio)
    ensures var w' := WidthFor(ratio, HeightFor(ratio, w).value).value;
      w - 2 <= w' <= w && (ratio == "1:1" ==> w' == w)
  {
    var h := HeightFor(ratio, w).value;
    var w' := WidthFor(ratio, h).value;
    if ratio == "4:3" {
      assert 4 * h <= 3 * w < 4 * h + 4;
      assert 3 * w' <= 4 * h < 3 * w' + 3;
    } else if ratio == "16:9" {
      assert 16 * h <= 9 * w < 16 * h + 16;
      assert 9 * w' <= 16 * h < 9 * w' + 9;
    }
  }

  /** The text the linked field receives: `str(...)` of the derived number, or the old text. */
  function Follow(derive: Option<int>, current: string): string
  {
    if derive.Some? then IntText(derive.value) else current
  }

  function HeightText(ratio: string, wText: string, current: string): string
  {
    var w := ParseInt(wText);
    if w.Some? then Follow(HeightFor(ratio, w.value), current) else current
  }

  function WidthText(ratio: string, hText: string, current: string): string
  {
    var h := ParseInt(hText);
    if h.Some? then Follow(WidthFor(ratio, h.value), current) else current
  }

  /** Typing a number into the width field under a fixed ratio puts `str` of the derived height in the height field. */
  lemma HeightTextOfNumber(ratio: string, w: int, current: string)
    requires KnownRatio(ratio)
    ensures ParseInt(HeightText(ratio, IntText(w), current)) == HeightFor(ratio, w)
  {
    ParseIntText(w);
    ParseIntText(HeightFor(ratio, w).value);
  }

  /** The two Tk string variables, the ratio combobox and the re-entrancy flag. */
  class DimensionLink {
    var cropW: string
    var cropH: string
    var ratio: string
    var updating: bool

    constructor (w: string, h: string, r: string)
      ensures cropW == w && cropH == h && ratio == r && !updating
    {
      cropW, cropH, ratio, updating := w, h, r, false;
    }

    /** `crop_w.set(text)`: store the text, then run the write trace `on_width_change`. */
    method SetCropW(text: string)
      modifies this
      decreases if updating then 0 else 1, 1
      ensures cropW == text && ratio == old(ratio) && updating == old(updating)
      ensures cropH == if old(updating) then old(cropH) else HeightText(ratio, text, old(cropH))
    {
      cropW := text;
      OnWidthChange();
    }

    /** `crop_h.set(text)`: store the text, then run the write trace `on_height_change`. */
    method SetCropH(text: string)
      modifies this
      decreases if updating then 0 else 1, 1
      ensures cropH == text && ratio == old(ratio) && updating == old(updating)
      ensures cropW == if old(updating) then old(cropW) else WidthText(ratio, text, old(cropW))
    {
      cropH := text;
      OnHeightChange();
    }

    /**
     * The width trace: does nothing while another update is running;
     * otherwise rewrites the height and leaves the width as it was.
     */
    method OnWidthChange()
      modifies this
      decreases if updating then 0 else 1, 0
      ensures updating == old(updating) && ratio == old(ratio) && cropW == old(cropW)
      ensures cropH == if old(updating) then old(cropH) else HeightText(ratio, cropW, old(cropH))
    {
      if updating {
        return;
      }
      updating := true;
      var w := ParseInt(cropW);
      if w.Some? {
        var h := HeightFor(ratio, w.value);
        if h.Some? {
          SetCropH(IntText(h.value));
        }
      }
      updating := false;
    }

    /** The height trace, symmetric to `OnWidthChange`. */
    method OnHeightChange()
      modifies this
      decreases if updating then 0 else 1, 0
      ensures updating == old(updating) && ratio == old(ratio) && cropH == old(cropH)
      ensures cropW == if old(updating) then old(cropW) else WidthText(ratio, cropH, old(cropW))
    {
      if updating {
        return;
      }
      updating := true;
      var h := ParseInt(cropH);
      if h.Some? {
        var w := WidthFor(ratio, h.value);
        if w.Some? {
          SetCropW(IntText(w.value));
        }
      }
      updating := false;
    }

    /** Choosing a ratio in the combobox re-derives the height from the width. */
    method SelectRatio(r: string)
      modifies this
      ensures ratio == r && cropW == old(cropW) && updating == old(updating)
      ensures cropH == if old(updating) then old(cropH) else HeightText(r, cropW, old(cropH))
    {
      ratio := r;
      OnWidthChange();
    }
  }
}
