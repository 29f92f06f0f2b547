/**
 * The text layout pass of `GlText.prototype.update`: one left-to-right walk over the
 * text that fills the interleaved `[width, offset, width, offset, ...]` buffer and the
 * per-character atlas-slot buffer, and the total text width derived from it.
 * Widths and offsets are in em units (fractions of the font size).
 */
module TextLayout {
  import opened Common

  /** Kerning values are stored in thousandths of an em and added without font-size scaling. */
  const KerningUnit: real := 0.001

  /** Every character of `text` has a cached advance width. */
  predicate Measured(text: string, width: map<char, real>)
  {
    forall i :: 0 <= i < |text| ==> text[i] in width
  }

  /** Every character of `text` has an atlas slot. */
  predicate Slotted(text: string, ids: map<char, nat>)
  {
    forall i :: 0 <= i < |text| ==> text[i] in ids
  }

  /**
   * The kerning shift, in em, between `prev` and `curr`: the stored per-mille value of the
   * two-character key when there is one and it is non-zero, and nothing otherwise.
   */
  function KernAdjust(kerning: map<string, real>, prev: char, curr: char): (r: real)
    ensures [prev, curr] !in kerning ==> r == 0.0
    ensures [prev, curr] in kerning ==> r * 1000.0 == kerning[[prev, curr]]
  {
    var key := [prev, curr];
    if key in kerning && kerning[key] != 0.0 then kerning[key] * KerningUnit else 0.0
  }

  /** The kerning shift applied between characters `i - 1` and `i`, or 0 when kerning is off. */
  function Shift(text: string, kerning: map<string, real>, kerningOn: bool, i: nat): real
    requires 0 < i < |text|
  {
    if kerningOn then KernAdjust(kerning, text[i - 1], text[i]) else 0.0
  }

  /** The centre of character `i`, in em from the start of the text (the offset recurrence). */
  function Offset(text: string, width: map<char, real>, kerning: map<string, real>, kerningOn: bool, i: nat): real
    requires i < |text| && Measured(text, width)
    decreases i
  {
    if i == 0 then width[text[0]] * 0.5
    else
      Offset(text, width, kerning, kerningOn, i - 1)
      + width[text[i - 1]] * 0.5 + width[text[i]] * 0.5
      + Shift(text, kerning, kerningOn, i)
  }

  /** The width of the laid-out text: the right edge of its last character, 0 for empty text. */
  function TextWidth(text: string, width: map<char, real>, kerning: map<string, real>, kerningOn: bool): real
    requires Measured(text, width)
  {
    if |text| == 0 then 0.0
    else Offset(text, width, kerning, kerningOn, |text| - 1) + width[text[|text| - 1]] * 0.5
  }

  /** The advance widths of the characters of `text`, in order. */
  function Widths(text: string, width: map<char, real>): (ws: seq<real>)
    requires Measured(text, width)
    ensures |ws| == |text|
    ensures forall i :: 0 <= i < |text| ==> ws[i] == width[text[i]]
  {
    if |text| == 0 then []
    else Widths(text[..|text| - 1], width) + [width[text[|text| - 1]]]
  }

  function Sum(s: seq<real>): real
  {
    if |s| == 0 then 0.0 else Sum(s[..|s| - 1]) + s[|s| - 1]
  }

  /** The sum of the kerning shifts applied between the first `i + 1` characters. */
  function ShiftTotal(text: string, kerning: map<string, real>, kerningOn: bool, i: nat): real
    requires i < |text|
  {
    if i == 0 then 0.0
    else ShiftTotal(text, kerning, kerningOn, i - 1) + Shift(text, kerning, kerningOn, i)
  }

  lemma {:induction false} SumPrefix(s: seq<real>, i: nat)
    requires i < |s|
    ensures Sum(s[..i + 1]) == Sum(s[..i]) + s[i]
  {
    assert s[..i + 1][..i] == s[..i];
  }

  /**
   * Closed form of the offset recurrence: the centre of character `i` lies after the full
   * widths of the characters before it, half its own width, and the kerning shifts so far.
   */
  lemma {:induction false} OffsetClosedForm(text: string, width: map<char, real>, kerning: map<string, real>, kerningOn: bool, i: nat)
    requires i < |text| && Measured(text, width)
    ensures Offset(text, width, kerning, kerningOn, i)
         == Sum(Widths(text, width)[..i]) + width[text[i]] * 0.5 + ShiftTotal(text, kerning, kerningOn, i)
  {
    var ws := Widths(text, width);
    if i == 0 {
      assert ws[..0] == [];
    } else {
      OffsetClosedForm(text, width, kerning, kerningOn, i - 1);
      SumPrefix(ws, i - 1);
    }
  }

  /**
   * The text width is the sum of the advance widths plus the kerning shifts; it is 0 for
   * the empty text.
   */
  lemma TextWidthClosedForm(text: string, width: map<char, real>, kerning: map<string, real>, kerningOn: bool)
    requires Measured(text, width)
    ensures |text| == 0 ==> TextWidth(text, width, kerning, kerningOn) == 0.0
    ensures |text| > 0 ==>
      TextWidth(text, width, kerning, kerningOn) == Sum(Widths(text, width)) + ShiftTotal(text, kerning, kerningOn, |text| - 1)
  {
    if |text| > 0 {
      var ws := Widths(text, width);
      OffsetClosedForm(text, width, kerning, kerningOn, |text| - 1);
      SumPrefix(ws, |text| - 1);
      assert ws[..|text|] == ws;
    }
  }

  /** Without kerning the shift total is zero. */
  lemma {:induction false} NoShiftWithoutKerning(text: string, kerning: map<string, real>, i: nat)
    requires i < |text|
    ensures ShiftTotal(text, kerning, false, i) == 0.0
  {
    if i > 0 {
      NoShiftWithoutKerning(text, kerning, i - 1);
    }
  }

  lemma {:induction false} SumNonNegative(s: seq<real>)
    requires forall i :: 0 <= i < |s| ==> s[i] >= 0.0
    ensures Sum(s) >= 0.0
  {
    if |s| > 0 {
      SumNonNegative(s[..|s| - 1]);
    }
  }

  /**
   * With kerning off the text width is exactly the sum of the advance widths, so it is
   * non-negative whenever the widths are.
   */
  lemma TextWidthWithoutKerning(text: string, width: map<char, real>, kerning: map<string, real>)
    requires Measured(text, width)
    ensures TextWidth(text, width, kerning, false) == Sum(Widths(text, width))
    ensures (forall c :: c in width ==> width[c] >= 0.0) ==> TextWidth(text, width, kerning, false) >= 0.0
  {
    TextWidthClosedForm(text, width, kerning, false);
    if |text| > 0 {
      NoShiftWithoutKerning(text, kerning, |text| - 1);
    }
    if forall c :: c in width ==> width[c] >= 0.0 {
      SumNonNegative(Widths(text, width));
    }
  }

  /** Without kerning and with non-negative widths, character centres never move left. */
  lemma {:induction false} OffsetsNonDecreasing(text: string, width: map<char, real>, kerning: map<string, real>, i: nat, j: nat)
    requires i <= j < |text| && Measured(text, width)
    requires forall c :: c in width ==> width[c] >= 0.0
    ensures Offset(text, width, kerning, false, i) <= Offset(text, width, kerning, false, j)
  {
    if i < j {
      OffsetsNonDecreasing(text, width, kerning, i, j - 1);
    }
  }

  /**
   * The pass is left to right: appending characters to the text leaves the centres of
   * the characters already laid out where they were.
   */
  lemma {:induction false} OffsetPrefixStable(text: string, more: string, width: map<char, real>, kerning: map<string, real>, kerningOn: bool, i: nat)
    requires i < |text| && Measured(text + more, width)
    ensures Measured(text, width)
    ensures Offset(text + more, width, kerning, kerningOn, i) == Offset(text, width, kerning, kerningOn, i)
  {
    assert forall k :: 0 <= k < |text| ==> (text + more)[k] == text[k];
    if i > 0 {
      OffsetPrefixStable(text, more, width, kerning, kerningOn, i - 1);
    }
  }

  /**
   * Fills the character-id and size buffers exactly as the measuring pass does: slot ids
   * truncated to a byte, `sizeData[2i]` the width and `sizeData[2i+1]` the centre offset of
   * character `i`, each offset computed from the previous entries read back from the buffer.
   */
  method FillBuffers(text: string, ids: map<char, nat>, width: map<char, real>, kerning: map<string, real>, kerningOn: bool)
    returns (charIds: array<Byte>, sizeData: array<real>, textWidth: real)
    requires Slotted(text, ids) && Measured(text, width)
    ensures fresh(charIds) && fresh(sizeData)
    ensures charIds.Length == |text| && sizeData.Length == 2 * |text|
    ensures forall i :: 0 <= i < |text| ==> charIds[i] == ToUint8(ids[text[i]])
    ensures forall i :: 0 <= i < |text| ==> sizeData[2 * i] == width[text[i]]
    ensures forall i :: 0 <= i < |text| ==> sizeData[2 * i + 1] == Offset(text, width, kerning, kerningOn, i)
    ensures textWidth == TextWidth(text, width, kerning, kerningOn)
  {
    var count := |text|;
    charIds := new Byte[count];
    sizeData := new real[2 * count];
    var i := 0;
    while i < count
      invariant 0 <= i <= count
      invariant forall j :: 0 <= j < i ==> charIds[j] == ToUint8(ids[text[j]])
      invariant forall j :: 0 <= j < i ==> sizeData[2 * j] == width[text[j]]
      invariant forall j :: 0 <= j < i ==> sizeData[2 * j + 1] == Offset(text, width, kerning, kerningOn, j)
    {
      var c := text[i];
      charIds[i] := ToUint8(ids[c]);
      sizeData[2 * i] := width[c];
      if i > 0 {
        var prevChar := text[i - 1];
        var prevWidth := sizeData[2 * i - 2];
        var currWidth := sizeData[2 * i];
        var prevOffset := sizeData[2 * i - 1];
        var offset := prevOffset + prevWidth * 0.5 + currWidth * 0.5;
        if kerningOn {
          var key := [prevChar, c];
          if key in kerning && kerning[key] != 0.0 {
            offset := offset + kerning[key] * KerningUnit;
          }
        }
        sizeData[2 * i + 1] := offset;
      } else {
        sizeData[1] := sizeData[0] * 0.5;
      }
      i := i + 1;
    }
    if count > 0 {
      textWidth := sizeData[sizeData.Length - 2] * 0.5 + sizeData[sizeData.Length - 1];
    } else {
      textWidth := 0.0;
    }
  }

  /** "AB" with widths A = 10, B = 8 and no kerning: centres 5 and 14, width 18. */
  lemma ScenarioWithoutKerning()
    ensures var w := map['A' := 10.0, 'B' := 8.0];
      Offset("AB", w, map[], false, 0) == 5.0 && Offset("AB", w, map[], false, 1) == 14.0
      && TextWidth("AB", w, map[], false) == 18.0
  {
  }

  /**
   * The same text with a kerning pair "AB" of -50 per mille: B moves left by 0.05 em,
   * whatever the font size.
   */
  lemma ScenarioWithKerning()
    ensures var w := map['A' := 10.0, 'B' := 8.0];
      Offset("AB", w, map["AB" := -50.0], true, 1) == 13.95
      && TextWidth("AB", w, map["AB" := -50.0], true) == 17.95
  {
  }
}
