/**
 * A text label, `GlText`, and its `update`: resolving the font entry and the atlas for the
 * current font and size, measuring unseen characters, laying the text out into the
 * character and size buffers, growing and repacking the atlas, and recomputing the
 * alignment and baseline offsets.
 */
module Label {
  import opened Common
  import opened Placement
  import opened TextLayout
  import opened FontRegistry
  import opened GlyphAtlas

  /**
   * The options of one `update`, after option aliasing and CSS parsing: a missing option is
   * `None`; a font size arrives rounded to whole pixels.
   */
  datatype Options = Options(
    font: Option<Font>,
    fontSize: Option<nat>,
    text: Option<string>,
    align: Option<Align>,
    baseline: Option<Baseline>,
    kerning: Option<bool>)

  /** The font used when a label has none and none is given: the base size in sans-serif. */
  const DefaultFont: Font := Font("sans-serif", "normal", "normal", "normal", "normal", BaseFontSize)

  /** JavaScript truthiness of an align value: a numeric 0 and the empty name are false. */
  predicate Truthy(a: Align)
  {
    match a
    case AlignAt(v) => v != 0.0
    case AlignNamed(name) => name != ""
    case AlignUnset => false
  }

  /**
   * The state of the measuring loop once it has walked `done`, relative to the atlas and
   * font state it started from.
   */
  ghost predicate Walked(done: string, kerningOn: bool, atlas: Atlas, font: FontEntry,
                         chars0: seq<char>, slotted0: set<char>,
                         known0: set<char>, measured0: seq<char>, requests0: seq<set<string>>,
                         newAtlasChars: seq<char>)
    reads atlas, font
  {
    && newAtlasChars == Unseen(slotted0, done)
    && atlas.chars == chars0 + newAtlasChars
    && atlas.ids.Keys == slotted0 + CharsOf(done)
    && font.width.Keys == known0 + CharsOf(done)
    && font.measured == measured0 + Unseen(known0, done)
    && font.requests == requests0 + (if kerningOn then Requests(known0, done) else [])
  }

  /**
   * One step of the measuring loop: gives `c` a slot in `atlas` unless it has one, and
   * caches its width (and kerning pairs) in `font` unless it is measured.
   */
  method MeasureStep(c: char, atlas: Atlas, font: FontEntry, kerningOn: bool,
                     measure: (string, char) -> real, kern: (string, set<string>) -> map<string, real>,
                     ghost done: string, ghost chars0: seq<char>, ghost slotted0: set<char>,
                     ghost known0: set<char>, ghost measured0: seq<char>, ghost requests0: seq<set<string>>,
                     newAtlasChars: seq<char>)
    returns (added: bool)
    requires SlotTable(atlas.chars, atlas.ids) && font.Valid(measure, kern)
    requires Walked(done, kerningOn, atlas, font, chars0, slotted0, known0, measured0, requests0, newAtlasChars)
    modifies atlas`chars, atlas`ids, font`width, font`kerning, font`measured, font`requests
    ensures SlotTable(atlas.chars, atlas.ids) && font.Valid(measure, kern)
    ensures added <==> c !in old(atlas.ids)
    ensures Walked(done + [c], kerningOn, atlas, font, chars0, slotted0, known0, measured0, requests0,
                   newAtlasChars + (if added then [c] else []))
  {
    ghost var ids, widths, measured, requests := atlas.ids.Keys, font.width.Keys, font.measured, font.requests;
    ghost var chars := atlas.chars;
    added := atlas.AssignSlot(c);
    font.MeasureChar(c, kerningOn, measure, kern);
    UnseenSnoc(slotted0, done, c);
    UnseenLogStep(slotted0, done, c, ids, chars0, chars, atlas.chars);
    UnseenLogStep(known0, done, c, widths, measured0, measured, font.measured);
    RequestsLogStep(known0, done, c, widths, kerningOn, requests0, requests, font.requests);
    SeenStep(slotted0, done, c, ids, atlas.ids.Keys);
    SeenStep(known0, done, c, widths, font.width.Keys);
  }

  /**
   * The measuring loop: walks `text` once, giving every character without a slot the next
   * slot of `atlas` and caching the width (and, with kerning on, the kerning pairs) of every
   * character `font` has not measured yet. Returns the characters that got a slot.
   */
  method MeasurePass(text: string, atlas: Atlas, font: FontEntry, kerningOn: bool,
                     measure: (string, char) -> real, kern: (string, set<string>) -> map<string, real>)
    returns (newAtlasChars: seq<char>)
    requires SlotTable(atlas.chars, atlas.ids) && font.Valid(measure, kern)
    modifies atlas`chars, atlas`ids, font`width, font`kerning, font`measured, font`requests
    ensures SlotTable(atlas.chars, atlas.ids) && font.Valid(measure, kern)
    ensures Slotted(text, atlas.ids) && Measured(text, font.width)
    ensures newAtlasChars == Unseen(old(atlas.ids).Keys, text)
    ensures atlas.chars == old(atlas.chars) + newAtlasChars
    ensures font.width.Keys == old(font.width).Keys + CharsOf(text)
    ensures font.measured == old(font.measured) + Unseen(old(font.width).Keys, text)
    ensures font.requests == old(font.requests) + (if kerningOn then Requests(old(font.width).Keys, text) else [])
  {
    ghost var chars0, slotted0 := atlas.chars, atlas.ids.Keys;
    ghost var measured0, requests0, known0 := font.measured, font.requests, font.width.Keys;
    ghost var done: string := [];
    newAtlasChars := [];
    var i := 0;
    while i < |text|
      invariant 0 <= i <= |text| && done == text[..i]
      invariant SlotTable(atlas.chars, atlas.ids) && font.Valid(measure, kern)
      invariant Walked(done, kerningOn, atlas, font, chars0, slotted0, known0, measured0, requests0, newAtlasChars)
    {
      var c := text[i];
      TakeSnoc(text, i);
      assert done + [c] == text[..i + 1];
      var added := MeasureStep(c, atlas, font, kerningOn, measure, kern,
                               done, chars0, slotted0, known0, measured0, requests0, newAtlasChars);
      if added {
        newAtlasChars := newAtlasChars + [c];
      }
      done := done + [c];
      i := i + 1;
    }
    assert done == text;
    KeysCoverText(text, atlas.ids, slotted0);
    KeysCoverText(text, font.width, known0);
  }

  lemma KeysCoverText<V>(text: string, m: map<char, V>, base: set<char>)
    requires m.Keys == base + CharsOf(text)
    ensures forall i :: 0 <= i < |text| ==> text[i] in m
  {
  }

  /**
   * The buffers and the text width are the layout of `text` with the slots `ids`, the
   * widths `width` and, when `kerningOn`, the kerning table `kerning`: one slot byte per
   * character, and per character its width and the offset of its centre.
   */
  ghost predicate Laid(text: string, ids: map<char, nat>, width: map<char, real>, kerning: map<string, real>,
                       kerningOn: bool, charIds: seq<Byte>, sizeData: seq<real>, textWidth: real)
    requires Slotted(text, ids) && Measured(text, width)
  {
    && |charIds| == |text| && |sizeData| == 2 * |text|
    && (forall i :: 0 <= i < |text| ==> charIds[i] == ToUint8(ids[text[i]]))
    && (forall i :: 0 <= i < |text| ==> sizeData[2 * i] == width[text[i]])
    && (forall i :: 0 <= i < |text| ==> sizeData[2 * i + 1] == Offset(text, width, kerning, kerningOn, i))
    && textWidth == TextWidth(text, width, kerning, kerningOn)
  }

  /**
   * An atlas that held `chars0`, with slots for `slotted0`, after `uploads0` uploads, now
   * holds `chars` after `uploads`: the characters of `t` it had no slot for were appended in
   * first-occurrence order, and the texture was uploaded once more exactly when any were.
   */
  ghost predicate Grown(chars0: seq<char>, slotted0: set<char>, uploads0: nat, t: string, chars: seq<char>, uploads: nat)
  {
    && chars == chars0 + Unseen(slotted0, t)
    && uploads == uploads0 + (if |chars| > |chars0| then 1 else 0)
  }

  /**
   * A font entry that had measured `known0` and made the kerning requests `requests0` has
   * measured `known` and made `requests`: it measured the characters of `t` it had not, and,
   * with kerning on, requested their pairs one character at a time.
   */
  ghost predicate Learned(known0: set<char>, requests0: seq<set<string>>, kerningOn: bool, t: string,
                          known: set<char>, requests: seq<set<string>>)
  {
    && known == known0 + CharsOf(t)
    && requests == requests0 + (if kerningOn then Requests(known0, t) else [])
  }

  /** One text label drawing with the atlases of one GL context. */
  class GlText {
    /** `GlText.fonts` and the canvas services behind it. */
    const registry: Registry
    /** The atlas cache of this label's GL context. */
    const shader: Shader
    /** `GlText.normalViewport`: y grows downwards (true) or upwards as in WebGL (false). */
    const normalViewport: bool

    var font: FontEntry?
    var fontSize: Option<nat>
    var fontString: string
    var fontAtlas: Atlas?
    var text: string
    var count: nat
    var kerning: bool
    var align: Align
    var baseline: Option<Baseline>
    var textWidth: real
    var alignOffset: real
    var baselineOffset: Scalar
    /** The contents of the character buffer: one atlas slot, as a byte, per character. */
    var charIds: seq<Byte>
    /** The contents of the size buffer: width and centre offset, interleaved, per character. */
    var sizeData: seq<real>

    /** The font string of a registry entry at a pixel size: the atlas key. */
    function FontStringOf(entry: FontEntry, size: nat): string
    {
      registry.stringify(Font(entry.family, entry.weight, entry.stretch, entry.style, entry.variant, size))
    }

    /** The state of a label before its first update. */
    ghost predicate Blank()
      reads this
    {
      && font == null && fontAtlas == null && fontSize.None? && baseline.None?
      && text == "" && count == 0 && align == AlignUnset && textWidth == 0.0 && alignOffset == 0.0
    }

    /**
     * The label refers to the registry entry of its font and to the atlas cached for its
     * font string at its pixel size.
     */
    ghost predicate Bound()
      reads this, registry, shader
    {
      && font != null && fontAtlas != null && fontSize.Some?
      && font.baseString in registry.fonts && registry.fonts[font.baseString] == font
      && fontString == FontStringOf(font, fontSize.value)
      && fontString in shader.atlas && shader.atlas[fontString] == fontAtlas
    }

    /**
     * Every character of the text has a slot in the atlas and a width in the font entry,
     * and the alignment offset matches the alignment and the text width.
     */
    ghost predicate Shown()
      reads this, font`width, fontAtlas`ids
      requires font != null && fontAtlas != null
    {
      && count == |text|
      && Slotted(text, fontAtlas.ids) && Measured(text, font.width)
      && alignOffset == AlignOffset(align, textWidth)
    }

    ghost predicate Valid()
      reads this, registry, shader, registry.fonts.Values, shader.atlas.Values
    {
      && registry.Valid() && shader.Valid()
      && Bound() && baseline.Some?
      && Shown()
    }

    /**
     * The buffers and the text width are the layout of the current text with the current
     * slots, widths and kerning.
     */
    ghost predicate LaidOut()
      reads this, font`width, font`kerning, fontAtlas`ids
      requires font != null && fontAtlas != null
      requires Slotted(text, fontAtlas.ids) && Measured(text, font.width)
    {
      Laid(text, fontAtlas.ids, font.width, font.kerning, kerning, charIds, sizeData, textWidth)
    }

    /** The font an update applies: the one given, or the default while the label has none. */
    function FontOption(o: Options): Option<Font>
      reads this
    {
      if font == null && o.font.None? then Some(DefaultFont) else o.font
    }

    /** An update moves the label to another registry entry. */
    predicate SwitchesFont(o: Options)
      reads this, font
    {
      var f := FontOption(o);
      f.Some? && (font == null || registry.BaseString(f.value) != font.baseString)
    }

    /** The pixel size once the font option, then the size option, are applied. */
    function NextSize(o: Options): Option<nat>
      reads this
    {
      if o.fontSize.Some? then o.fontSize
      else if FontOption(o).Some? then Some(FontOption(o).value.size)
      else fontSize
    }

    /** The font option or the size option changes the pixel size at some point of an update. */
    predicate ChangesSize(o: Options)
      reads this
    {
      var f := FontOption(o);
      var afterFont := if f.Some? then Some(f.value.size) else fontSize;
      (afterFont != fontSize) || (o.fontSize.Some? && o.fontSize != afterFont)
    }

    /** Without a reported size change the update keeps the pixel size. */
    lemma SizeKeptWithoutChange(o: Options)
      ensures !ChangesSize(o) ==> NextSize(o) == fontSize
    {
    }

    /**
     * The converse fails: a font option at another size followed by a size option back at
     * the current size reports a size change that leaves the size where it was.
     */
    lemma SizeChangeWithoutNetChange(f: Font)
      requires fontSize == Some(64) && f.size == 32
      ensures ChangesSize(Options(Some(f), Some(64), None, None, None, None))
      ensures NextSize(Options(Some(f), Some(64), None, None, None, None)) == fontSize
    {
    }

    /** An update lays the text out again: new text, another font entry or a size change. */
    predicate Relays(o: Options)
      reads this, font
    {
      o.text.Some? || SwitchesFont(o) || ChangesSize(o)
    }

    constructor (registry: Registry, shader: Shader, normalViewport: bool, o: Options)
      requires registry.Valid() && shader.Valid()
      modifies registry, shader, registry.fonts.Values, shader.atlas.Values
      ensures Valid()
      ensures this.registry == registry && this.shader == shader && this.normalViewport == normalViewport
      ensures kerning == o.kerning.GetOr(true) && text == o.text.GetOr("") && LaidOut()
      ensures font.baseString == registry.BaseString(o.font.GetOr(DefaultFont))
      ensures fontSize == Some(o.fontSize.GetOr(o.font.GetOr(DefaultFont).size))
      ensures align == (if o.align.Some? && Truthy(o.align.value) then o.align.value else AlignUnset)
      ensures baseline == Some(o.baseline.GetOr(BaselineAt(0.0)))
      ensures baselineOffset == BaselineOffset(font.metrics, baseline.value, normalViewport)
      ensures forall k :: k in old(registry.fonts) ==> k in registry.fonts && registry.fonts[k] == old(registry.fonts[k])
      ensures forall k :: k in old(shader.atlas) ==> k in shader.atlas && shader.atlas[k] == old(shader.atlas[k])
      ensures forall k :: k in old(shader.atlas) && shader.atlas[k] == fontAtlas ==>
        Grown(old(shader.atlas[k].chars), old(shader.atlas[k].ids).Keys, old(shader.atlas[k].uploads), text,
              fontAtlas.chars, fontAtlas.uploads)
      ensures fresh(fontAtlas) ==> Grown([], {}, 0, text, fontAtlas.chars, fontAtlas.uploads)
      ensures fontAtlas in old(shader.atlas.Values) || fresh(fontAtlas)
      ensures forall k :: k in old(shader.atlas) && shader.atlas[k] != fontAtlas ==>
        shader.atlas[k].chars == old(shader.atlas[k].chars) && shader.atlas[k].uploads == old(shader.atlas[k].uploads)
      ensures forall k :: k in old(registry.fonts) ==> old(registry.fonts[k].width).Keys <= registry.fonts[k].width.Keys
      ensures forall k :: k in old(registry.fonts) && registry.fonts[k] != font ==>
        registry.fonts[k].width == old(registry.fonts[k].width) && registry.fonts[k].kerning == old(registry.fonts[k].kerning)
      ensures forall k :: k in old(registry.fonts) && registry.fonts[k] == font ==>
        Learned(old(registry.fonts[k].width).Keys, old(registry.fonts[k].requests), kerning, text,
                font.width.Keys, font.requests)
      ensures fresh(font) ==> Learned({}, [], kerning, text, font.width.Keys, font.requests)
      ensures font in old(registry.fonts.Values) || fresh(font)
    {
      this.registry := registry;
      this.shader := shader;
      this.normalViewport := normalViewport;
      font := null;
      fontSize := None;
      fontString := "";
      fontAtlas := null;
      text := "";
      count := 0;
      kerning := true;
      align := AlignUnset;
      baseline := None;
      textWidth := 0.0;
      alignOffset := 0.0;
      baselineOffset := Finite(0.0);
      charIds := [];
      sizeData := [];
      new;
      Update(o);
    }

    /**
     * The font and size options: looks the font's base string up in the registry, creating
     * the entry when it is absent, only when it differs from the current entry's. Returns the
     * entry and pixel size the label moves to, and which of the two changed.
     */
    method LookUpFont(o: Options) returns (entry: FontEntry, size: nat, newFont: bool, newFontSize: bool)
      requires registry.Valid()
      requires font != null ==> fontSize.Some? && font.baseString in registry.fonts && registry.fonts[font.baseString] == font
      modifies registry
      ensures registry.Valid()
      ensures forall k :: k in old(registry.fonts) ==> k in registry.fonts && registry.fonts[k] == old(registry.fonts[k])
      ensures entry.baseString in registry.fonts && registry.fonts[entry.baseString] == entry
      ensures entry.Valid(registry.measure, registry.kern)
      ensures newFont == old(SwitchesFont(o)) && newFontSize == old(ChangesSize(o))
      ensures Some(size) == old(NextSize(o))
      ensures newFont ==> entry.baseString == registry.BaseString(old(FontOption(o)).value)
      ensures !newFont ==> entry == old(font) && registry.fonts == old(registry.fonts)
      ensures !newFontSize ==> Some(size) == old(fontSize)
      ensures entry in old(registry.fonts.Values) || fresh(entry)
      ensures fresh(entry) ==> entry.width == map[] && entry.requests == []
    {
      var f := FontOption(o);
      var current, pixels := font, fontSize;
      newFont, newFontSize := false, false;
      if f.Some? {
        var baseString := registry.BaseString(f.value);
        if Some(f.value.size) != pixels {
          newFontSize := true;
          pixels := Some(f.value.size);
        }
        if current == null || baseString != current.baseString {
          newFont := true;
          current := registry.Resolve(f.value);
        } else {
          assert registry.Holds(current.baseString);
        }
      } else {
        assert registry.Holds(current.baseString);
      }
      if o.fontSize.Some? && o.fontSize != pixels {
        newFontSize := true;
        pixels := o.fontSize;
      }
      entry, size := current, pixels.value;
    }

    /**
     * Applies the kerning, font and size options: the kerning flag when given, then the
     * entry and pixel size found by `LookUpFont`. Reports whether the entry and the size
     * changed.
     */
    method ApplyFontOptions(o: Options) returns (newFont: bool, newFontSize: bool)
      requires registry.Valid()
      requires font != null ==> fontSize.Some? && font.baseString in registry.fonts && registry.fonts[font.baseString] == font
      modifies this`kerning, this`font, this`fontSize, registry
      ensures registry.Valid()
      ensures forall k :: k in old(registry.fonts) ==> k in registry.fonts && registry.fonts[k] == old(registry.fonts[k])
      ensures kerning == o.kerning.GetOr(old(kerning))
      ensures font != null && fontSize.Some?
      ensures font.baseString in registry.fonts && registry.fonts[font.baseString] == font
      ensures font.Valid(registry.measure, registry.kern)
      ensures newFont == old(SwitchesFont(o)) && newFontSize == old(ChangesSize(o))
      ensures fontSize == old(NextSize(o))
      ensures newFont ==> font.baseString == registry.BaseString(old(FontOption(o)).value)
      ensures !newFont ==> font == old(font) && registry.fonts == old(registry.fonts)
      ensures !newFontSize ==> fontSize == old(fontSize)
      ensures font in old(registry.fonts.Values) || fresh(font)
      ensures fresh(font) ==> font.width == map[] && font.requests == []
      ensures fontString == old(fontString) && fontAtlas == old(fontAtlas) && shader.atlas == old(shader.atlas)
      ensures text == old(text) && charIds == old(charIds) && sizeData == old(sizeData) && textWidth == old(textWidth)
      ensures align == old(align) && baseline == old(baseline) && baselineOffset == old(baselineOffset)
    {
      var entry, size;
      entry, size, newFont, newFontSize := LookUpFont(o);
      kerning, font, fontSize := o.kerning.GetOr(kerning), entry, Some(size);
    }

    /** Looks up the atlas of the current font string, creating an empty one when absent. */
    method SelectAtlas()
      requires shader.Valid() && font != null && fontSize.Some?
      modifies this`fontString, this`fontAtlas, shader
      ensures shader.Valid()
      ensures forall k :: k in old(shader.atlas) ==> k in shader.atlas && shader.atlas[k] == old(shader.atlas[k])
      ensures fontString == FontStringOf(font, fontSize.value)
      ensures fontAtlas != null && fontString in shader.atlas && shader.atlas[fontString] == fontAtlas
      ensures fontAtlas.Valid() && fontAtlas.fontString == fontString
      ensures fontString in old(shader.atlas) ==> fontAtlas == old(shader.atlas)[fontString]
      ensures fontString !in old(shader.atlas) ==>
        fresh(fontAtlas) && fontAtlas.chars == [] && fontAtlas.ids == map[] && fontAtlas.uploads == 0
        && fontAtlas.step == CellStep(fontSize.value, font.metrics["bottom"])
      ensures kerning == old(kerning) && font == old(font) && fontSize == old(fontSize)
      ensures registry.fonts == old(registry.fonts)
      ensures text == old(text) && charIds == old(charIds) && sizeData == old(sizeData) && textWidth == old(textWidth)
      ensures align == old(align) && baseline == old(baseline) && baselineOffset == old(baselineOffset)
    {
      fontString := FontStringOf(font, fontSize.value);
      fontAtlas := shader.Resolve(fontString, fontSize.value, font.metrics);
    }

    /**
     * The first half of an update: the kerning, font and size options, then, when the entry
     * or the size changed, the atlas for the new font string. Reports whether the text must
     * be laid out again.
     */
    method Retarget(o: Options) returns (relay: bool)
      requires registry.Valid() && shader.Valid()
      requires Bound() || (font == null && fontSize.None?)
      modifies this`kerning, this`font, this`fontSize, this`fontString, this`fontAtlas, registry, shader
      ensures registry.Valid() && shader.Valid() && Bound()
      ensures forall k :: k in old(registry.fonts) ==> k in registry.fonts && registry.fonts[k] == old(registry.fonts[k])
      ensures forall k :: k in old(shader.atlas) ==> k in shader.atlas && shader.atlas[k] == old(shader.atlas[k])
      ensures forall k :: k in old(shader.atlas) ==>
        shader.atlas[k].chars == old(shader.atlas[k].chars) && shader.atlas[k].ids == old(shader.atlas[k].ids)
        && shader.atlas[k].uploads == old(shader.atlas[k].uploads)
      ensures kerning == o.kerning.GetOr(old(kerning))
      ensures text == old(text) && charIds == old(charIds) && sizeData == old(sizeData) && textWidth == old(textWidth)
      ensures align == old(align) && baseline == old(baseline) && baselineOffset == old(baselineOffset)
      ensures relay == old(Relays(o))
      ensures fontSize == old(NextSize(o))
      ensures old(SwitchesFont(o)) ==> font.baseString == registry.BaseString(old(FontOption(o)).value)
      ensures !old(SwitchesFont(o)) ==> font == old(font) && registry.fonts == old(registry.fonts)
      ensures !relay ==> fontString == old(fontString) && fontAtlas == old(fontAtlas)
      ensures font in old(registry.fonts.Values) || fresh(font)
      ensures fontAtlas in old(shader.atlas.Values) || fresh(fontAtlas)
      ensures fresh(font) ==> font.width == map[] && font.requests == []
      ensures fresh(fontAtlas) ==> fontAtlas.chars == [] && fontAtlas.ids == map[] && fontAtlas.uploads == 0
      ensures forall k :: k in old(registry.fonts) ==>
        registry.fonts[k].width == old(registry.fonts[k].width) && registry.fonts[k].kerning == old(registry.fonts[k].kerning)
        && registry.fonts[k].requests == old(registry.fonts[k].requests)
      ensures font.Valid(registry.measure, registry.kern) && fontAtlas.Valid() && fontAtlas.fontString == fontString
    {
      var newFont, newFontSize := ApplyFontOptions(o);
      if newFont || newFontSize {
        SelectAtlas();
      } else {
        assert shader.Holds(fontString);
      }
      relay := o.text.Some? || newFont || newFontSize;
    }

    /**
     * Sets the text to `t` and measures it: every character gets a slot in the atlas and a
     * width in the font entry. Reports whether the atlas gained characters, and so needs
     * repacking.
     */
    method Measure(t: string) returns (grown: bool)
      requires font != null && fontAtlas != null
      requires font.Valid(registry.measure, registry.kern) && fontAtlas.Valid()
      modifies this`text, this`count
      modifies fontAtlas`chars, fontAtlas`ids, font`width, font`kerning, font`measured, font`requests
      ensures text == t && count == |t|
      ensures Slotted(t, fontAtlas.ids) && Measured(t, font.width)
      ensures font.Valid(registry.measure, registry.kern) && SlotTable(fontAtlas.chars, fontAtlas.ids)
      ensures fontAtlas.chars == old(fontAtlas.chars) + Unseen(old(fontAtlas.ids).Keys, t)
      ensures font.width.Keys == old(font.width).Keys + CharsOf(t)
      ensures font.measured == old(font.measured) + Unseen(old(font.width).Keys, t)
      ensures font.requests == old(font.requests) + (if kerning then Requests(old(font.width).Keys, t) else [])
      ensures grown <==> |fontAtlas.chars| > |old(fontAtlas.chars)|
      ensures !grown ==> fontAtlas.Valid()
    {
      SlotTableDistinct(fontAtlas.chars, fontAtlas.ids);
      text := t;
      count := |t|;
      var newAtlasChars := MeasurePass(text, fontAtlas, font, kerning, registry.measure, registry.kern);
      grown := |newAtlasChars| > 0;
    }

    /**
     * Lays `t` out: measures it, fills the buffers, recomputes the text width and alignment
     * offset, and repacks the atlas when characters were added to it.
     */
    method Relayout(t: string)
      requires font != null && fontAtlas != null
      requires font.Valid(registry.measure, registry.kern) && fontAtlas.Valid() && fontAtlas.fontString == fontString
      modifies this`text, this`count, this`charIds, this`sizeData, this`textWidth, this`alignOffset
      modifies fontAtlas, font
      ensures font.Valid(registry.measure, registry.kern) && fontAtlas.Valid()
      ensures text == t && Shown() && LaidOut()
      ensures Grown(old(fontAtlas.chars), old(fontAtlas.ids).Keys, old(fontAtlas.uploads), t, fontAtlas.chars, fontAtlas.uploads)
      ensures Learned(old(font.width).Keys, old(font.requests), kerning, t, font.width.Keys, font.requests)
      ensures font.measured == old(font.measured) + Unseen(old(font.width).Keys, t)
    {
      var grown := Lay(t);
      if grown {
        fontAtlas.Repack(fontString);
      }
    }

    /**
     * Measures `t` and fills the buffers for it. Reports whether the atlas gained
     * characters; its geometry and texture are not touched yet.
     */
    method Lay(t: string) returns (grown: bool)
      requires font != null && fontAtlas != null
      requires font.Valid(registry.measure, registry.kern) && fontAtlas.Valid()
      modifies this`text, this`count, this`charIds, this`sizeData, this`textWidth, this`alignOffset
      modifies fontAtlas`chars, fontAtlas`ids, font`width, font`kerning, font`measured, font`requests
      ensures font.Valid(registry.measure, registry.kern) && SlotTable(fontAtlas.chars, fontAtlas.ids)
      ensures text == t && Shown() && LaidOut()
      ensures fontAtlas.chars == old(fontAtlas.chars) + Unseen(old(fontAtlas.ids).Keys, t)
      ensures font.width.Keys == old(font.width).Keys + CharsOf(t)
      ensures font.measured == old(font.measured) + Unseen(old(font.width).Keys, t)
      ensures font.requests == old(font.requests) + (if kerning then Requests(old(font.width).Keys, t) else [])
      ensures grown <==> |fontAtlas.chars| > |old(fontAtlas.chars)|
      ensures !grown ==> fontAtlas.Valid()
    {
      grown := Measure(t);
      Fill();
    }

    /** Lays `t` out with the bound font entry and atlas, keeping the registry and cache consistent. */
    method Refresh(t: string)
      requires registry.Valid() && shader.Valid() && Bound()
      requires font.Valid(registry.measure, registry.kern) && fontAtlas.Valid() && fontAtlas.fontString == fontString
      modifies this`text, this`count, this`charIds, this`sizeData, this`textWidth, this`alignOffset
      modifies fontAtlas, font
      ensures registry.Valid() && shader.Valid() && Bound()
      ensures text == t && Shown() && LaidOut()
      ensures registry.fonts == old(registry.fonts) && shader.atlas == old(shader.atlas)
      ensures align == old(align) && baseline == old(baseline) && baselineOffset == old(baselineOffset)
      ensures kerning == old(kerning) && font == old(font) && fontSize == old(fontSize)
      ensures fontString == old(fontString) && fontAtlas == old(fontAtlas)
      ensures Grown(old(fontAtlas.chars), old(fontAtlas.ids).Keys, old(fontAtlas.uploads), t, fontAtlas.chars, fontAtlas.uploads)
      ensures Learned(old(font.width).Keys, old(font.requests), kerning, t, font.width.Keys, font.requests)
      ensures font.measured == old(font.measured) + Unseen(old(font.width).Keys, t)
      ensures forall k :: k in shader.atlas ==> old(shader.atlas[k].chars) <= shader.atlas[k].chars
      ensures forall k :: k in registry.fonts ==> old(registry.fonts[k].width).Keys <= registry.fonts[k].width.Keys
      ensures forall k :: k in registry.fonts && registry.fonts[k] != font ==>
        registry.fonts[k].width == old(registry.fonts[k].width) && registry.fonts[k].kerning == old(registry.fonts[k].kerning)
      ensures forall k :: k in shader.atlas && shader.atlas[k] != fontAtlas ==>
        shader.atlas[k].chars == old(shader.atlas[k].chars) && shader.atlas[k].ids == old(shader.atlas[k].ids)
        && shader.atlas[k].uploads == old(shader.atlas[k].uploads)
    {
      registry.Detach(font);
      Reshade(t);
      registry.Attach(font);
    }

    /** Lays `t` out with the bound atlas, keeping the atlas cache consistent. */
    method Reshade(t: string)
      requires shader.Valid() && font != null && fontAtlas != null
      requires fontString in shader.atlas && shader.atlas[fontString] == fontAtlas
      requires font.Valid(registry.measure, registry.kern) && fontAtlas.Valid() && fontAtlas.fontString == fontString
      modifies this`text, this`count, this`charIds, this`sizeData, this`textWidth, this`alignOffset
      modifies fontAtlas, font
      ensures shader.Valid() && font.Valid(registry.measure, registry.kern)
      ensures text == t && Shown() && LaidOut()
      ensures Grown(old(fontAtlas.chars), old(fontAtlas.ids).Keys, old(fontAtlas.uploads), t, fontAtlas.chars, fontAtlas.uploads)
      ensures Learned(old(font.width).Keys, old(font.requests), kerning, t, font.width.Keys, font.requests)
      ensures font.measured == old(font.measured) + Unseen(old(font.width).Keys, t)
      ensures forall k :: k in shader.atlas ==> old(shader.atlas[k].chars) <= shader.atlas[k].chars
      ensures forall k :: k in shader.atlas && shader.atlas[k] != fontAtlas ==>
        shader.atlas[k].chars == old(shader.atlas[k].chars) && shader.atlas[k].ids == old(shader.atlas[k].ids)
        && shader.atlas[k].uploads == old(shader.atlas[k].uploads)
    {
      shader.Detach(fontAtlas);
      Relayout(t);
      shader.Attach(fontAtlas);
    }

    /** Fills the buffers for the current text and recomputes the width and alignment offset. */
    method Fill()
      requires font != null && fontAtlas != null
      requires Slotted(text, fontAtlas.ids) && Measured(text, font.width)
      modifies this`charIds, this`sizeData, this`textWidth, this`alignOffset
      ensures LaidOut() && alignOffset == AlignOffset(align, textWidth)
    {
      var ids, sd, tw := FillBuffers(text, fontAtlas.ids, font.width, font.kerning, kerning);
      charIds := ids[..];
      sizeData := sd[..];
      textWidth := tw;
      alignOffset := AlignOffset(align, textWidth);
    }

    /**
     * The last part of an update: a truthy alignment replaces the current one; a baseline
     * given, or the default 0 while there is none, replaces the current one and its offset.
     */
    method Place(o: Options)
      requires registry.Valid() && shader.Valid() && Bound() && Shown()
      modifies this`align, this`alignOffset, this`baseline, this`baselineOffset
      ensures Valid()
      ensures align == (if o.align.Some? && Truthy(o.align.value) then o.align.value else old(align))
      ensures o.align.Some? && Truthy(o.align.value) ==> alignOffset == AlignOffset(align, textWidth)
      ensures !(o.align.Some? && Truthy(o.align.value)) ==> alignOffset == old(alignOffset)
      ensures baseline == (if o.baseline.Some? then o.baseline
                           else if old(baseline).None? then Some(BaselineAt(0.0)) else old(baseline))
      ensures o.baseline.Some? || old(baseline).None? ==>
        baselineOffset == BaselineOffset(font.metrics, baseline.value, normalViewport)
      ensures o.baseline.None? && old(baseline).Some? ==> baselineOffset == old(baselineOffset)
      ensures registry.fonts == old(registry.fonts) && shader.atlas == old(shader.atlas)
      ensures text == old(text) && charIds == old(charIds) && sizeData == old(sizeData) && textWidth == old(textWidth)
      ensures kerning == old(kerning) && font == old(font) && fontSize == old(fontSize)
      ensures fontString == old(fontString) && fontAtlas == old(fontAtlas)
      ensures font.width == old(font.width) && font.kerning == old(font.kerning) && font.requests == old(font.requests)
      ensures fontAtlas.ids == old(fontAtlas.ids)
      ensures forall k :: k in registry.fonts ==>
        registry.fonts[k].width == old(registry.fonts[k].width) && registry.fonts[k].kerning == old(registry.fonts[k].kerning)
        && registry.fonts[k].requests == old(registry.fonts[k].requests)
      ensures forall k :: k in shader.atlas ==>
        shader.atlas[k].chars == old(shader.atlas[k].chars) && shader.atlas[k].ids == old(shader.atlas[k].ids)
        && shader.atlas[k].uploads == old(shader.atlas[k].uploads)
    {
      if o.align.Some? && Truthy(o.align.value) {
        align := o.align.value;
        alignOffset := AlignOffset(align, textWidth);
      }
      var b := o.baseline;
      if baseline.None? && b.None? {
        b := Some(BaselineAt(0.0));
      }
      if b.Some? {
        baseline := b;
        baselineOffset := BaselineOffset(font.metrics, b.value, normalViewport);
      }
    }

    /**
     * The font, size and atlas options of an update, and the relayout they call for; the
     * alignment and baseline are left to `Place`.
     */
    method Rebind(o: Options)
      requires Valid() || (Blank() && registry.Valid() && shader.Valid())
      modifies this`kerning, this`font, this`fontSize, this`fontString, this`fontAtlas
      modifies this`text, this`count, this`charIds, this`sizeData, this`textWidth, this`alignOffset
      modifies registry, shader, registry.fonts.Values, shader.atlas.Values
      ensures registry.Valid() && shader.Valid() && Bound() && Shown()
      ensures forall k :: k in old(registry.fonts) ==> k in registry.fonts && registry.fonts[k] == old(registry.fonts[k])
      ensures forall k :: k in old(shader.atlas) ==> k in shader.atlas && shader.atlas[k] == old(shader.atlas[k])
      ensures kerning == o.kerning.GetOr(old(kerning))
      ensures fontSize == old(NextSize(o))
      ensures old(SwitchesFont(o)) ==> font.baseString == registry.BaseString(old(FontOption(o)).value)
      ensures !old(SwitchesFont(o)) ==> font == old(font)
      ensures old(Relays(o)) ==> text == o.text.GetOr(old(text)) && LaidOut()
      ensures !old(Relays(o)) ==>
        && text == old(text) && charIds == old(charIds) && sizeData == old(sizeData) && textWidth == old(textWidth)
        && fontString == old(fontString) && fontAtlas == old(fontAtlas)
      ensures align == old(align) && baseline == old(baseline) && baselineOffset == old(baselineOffset)
      ensures forall k :: k in old(shader.atlas) ==> old(shader.atlas[k].chars) <= shader.atlas[k].chars
      ensures forall k :: k in old(shader.atlas) && shader.atlas[k] != fontAtlas ==>
        shader.atlas[k].chars == old(shader.atlas[k].chars) && shader.atlas[k].ids == old(shader.atlas[k].ids)
        && shader.atlas[k].uploads == old(shader.atlas[k].uploads)
      ensures !old(Relays(o)) ==> fontAtlas.chars == old(fontAtlas.chars) && fontAtlas.uploads == old(fontAtlas.uploads)
      ensures old(Relays(o)) ==> forall k :: k in old(shader.atlas) && shader.atlas[k] == fontAtlas ==>
        Grown(old(shader.atlas[k].chars), old(shader.atlas[k].ids).Keys, old(shader.atlas[k].uploads), text,
              fontAtlas.chars, fontAtlas.uploads)
      ensures old(Relays(o)) && fresh(fontAtlas) ==> Grown([], {}, 0, text, fontAtlas.chars, fontAtlas.uploads)
      ensures fontAtlas in old(shader.atlas.Values) || fresh(fontAtlas)
      ensures forall k :: k in old(registry.fonts) ==> old(registry.fonts[k].width).Keys <= registry.fonts[k].width.Keys
      ensures forall k :: k in old(registry.fonts) && registry.fonts[k] != font ==>
        registry.fonts[k].width == old(registry.fonts[k].width) && registry.fonts[k].kerning == old(registry.fonts[k].kerning)
      ensures old(Relays(o)) ==> forall k :: k in old(registry.fonts) && registry.fonts[k] == font ==>
        Learned(old(registry.fonts[k].width).Keys, old(registry.fonts[k].requests), kerning, text,
                font.width.Keys, font.requests)
      ensures old(Relays(o)) && fresh(font) ==> Learned({}, [], kerning, text, font.width.Keys, font.requests)
      ensures font in old(registry.fonts.Values) || fresh(font)
      ensures !old(Relays(o)) ==>
        font.width == old(font.width) && font.kerning == old(font.kerning) && font.requests == old(font.requests)
    {
      var t := o.text.GetOr(text);
      var relay := Retarget(o);
      if relay {
        assert fresh(fontAtlas) ==> fontAtlas.ids.Keys == {};
        assert fresh(font) ==> font.width.Keys == {};
        Refresh(t);
      } else {
        assert font == old(font);
      }
    }

    /**
     * `GlText.prototype.update` on parsed options: kerning flag, font and size, atlas, layout
     * (when the text, the font entry or the size changes), alignment and baseline.
     */
    method Update(o: Options)
      requires Valid() || (Blank() && registry.Valid() && shader.Valid())
      modifies this, registry, shader, registry.fonts.Values, shader.atlas.Values
      ensures Valid()
      ensures forall k :: k in old(registry.fonts) ==> k in registry.fonts && registry.fonts[k] == old(registry.fonts[k])
      ensures forall k :: k in old(shader.atlas) ==> k in shader.atlas && shader.atlas[k] == old(shader.atlas[k])
      ensures kerning == o.kerning.GetOr(old(kerning))
      ensures fontSize == old(NextSize(o))
      ensures old(SwitchesFont(o)) ==> font.baseString == registry.BaseString(old(FontOption(o)).value)
      ensures !old(SwitchesFont(o)) ==> font == old(font)
      ensures old(Relays(o)) ==> text == o.text.GetOr(old(text)) && LaidOut()
      ensures !old(Relays(o)) ==>
        && text == old(text) && charIds == old(charIds) && sizeData == old(sizeData) && textWidth == old(textWidth)
        && fontString == old(fontString) && fontAtlas == old(fontAtlas)
      ensures align == (if o.align.Some? && Truthy(o.align.value) then o.align.value else old(align))
      ensures baseline == (if o.baseline.Some? then o.baseline
                           else if old(baseline).None? then Some(BaselineAt(0.0)) else old(baseline))
      ensures o.baseline.Some? || old(baseline).None? ==>
        baselineOffset == BaselineOffset(font.metrics, baseline.value, normalViewport)
      ensures o.baseline.None? && old(baseline).Some? ==> baselineOffset == old(baselineOffset)
      ensures forall k :: k in old(shader.atlas) ==> old(shader.atlas[k].chars) <= shader.atlas[k].chars
      ensures forall k :: k in old(shader.atlas) && shader.atlas[k] != fontAtlas ==>
        shader.atlas[k].chars == old(shader.atlas[k].chars) && shader.atlas[k].ids == old(shader.atlas[k].ids)
        && shader.atlas[k].uploads == old(shader.atlas[k].uploads)
      ensures !old(Relays(o)) ==> fontAtlas.chars == old(fontAtlas.chars) && fontAtlas.uploads == old(fontAtlas.uploads)
      ensures old(Relays(o)) ==> forall k :: k in old(shader.atlas) && shader.atlas[k] == fontAtlas ==>
        Grown(old(shader.atlas[k].chars), old(shader.atlas[k].ids).Keys, old(shader.atlas[k].uploads), text,
              fontAtlas.chars, fontAtlas.uploads)
      ensures old(Relays(o)) && fresh(fontAtlas) ==> Grown([], {}, 0, text, fontAtlas.chars, fontAtlas.uploads)
      ensures fontAtlas in old(shader.atlas.Values) || fresh(fontAtlas)
      ensures forall k :: k in old(registry.fonts) ==> old(registry.fonts[k].width).Keys <= registry.fonts[k].width.Keys
      ensures forall k :: k in old(registry.fonts) && registry.fonts[k] != font ==>
        registry.fonts[k].width == old(registry.fonts[k].width) && registry.fonts[k].kerning == old(registry.fonts[k].kerning)
      ensures old(Relays(o)) ==> forall k :: k in old(registry.fonts) && registry.fonts[k] == font ==>
        Learned(old(registry.fonts[k].width).Keys, old(registry.fonts[k].requests), kerning, text,
                font.width.Keys, font.requests)
      ensures old(Relays(o)) && fresh(font) ==> Learned({}, [], kerning, text, font.width.Keys, font.requests)
      ensures font in old(registry.fonts.Values) || fresh(font)
      ensures !old(Relays(o)) ==>
        font.width == old(font.width) && font.kerning == old(font.kerning) && font.requests == old(font.requests)
    {
      Rebind(o);
      Place(o);
    }
  }
}
