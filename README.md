# gl-text: glyph atlas, font cache and text layout

This project models, in Dafny, the core of `GlText`, a WebGL text label. Its
`update` operation:

- resolves the label's font to an entry of the process-wide font registry
  `GlText.fonts`, which caches per-character advance widths and kerning pairs;
- resolves the font string at the current pixel size to a glyph atlas in the atlas
  cache of the GL context;
- gives every character of the text a slot in that atlas, and measures the widths and
  kerning of characters the font entry has not seen;
- lays the text out into a byte buffer of atlas slots and an interleaved
  `[width, offset, ...]` buffer;
- computes the text width and the alignment offset;
- repacks the atlas grid when it gained characters;
- computes the baseline offset.

The model also covers:

- the static constants `maxAtlasSize` (1024), `baseFontSize` (64),
  `normalViewport` and `fonts`;
- the conversion of a data range into scale and translate;
- the viewport flip for top-down coordinates;
- the padding (`offset`) option;
- the standalone `alignOffset` function.

The modules:

- `Common`: shared values. These are an option type; `Scalar`, a JavaScript number that
  may be NaN or infinite; and `Byte`, an element of a `Uint8Array`.
- `TextLayout`: the offset recurrence as a specification function, proved equal to a
  closed form, and `FillBuffers`, the buffer-filling loop over arrays proved against it.
- `Placement`: the alignment, baseline, padding, range and viewport arithmetic.
- `FontRegistry`: `FontEntry` is a class whose width and kerning caches are updated in
  place. `Registry` is the map of entries with the measuring, kerning, metrics and
  font-string services it uses.
- `GlyphAtlas`: the packing function. `Atlas` is a class whose slot table and geometry
  are updated in place. `Shader` is the atlas cache.
- `Label`: the `GlText` class and its `Update`, split into its phases. The phases are
  retarget (font and size), refresh (measure, fill, repack) and place (alignment and
  baseline).

Widths are exact reals in em units. A kerning value is added as that value times 0.001
em, whatever the font size (`dist.js:364`); `TextLayout.ScenarioWithKerning` states it.

## Model

| member | source | states |
|---|---|---|
| Common.ToUint8 | dist.js:346-352 | A slot id written into the `Uint8Array` is kept below 256. It is unchanged when below 256, and otherwise congruent to the id modulo 256. |
| TextLayout.KernAdjust | dist.js:361-366 | Without a stored pair the shift is 0. With one, the shift is the stored per-mille value divided by 1000. |
| TextLayout.Offset | dist.js:355-373 | Definition, no contract of its own: the first centre is half the first width; each next centre adds half the previous width, half its own and the kerning shift between the two. `OffsetClosedForm` states its value. |
| TextLayout.TextWidth | dist.js:375-379 | Definition, no contract of its own: 0 for empty text, otherwise the last centre plus half the last width. `TextWidthClosedForm` states its value. |
| TextLayout.OffsetClosedForm | dist.js:348-373 | The centre of character `i` lies at the sum of the widths before it, plus half its own width, plus the kerning shifts so far. |
| TextLayout.TextWidthClosedForm | dist.js:375-379 | The text width is 0 for empty text. Otherwise it is the sum of all advance widths plus all kerning shifts. |
| TextLayout.TextWidthWithoutKerning | dist.js:355-379 | With kerning off, the text width is the sum of the advance widths. It is non-negative when the widths are. |
| TextLayout.OffsetsNonDecreasing | dist.js:355-359 | Without kerning and with non-negative widths, character centres never move left along the text. |
| TextLayout.OffsetPrefixStable | dist.js:348-369 | Appending characters leaves the centres of the earlier characters unchanged, so the pass is left to right. |
| TextLayout.FillBuffers | dist.js:343-379 | The loop fills the buffers with the specified layout, each offset computed from the previous buffer entries. The byte buffer holds each character's slot truncated to a byte. The size buffer holds each character's width at `2i` and its centre offset at `2i+1`. The returned width is the text width. |
| TextLayout.ScenarioWithoutKerning | dist.js:348-379 | "AB" with widths 10 and 8 and no kerning has centres 5 and 14 and width 18. |
| TextLayout.ScenarioWithKerning | dist.js:361-366 | The pair "AB" at -50 per mille moves B left by 0.05 em, giving width 17.95. |
| Placement.AlignOffset | dist.js:478-490 | A numeric alignment is used as given. `right`/`end` put the right edge on the anchor and `center`/`centre`/`middle` the middle. Any other keyword, or no alignment, gives 0. |
| Placement.AnchorWithinText | dist.js:478-490 | For every keyword alignment, the anchor lies within the horizontal extent of a text of non-negative width. |
| Placement.BaselineOffset | dist.js:426-439 | The offset is finite exactly when the baseline is numeric or names a metric the font defines. An unknown metric name gives NaN. |
| Placement.BaselineConventionsOpposite | dist.js:437 | The top-down and WebGL y-axis conventions give baseline offsets of opposite sign. They give NaN in the same cases. |
| Placement.DefaultBaselineIsAlphabetic | dist.js:422-436 | The default numeric baseline 0 places the text exactly as the `baseline` metric does. |
| Placement.NumericBaselineShift | dist.js:431-437 | A numeric baseline `v` shifts the glyphs by `v` em from the alphabetic baseline. The offset grows by `v` in top-down coordinates and shrinks by `v` in WebGL coordinates, the same move on screen. |
| Placement.NamedBaselinesApart | dist.js:431-437 | Two metric-named baselines are both finite, and their offsets differ by the difference of their metrics. The metric with the larger value, lower in the glyph box, gives the smaller offset in top-down coordinates and the larger one in WebGL coordinates. On screen the text is drawn higher by that difference in both. |
| Placement.PaddingOffset | dist.js:167-174 | A number pads horizontally only. A pair pads in both axes, with the vertical part negated in WebGL coordinates. |
| Placement.VerticalConventionShared | dist.js:171-173 | Switching the y-axis convention negates the vertical padding just as it negates the baseline offset. |
| Placement.Reciprocal | dist.js:182 | `1 / d` is finite exactly when `d` is non-zero, and is then its inverse. |
| Placement.RangeTransform | dist.js:180-184 | The transform maps `x0` and `y0` to 0 and `x1` and `y1` to 1. An axis with an empty extent gets an infinite scale. |
| Placement.DefaultTransform | dist.js:188-191 | Without scale or translate, the viewport's width and height map to 1, with no translation. |
| Placement.FlipViewport | dist.js:146-155 | In top-down mode, the viewport's distance from the canvas top becomes its bottom edge's distance from the canvas bottom. The x position and the size are kept. In WebGL mode the viewport is unchanged. |
| Placement.FlipViewportInvolution | dist.js:149-151 | Flipping twice on the same canvas gives back the original viewport. |
| FontRegistry.FontStyle | dist.js:253 | Definition, no contract of its own: the style string handed to the metrics source is style, variant, weight and stretch joined by single spaces. |
| FontRegistry.PairsWith | dist.js:331-335 | The kerning pairs requested for a new character are exactly both orders of it with every measured character, itself included. |
| FontRegistry.Unseen | dist.js:318-325 | Definition, no contract of its own: the characters of a text without a slot, each once, in first-occurrence order. `UnseenMembers`, `UnseenDistinct` and `UnseenInFirstOccurrenceOrder` state its properties. |
| FontRegistry.Requests | dist.js:327-339 | Definition, no contract of its own: one kerning request per newly measured character, in text order. `RequestsExactlyNewPairs` states what they cover. |
| FontRegistry.Merged | dist.js:336 | Definition, no contract of its own: the kerning table after the requests, each answer extending the table and overriding earlier values for the same pair. `MergedAppend` states one more request. |
| FontRegistry.UnseenMembers | dist.js:318-325 | A character is newly slotted in a pass exactly when it occurs in the text and had no slot. |
| FontRegistry.UnseenDistinct | dist.js:318-325 | Each newly slotted character is listed once. |
| FontRegistry.UnseenInFirstOccurrenceOrder | dist.js:318-325 | Newly slotted characters are listed in the order of their first occurrence in the text. |
| FontRegistry.RequestsExactlyNewPairs | dist.js:327-339 | Together, the kerning requests of a pass cover exactly the ordered pairs of measured characters that involve a character measured in that pass. |
| FontRegistry.FontEntry.constructor | dist.js:233-255 | A new entry carries the font's typeface fields and metrics, with empty width and kerning caches. |
| FontRegistry.FontEntry.MeasureChar | dist.js:327-340 | An unmeasured character gets its width at the base size divided by 64, and with kerning on its pairs are requested and merged into the table. A measured character changes nothing. The entry's caches stay consistent with the services. |
| FontRegistry.Registry.constructor | dist.js:472 | The registry starts empty and consistent. |
| FontRegistry.Registry.Resolve | dist.js:226-258 | Returns the entry registered under the base string, or creates, registers and returns an empty one with the family's metrics. Other entries are untouched. |
| FontRegistry.Registry.BaseString | dist.js:209-217 | Definition, no contract of its own: the registry key is the font string of the font at the base size of 64 pixels. |
| GlyphAtlas.CellStep | dist.js:291 | The cell step is the smallest even pixel count that covers the glyph box. |
| GlyphAtlas.Pack | dist.js:388-404 | Cells are packed row-major into as many columns as fit in 1024 pixels, or all of them when they fit, and as few rows as hold them all. A cell wider than 1024 gives no column and an infinite row count. |
| GlyphAtlas.CellInsideAtlas | dist.js:390-398 | Every slot's cell, at column `id % cols` and row `id / cols`, lies wholly inside the atlas texture. |
| GlyphAtlas.SlotTableDistinct | dist.js:318-325 | The atlas lists each character once, and exactly the characters that have a slot. |
| GlyphAtlas.ByteIdsExact | dist.js:346-352 | Up to 256 slots, the byte-sized character ids are the slots themselves, so distinct characters get distinct ids. |
| GlyphAtlas.ByteIdsWrap | dist.js:346-352 | Beyond 256 slots, the byte ids wrap: the 257th character gets the same id as the first. |
| GlyphAtlas.ScenarioTwentyCells | dist.js:390-398 | 20 cells of 64 pixels pack into 16 columns and 2 rows of a 1024 by 128 texture. |
| GlyphAtlas.Atlas.constructor | dist.js:285-301 | A new atlas has no characters, the empty geometry, and the cell step for its pixel size. |
| GlyphAtlas.Atlas.AssignSlot | dist.js:321-325 | A character without a slot gets the next one and is appended. A character with a slot keeps it. No other slot changes. |
| GlyphAtlas.Atlas.Repack | dist.js:388-414 | The geometry becomes the packing of all current characters, and one texture is uploaded, rasterised from them. |
| GlyphAtlas.Shader.constructor | dist.js:97-100 | The atlas cache starts empty. |
| GlyphAtlas.Shader.Resolve | dist.js:282-301 | Returns the cached atlas for the font string, or creates, caches and returns an empty one. Other atlases are untouched. |
| Label.MeasureStep | dist.js:318-341 | One character gets a slot unless it has one, and a width (and kerning) unless measured. It reports whether it was slotted. |
| Label.MeasurePass | dist.js:313-341 | After the pass every character of the text has a slot and a width. The new atlas characters are exactly the previously unslotted ones, in first-occurrence order, appended to the atlas. The measured characters and kerning requests are those of the newly seen characters. |
| Label.Truthy | dist.js:417 | Definition, no contract of its own: an alignment replaces the current one unless it is the number 0 or the empty name. |
| Label.GlText.FontStringOf | dist.js:272-280 | Definition, no contract of its own: the atlas key is the entry's typeface at the label's pixel size, stringified. |
| Label.GlText.FontOption | dist.js:193 | Definition, no contract of its own: a label without a font that is given none takes the default 64px sans-serif. |
| Label.GlText.SwitchesFont | dist.js:218-227 | Definition, no contract of its own: a font option moves the label to another entry when it has none or the base strings differ. |
| Label.GlText.NextSize | dist.js:219-270 | Definition, no contract of its own: the size option wins, then the font option's size, then the current size. |
| Label.GlText.ChangesSize | dist.js:219-270 | Definition, no contract of its own: the font option's size differs from the current one, or the size option differs from the size after the font option. `SizeKeptWithoutChange` and `SizeChangeWithoutNetChange` state how it relates to `NextSize`. |
| Label.GlText.SizeKeptWithoutChange | dist.js:219-270 | When no size change is reported, the update keeps the pixel size. |
| Label.GlText.SizeChangeWithoutNetChange | dist.js:219-270 | The converse fails. A font option at 32px followed by a size option back at the current 64px reports a size change, and so a new atlas lookup and a relayout, while the size ends where it was. |
| Label.GlText.Relays | dist.js:272-308 | Definition, no contract of its own: the text is laid out again when it is given, the entry switches or the size changes. |
| Label.GlText.constructor | dist.js:105-113 | A new label is consistent after its first update, which starts with kerning on, no font and empty text. The kerning flag, text and layout are those of the options. The font entry is that of the given font, or of the default 64px sans-serif. The size comes from the size option, else the font. Alignment is the truthy option, else unset. The baseline is the given one, else 0, with its offset. The atlas is the cached one, grown by the text's unslotted characters with one upload if it grew; a fresh atlas holds exactly the text's distinct characters. The entry is its cached state plus exactly the widths and, with kerning on, the kerning requests of the text's new characters; a fresh entry measures exactly the text's distinct characters. Registry entries only gain widths, and entries and atlases other than the label's are untouched. |
| Label.GlText.LookUpFont | dist.js:193-270 | A label without a font takes the default 64px sans-serif. The size is taken from the font, then from the size option. Each change is reported exactly when it happens. The registry gains an entry only when the base string differs from the current entry's; otherwise it is unchanged. A new entry has no widths and no kerning requests. |
| Label.GlText.ApplyFontOptions | dist.js:165-270 | Sets the kerning flag when given, then moves the label to the looked-up entry and size. The registry is unchanged unless the entry switches; a new entry has no widths and no kerning requests. The buffers, text, atlas and placement are unchanged. |
| Label.GlText.SelectAtlas | dist.js:272-301 | The font string becomes that of the entry at the pixel size, and the atlas becomes the cached one for it, or a new empty one. |
| Label.GlText.Retarget | dist.js:193-305 | Reports that the text must be laid out again exactly when the text is given, the entry changes or the size changes. The atlas is re-selected only on an entry or size change. The registry is unchanged unless the entry switches; a new entry has no widths and no kerning requests. Every registry entry keeps its widths, kerning table and requests, and every cached atlas keeps its contents. |
| Label.GlText.Measure | dist.js:308-341 | The text becomes `t`, and every character has a slot and a width. The atlas characters grow by exactly the unslotted characters of `t`, in first-occurrence order. The entry's measured characters grow by exactly those of `t`. With kerning on, its kerning requests grow by one per newly measured character, naming its pairs with every character measured so far, itself included; with kerning off they are unchanged. It reports growth exactly when the atlas gained characters. |
| Label.GlText.Relayout | dist.js:308-415 | Afterwards the buffers and width are the layout of `t` and the alignment offset matches. The atlas gains exactly the unslotted characters of `t`, and one texture upload happens exactly when it grew. The entry gains exactly the widths of the characters of `t`, and with kerning on exactly the kerning requests of the newly measured ones. |
| Label.GlText.Lay | dist.js:308-385 | Measures `t` and fills the buffers: afterwards they are the layout of `t`. The atlas gains exactly the unslotted characters of `t`. The entry gains exactly the widths of the characters of `t`, and with kerning on the kerning requests of the newly measured ones. It reports growth exactly when the atlas gained characters. |
| Label.GlText.Refresh | dist.js:308-415 | Lays `t` out while keeping every registry entry and cached atlas consistent, and the label bound to them. The atlas gains exactly the unslotted characters of `t`, with one upload exactly when it grew. The label's entry gains exactly the widths and, with kerning on, the kerning requests of the text's new characters. Every other cached atlas and registry entry is untouched, and every entry only gains widths. |
| Label.GlText.Reshade | dist.js:308-415 | The same layout with the label's atlas, keeping the atlas cache consistent: the atlas gains exactly the unslotted characters of `t`, one upload exactly when it grew, and every other cached atlas is untouched. The entry gains exactly the widths and kerning requests of the text's new characters. |
| Label.GlText.Fill | dist.js:343-380 | The buffers and text width are the layout of the current text, and the alignment offset is recomputed from them. |
| Label.GlText.Place | dist.js:417-439 | A truthy alignment replaces the current one and recomputes its offset. A given baseline, or 0 while none is set, replaces the baseline and recomputes its offset. Nothing else changes, including every registry entry and cached atlas. |
| Label.GlText.Rebind | dist.js:165-415 | The font, size and atlas part of an update. The text is laid out again exactly when it is given or the entry or size changes; otherwise text, buffers and atlas contents are unchanged. On a relayout the label's atlas is its cached state grown by exactly the text's unslotted characters, with one upload exactly when it grew; a fresh atlas holds exactly the text's distinct characters. Every cached atlas only gains slots, and atlases other than the label's are untouched. On a relayout the label's entry is its cached state plus exactly the widths and, with kerning on, the kerning requests of the text's new characters; a fresh entry measures exactly the text's distinct characters. Without a relayout the entry's widths, kerning table and requests are unchanged. Every registry entry only gains widths, and entries other than the label's are untouched. |
| Label.GlText.Update | dist.js:116-440 | Afterwards the label is consistent. The kerning flag, entry, size, alignment and baseline follow the options. The text is laid out again exactly when it is given or the entry or size changes; otherwise text, buffers, atlas and its contents are unchanged. On a relayout the label's atlas is its cached state grown by exactly the text's unslotted characters, with one upload exactly when it grew; a fresh atlas holds exactly the text's distinct characters. On a relayout the label's entry is its cached state plus exactly the widths and, with kerning on, the kerning requests of the text's new characters; a fresh entry measures exactly the text's distinct characters. Without a relayout the entry's widths, kerning table and requests are unchanged. Existing registry entries and atlases are never replaced. Every cached atlas keeps its slots and every entry its widths, and those other than the label's are untouched. |

## Left out

- Rendering is not modelled: the regl context, the shaders, draw calls, buffer uploads, color and opacity. They are GPU I/O.
- The texture is an abstract record of its rasterisation inputs (font string, characters, size, step). Rasterisation itself is canvas I/O.
- Option parsing is not modelled: alias picking, CSS font and unit parsing, and `Math.round`. `Options` holds already-parsed values.
- A falsy `fontSize` option (a numeric 0 or an empty string) is taken to arrive as `None`.
- Falsy `align` values (0, the empty string) are modelled by `Truthy`. Any other value replaces the alignment.
- Font metrics are assumed to always define `bottom` and `baseline`, with `bottom` non-negative (the `Metrics` type that `Registry.metricsOf` returns). The source uses whatever the metrics library returns (`dist.js:250-254`). The cell step being a pixel count, and so the packing bounds, rest on this.
- The measuring canvas, the kerning detector, the metrics source and the font stringifier are function-valued parameters of `Registry`. They are outside this code.
- The state kept for drawing only is not modelled: viewport, position, direction, scale, translate and `viewportArray`. Their arithmetic is modelled as functions (`FlipViewport`, `RangeTransform`, `DefaultTransform`, `PaddingOffset`).
- `Placement.PaddingOffset` returns a new pair; it does not model the in-place negation of a caller-supplied `offset` array, which aliases the caller's array.
- The typed-array pool, and freeing its buffers, is memory management with no observable effect.
- `destroy` is empty in the source.
- The LRU limit on cached atlases is disabled in the source, so atlases are never evicted.
- Widths and offsets are exact reals. Float32 rounding in the size buffer is not modelled.
- Characters are `char` values. The source indexes UTF-16 code units, so a character outside the BMP is two units there.
- `FontRegistry.PairsWith` models the kerning pairs requested for a character as a set. The source builds a list (`dist.js:332-335`) in which the character paired with itself appears twice, because the character's own width is already stored. The model assumes that the kerning detector's answer depends on neither the order nor the repetition of the pairs.
- Label.GlText.ApplyFontOptions: the source writes `fontSize` before the registry lookup. The model writes the kerning flag, entry and size together afterwards; nothing between the two reads them.
- The shader cache keyed by GL context (a `WeakMap`) is modelled as one `Shader` object passed to the label.
- `index.js` and `test.js` are not part of this model.
