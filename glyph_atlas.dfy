/**
 * The glyph atlases `shader.atlas`: one per font string (typeface and pixel size), each
 * holding the characters given a slot so far, in slot order, the inverse table from
 * character to slot, and the row-major grid into which their glyph cells are packed.
 */
module GlyphAtlas {
  import opened Common

  /** The largest width, in pixels, an atlas row may take. */
  const MaxAtlasSize: nat := 1024

  /** A pixel or cell count that may be `Infinity` in the source's arithmetic. */
  datatype Extent = Bounded(n: nat) | Unbounded

  /** Atlas grid geometry: columns and rows of cells, and the texture size in pixels. */
  datatype Grid = Grid(cols: nat, rows: Extent, width: nat, height: Extent)

  /** The empty geometry of an atlas that has no characters yet. */
  const EmptyGrid := Grid(0, Bounded(0), 0, Bounded(0))

  function Ceil(x: real): (n: int)
    ensures n as real >= x && (n as real) - 1.0 < x
  {
    var f := x.Floor;
    if f as real == x then f else f + 1
  }

  /**
   * The cell size of an atlas for `fontSize` pixels: the smallest even number of pixels
   * that covers the glyph box, whose height is `bottom` em.
   */
  function CellStep(fontSize: nat, bottom: real): (step: nat)
    requires bottom >= 0.0
    ensures step % 2 == 0
    ensures step as real >= fontSize as real * bottom
    ensures step as real - 2.0 < fontSize as real * bottom
  {
    2 * Ceil(fontSize as real * bottom * 0.5)
  }

  lemma CeilDivision(count: nat, cols: nat)
    requires 0 < cols
    ensures cols * ((count + cols - 1) / cols) >= count
    ensures cols * ((count + cols - 1) / cols - 1) < count
  {
    var q := (count + cols - 1) / cols;
    var r := (count + cols - 1) % cols;
    assert count + cols - 1 == cols * q + r;
    assert cols * (q - 1) == cols * q - cols;
  }

  lemma FloorDivision(step: nat)
    requires 0 < step
    ensures (MaxAtlasSize / step) * step <= MaxAtlasSize < (MaxAtlasSize / step + 1) * step
  {
    var q := MaxAtlasSize / step;
    assert MaxAtlasSize == q * step + MaxAtlasSize % step;
    assert (q + 1) * step == q * step + step;
  }

  lemma MulMonotone(a: nat, b: nat, step: nat)
    requires a <= b
    ensures a * step <= b * step
  {
  }

  /** Columns no more than the atlas holds fit in its width; one column more than that does not. */
  lemma ColumnsFit(step: nat, maxCols: nat, cols: nat)
    requires 0 < step && maxCols == MaxAtlasSize / step && cols <= maxCols
    ensures cols * step <= MaxAtlasSize
    ensures cols == maxCols ==> (cols + 1) * step > MaxAtlasSize
  {
    FloorDivision(step);
    MulMonotone(cols, maxCols, step);
  }

  /**
   * Row-major packing of `count` cells of `step` pixels: as many columns as fit in
   * `MaxAtlasSize` (all cells in one row when they fit), and as few rows as hold them all.
   * A cell wider than `MaxAtlasSize` leaves no column, and the row count is then infinite.
   */
  function Pack(step: nat, count: nat): (g: Grid)
    requires count > 0
    ensures g.rows.Unbounded? <==> step > MaxAtlasSize
    ensures g.rows.Unbounded? ==> g.cols == 0 && g.width == 0 && g.height == Unbounded
    ensures g.rows.Bounded? ==> 0 < g.cols <= count
    ensures g.rows.Bounded? ==> g.cols * g.rows.n >= count && g.cols * (g.rows.n - 1) < count
    ensures g.rows.Bounded? ==> g.width == g.cols * step && g.width <= MaxAtlasSize
    ensures g.rows.Bounded? ==> g.height == Bounded(g.rows.n * step)
    ensures g.rows.Bounded? ==> g.cols == count || (g.cols + 1) * step > MaxAtlasSize
  {
    if step == 0 then
      // MaxAtlasSize / 0 is Infinity, so every cell goes into one row of width 0
      Grid(count, Bounded(1), 0, Bounded(0))
    else
      var maxCols := MaxAtlasSize / step;
      FloorDivision(step);
      if maxCols == 0 then
        Grid(0, Unbounded, 0, Unbounded)
      else
        var cols := if maxCols < count then maxCols else count;
        var rows := (count + cols - 1) / cols;
        CeilDivision(count, cols);
        ColumnsFit(step, maxCols, cols);
        Grid(cols, Bounded(rows), cols * step, Bounded(rows * step))
  }

  /**
   * Slot `id` is drawn from the cell at column `id % cols`, row `id / cols`; for every slot
   * of a bounded atlas that cell lies wholly inside the atlas texture.
   */
  lemma CellInsideAtlas(step: nat, count: nat, id: nat)
    requires id < count && Pack(step, count).rows.Bounded?
    ensures var g := Pack(step, count);
      (id % g.cols) * step + step <= g.width && (id / g.cols) * step + step <= g.height.n
  {
    var g := Pack(step, count);
    var cols, rows := g.cols, g.rows.n;
    RowWithinGrid(id, cols, rows);
    var col, row := id % cols, id / cols;
    MulMonotone(col + 1, cols, step);
    MulMonotone(row + 1, rows, step);
    assert (col + 1) * step == col * step + step;
    assert (row + 1) * step == row * step + step;
  }

  lemma RowWithinGrid(id: nat, cols: nat, rows: nat)
    requires 0 < cols && id < cols * rows
    ensures id % cols < cols && id / cols < rows
  {
    var row := id / cols;
    assert id == cols * row + id % cols;
  }

  /** `chars` lists the characters in slot order and `ids` maps each back to its slot. */
  predicate SlotTable(chars: seq<char>, ids: map<char, nat>)
  {
    && (forall k :: 0 <= k < |chars| ==> chars[k] in ids && ids[chars[k]] == k)
    && (forall c :: c in ids ==> ids[c] < |chars| && chars[ids[c]] == c)
  }

  /** A slot table holds each character once, and exactly the characters it lists. */
  lemma SlotTableDistinct(chars: seq<char>, ids: map<char, nat>)
    requires SlotTable(chars, ids)
    ensures Distinct(chars) && ids.Keys == CharsOf(chars)
  {
  }

  /**
   * While an atlas has at most 256 slots the byte-sized character ids are the slots
   * themselves, so distinct characters get distinct ids.
   */
  lemma ByteIdsExact(chars: seq<char>, ids: map<char, nat>)
    requires SlotTable(chars, ids) && |chars| <= 256
    ensures forall c :: c in ids ==> ToUint8(ids[c]) as int == ids[c]
    ensures forall a, b :: a in ids && b in ids && a != b ==> ToUint8(ids[a]) != ToUint8(ids[b])
  {
  }

  /** Beyond 256 slots the byte-sized ids wrap: the 257th character is drawn as the first. */
  lemma ByteIdsWrap(chars: seq<char>, ids: map<char, nat>)
    requires SlotTable(chars, ids) && |chars| > 256
    ensures chars[256] != chars[0] && ToUint8(ids[chars[256]]) == ToUint8(ids[chars[0]])
  {
    SlotTableDistinct(chars, ids);
  }

  /** The inputs of the last rasterisation uploaded as the atlas texture. */
  datatype Texture = Blank | Raster(font: string, chars: seq<char>, width: nat, height: Extent, step: nat)

  /** One glyph atlas. */
  class Atlas {
    /** The font string this atlas is cached under. */
    ghost const fontString: string
    const step: nat
    const em: nat
    var cols: nat
    var rows: Extent
    var width: nat
    var height: Extent
    var chars: seq<char>
    var ids: map<char, nat>
    var texture: Texture
    /** The number of texture uploads so far. */
    ghost var uploads: nat

    function Geometry(): Grid
      reads this
    {
      Grid(cols, rows, width, height)
    }

    /**
     * The slot table is consistent, and the geometry and texture are those packed for the
     * current characters (empty while there are none).
     */
    ghost predicate Valid()
      reads this
    {
      && SlotTable(chars, ids)
      && (|chars| == 0 ==> Geometry() == EmptyGrid && texture == Blank)
      && (|chars| > 0 ==> Geometry() == Pack(step, |chars|) && texture == Raster(fontString, chars, width, height, step))
    }

    constructor (fontString: string, fontSize: nat, metrics: Metrics)
      ensures Valid() && this.fontString == fontString
      ensures step == CellStep(fontSize, metrics["bottom"]) && em == fontSize
      ensures chars == [] && ids == map[] && uploads == 0
    {
      this.fontString := fontString;
      step := CellStep(fontSize, metrics["bottom"]);
      em := fontSize;
      cols, rows, width, height := 0, Bounded(0), 0, Bounded(0);
      chars := [];
      ids := map[];
      texture := Blank;
      uploads := 0;
    }

    /**
     * Gives `c` the next slot, `|chars|`, and appends it, when it has none; a character
     * that already has a slot keeps it.
     */
    method AssignSlot(c: char) returns (added: bool)
      requires SlotTable(chars, ids)
      modifies this`chars, this`ids
      ensures SlotTable(chars, ids)
      ensures added <==> c !in old(ids)
      ensures chars == old(chars) + (if added then [c] else [])
      ensures c in ids && (added ==> ids[c] == |old(chars)|)
      ensures ids.Keys == old(ids).Keys + {c}
      ensures forall d :: d in old(ids) ==> d in ids && ids[d] == old(ids)[d]
    {
      added := c !in ids;
      if added {
        ids := ids[c := |chars|];
        chars := chars + [c];
      }
    }

    /**
     * Recomputes the grid for the current characters and uploads a texture rasterised from
     * all of them.
     */
    method Repack(font: string)
      requires SlotTable(chars, ids) && |chars| > 0 && font == fontString
      modifies this`cols, this`rows, this`width, this`height, this`texture, this`uploads
      ensures Valid() && uploads == old(uploads) + 1
    {
      var g := Pack(step, |chars|);
      width := g.width;
      height := g.height;
      rows := g.rows;
      cols := g.cols;
      texture := Raster(font, chars, width, height, step);
      uploads := uploads + 1;
    }
  }

  /** The atlas cache of one GL context, keyed by font string. */
  class Shader {
    var atlas: map<string, Atlas>

    /** The atlas under `k` is cached under its own font string and is consistent. */
    ghost predicate Holds(k: string)
      reads this, atlas.Values
      requires k in atlas
    {
      atlas[k].fontString == k && atlas[k].Valid()
    }

    ghost predicate Valid()
      reads this, atlas.Values
    {
      forall k {:trigger Holds(k)} :: k in atlas ==> Holds(k)
    }

    /**
     * Every atlas is cached under its own font string and every atlas other than `a` is
     * consistent; nothing is said about `a`, which may be changing.
     */
    ghost predicate ValidExcept(a: Atlas)
      reads this, atlas.Values - {a}
    {
      forall k {:trigger HoldsExcept(k, a)} :: k in atlas ==> HoldsExcept(k, a)
    }

    /** The atlas under `k` is cached under its own font string, and is consistent unless it is `a`. */
    ghost predicate HoldsExcept(k: string, a: Atlas)
      reads this, atlas.Values - {a}
      requires k in atlas
    {
      atlas[k].fontString == k && (atlas[k] != a ==> atlas[k].Valid())
    }

    lemma Detach(a: Atlas)
      requires Valid()
      ensures ValidExcept(a)
    {
      forall k | k in atlas
        ensures HoldsExcept(k, a)
      {
        assert Holds(k);
      }
    }

    lemma Attach(a: Atlas)
      requires ValidExcept(a) && a.Valid()
      ensures Valid()
    {
      forall k | k in atlas
        ensures Holds(k)
      {
        assert HoldsExcept(k, a);
      }
    }

    constructor ()
      ensures Valid() && atlas == map[]
    {
      atlas := map[];
    }

    /**
     * The atlas for `fontString`: the cached one, or a new empty one whose cell step is
     * derived from `fontSize` and the glyph-box height in `metrics`, which is then cached.
     */
    method Resolve(fontString: string, fontSize: nat, metrics: Metrics) returns (a: Atlas)
      requires Valid()
      modifies this
      ensures Valid()
      ensures fontString in atlas && atlas[fontString] == a
      ensures a.fontString == fontString && a.Valid()
      ensures forall k :: k in old(atlas) ==> k in atlas && atlas[k] == old(atlas)[k]
      ensures fontString in old(atlas) ==> atlas == old(atlas)
      ensures fontString !in old(atlas) ==> fresh(a) && atlas == old(atlas)[fontString := a]
      ensures fontString !in old(atlas) ==>
        a.step == CellStep(fontSize, metrics["bottom"]) && a.em == fontSize && a.chars == [] && a.ids == map[] && a.uploads == 0
    {
      if fontString in atlas {
        a := atlas[fontString];
        assert Holds(fontString);
      } else {
        a := new Atlas(fontString, fontSize, metrics);
        atlas := atlas[fontString := a];
        forall k | k in atlas
          ensures Holds(k)
        {
          if k != fontString {
            assert old(Holds(k));
          }
        }
      }
    }
  }

  /** 20 cells of 64 pixels: 16 columns, 2 rows, a 1024 by 128 pixel texture. */
  lemma ScenarioTwentyCells()
    ensures Pack(64, 20) == Grid(16, Bounded(2), 1024, Bounded(128))
  {
  }
}
