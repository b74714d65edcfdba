/**
 * The AMAP file format, version 0, as a function of the map: a 17-byte
 * header, one row-major int16 grid per top-level tile layer, then a
 * one-byte-per-cell collision bitmap shared by all tile layers.
 */
module AmapFormat {
  import opened Bytes
  import opened Grid
  import opened Seqs

  datatype Option<+T> = None | Some(value: T)

  /** A tile: its id, and whether it owns a collision object group. */
  datatype Tile = Tile(id: int, hasObjectGroup: bool)

  /** What a cell shows: a tile, or None for an empty cell. */
  type Cell = Option<Tile>

  /**
   * The layer kinds of a map. Only tile layers are exported; the others
   * (including the layers nested in a group) are skipped.
   */
  datatype Layer =
    | TileLayer(cellAt: (int, int) -> Cell)
    | ObjectGroup
    | ImageLayer
    | GroupLayer(children: seq<Layer>)

  /** The map, read-only for the exporter. */
  datatype Map = Map(width: nat, height: nat, infinite: bool, layers: seq<Layer>)

  const VERSION: byte := 0
  const MAGIC: seq<byte> := ['A' as byte, 'M' as byte, 'A' as byte, 'P' as byte]
  const HEADER_SIZE: nat := 17

  /** Magic, version, then width, height and the number of ALL top-level layers as uint32. */
  function Header(m: Map): (r: seq<byte>)
    ensures |r| == HEADER_SIZE
  {
    MAGIC + [VERSION] + U32LE(m.width) + U32LE(m.height) + U32LE(|m.layers|)
  }

  /** The value a cell is streamed as: its tile's id, or -1 when it is empty. */
  function CellWord(c: Cell): int
  {
    if c.Some? then c.value.id else -1
  }

  /** The int16 images of a sequence of cells, in order. */
  function CellsBytes(cells: seq<Cell>): (r: seq<byte>)
    ensures |r| == 2 * |cells|
  {
    if |cells| == 0 then []
    else CellsBytes(cells[..|cells| - 1]) + Int16LE(CellWord(cells[|cells| - 1]))
  }

  /** Streaming one more cell appends its int16 image. */
  lemma CellsBytesSnoc(cells: seq<Cell>, c: Cell)
    ensures CellsBytes(cells + [c]) == CellsBytes(cells) + Int16LE(CellWord(c))
  {
    assert (cells + [c])[..|cells|] == cells;
  }

  /** The image of concatenated cell sequences is the concatenation of their images. */
  lemma {:induction false} CellsBytesAppend(a: seq<Cell>, b: seq<Cell>)
    ensures CellsBytes(a + b) == CellsBytes(a) + CellsBytes(b)
  {
    if |b| == 0 {
      assert a + b == a;
    } else {
      var b', z := b[..|b| - 1], b[|b| - 1];
      assert b == b' + [z];
      AppendAssoc(a, b', [z]);
      CellsBytesSnoc(a + b', z);
      CellsBytesAppend(a, b');
      CellsBytesSnoc(b', z);
      AppendAssoc(CellsBytes(a), CellsBytes(b'), Int16LE(CellWord(z)));
    }
  }

  /** Bytes 2k and 2k+1 of the image hold cell k. */
  lemma {:induction false} CellsBytesAt(cells: seq<Cell>, k: int)
    requires 0 <= k < |cells|
    ensures CellsBytes(cells)[2 * k .. 2 * k + 2] == Int16LE(CellWord(cells[k]))
  {
    var init := cells[..|cells| - 1];
    if k < |cells| - 1 {
      CellsBytesAt(init, k);
      assert CellsBytes(cells)[..2 * |init|] == CellsBytes(init);
    }
  }

  /** The int16 images of the first y rows of a grid, row after row. */
  function GridRows(g: (int, int) -> Cell, w: nat, y: nat): (r: seq<byte>)
    ensures |r| == 2 * Area(w, y)
  {
    if y == 0 then [] else GridRows(g, w, y - 1) + CellsBytes(Row(g, w, y - 1))
  }

  /** Streaming a grid row by row gives the image of its row-major cells. */
  lemma {:induction false} GridRowsRowMajor(g: (int, int) -> Cell, w: nat, y: nat)
    ensures GridRows(g, w, y) == CellsBytes(RowMajor(g, w, y))
  {
    if y > 0 {
      var above, row := RowMajor(g, w, y - 1), Row(g, w, y - 1);
      GridRowsRowMajor(g, w, y - 1);
      CellsBytesAppend(above, row);
      assert RowMajor(g, w, y) == above + row;
    }
  }

  /** How many of the layers are tile layers. */
  function TileLayerCount(layers: seq<Layer>): (n: nat)
    ensures n <= |layers|
  {
    if |layers| == 0 then 0
    else TileLayerCount(layers[..|layers| - 1]) + (if layers[|layers| - 1].TileLayer? then 1 else 0)
  }

  /** A tile layer's w-by-h grid as row-major int16 values; nothing for any other layer. */
  function LayerData(l: Layer, w: nat, h: nat): (r: seq<byte>)
    ensures |r| == if l.TileLayer? then 2 * Area(w, h) else 0
  {
    if l.TileLayer? then GridRows(l.cellAt, w, h) else []
  }

  /** The data of the layers, in layer order. */
  function TileData(layers: seq<Layer>, w: nat, h: nat): seq<byte>
  {
    if |layers| == 0 then [] else TileData(layers[..|layers| - 1], w, h) + LayerData(layers[|layers| - 1], w, h)
  }

  /** Each tile layer contributes two bytes per cell; no other layer contributes any. */
  lemma {:induction false} TileDataLength(layers: seq<Layer>, w: nat, h: nat)
    ensures |TileData(layers, w, h)| == 2 * (w * h) * TileLayerCount(layers)
  {
    if |layers| > 0 {
      var init, last := layers[..|layers| - 1], layers[|layers| - 1];
      var n, area := TileLayerCount(init), w * h;
      TileDataLength(init, w, h);
      AreaIsProduct(w, h);
      assert |TileData(layers, w, h)| == 2 * area * n + |LayerData(last, w, h)|;
      if last.TileLayer? {
        assert TileLayerCount(layers) == n + 1;
        MulSucc(2 * area, n);
      }
    }
  }

  lemma MulSucc(a: int, n: int)
    ensures a * (n + 1) == a * n + a
  {
  }

  /** Tile data and tile layer counts of concatenated layer lists concatenate and add up. */
  lemma {:induction false} TileDataAppend(a: seq<Layer>, b: seq<Layer>, w: nat, h: nat)
    ensures TileData(a + b, w, h) == TileData(a, w, h) + TileData(b, w, h)
    ensures TileLayerCount(a + b) == TileLayerCount(a) + TileLayerCount(b)
  {
    if |b| > 0 {
      var b' := b[..|b| - 1];
      TileDataAppend(a, b', w, h);
      assert (a + b)[..|a + b| - 1] == a + b';
    } else {
      assert a + b == a;
    }
  }

  /** Layer l puts a tile with a collision object group at (x, y). */
  predicate Solid(l: Layer, x: int, y: int)
  {
    l.TileLayer? && l.cellAt(x, y).Some? && l.cellAt(x, y).value.hasObjectGroup
  }

  /** Some layer puts a tile with a collision object group at (x, y). */
  predicate AnySolid(layers: seq<Layer>, x: int, y: int)
  {
    exists j :: 0 <= j < |layers| && Solid(layers[j], x, y)
  }

  /** The collision byte of cell (x, y): 1 when some tile layer is solid there, else 0. */
  function CollisionBit(layers: seq<Layer>, x: int, y: int): byte
  {
    if AnySolid(layers, x, y) then 1 else 0
  }

  /** The collision bitmap of a map, cell by cell. */
  function Collisions(m: Map): (int, int) -> byte
  {
    (x, y) => CollisionBit(m.layers, x, y)
  }

  /** The whole file written for a finite map. */
  function Encode(m: Map): seq<byte>
  {
    Header(m) + TileData(m.layers, m.width, m.height) + RowMajor(Collisions(m), m.width, m.height)
  }

  /**
   * The file is the 17-byte header, two bytes per cell for each tile layer,
   * and one collision byte per cell.
   */
  lemma EncodeLength(m: Map)
    ensures |Encode(m)| == HEADER_SIZE + 2 * (m.width * m.height) * TileLayerCount(m.layers) + m.width * m.height
  {
    TileDataLength(m.layers, m.width, m.height);
    AreaIsProduct(m.width, m.height);
  }

  /**
   * Bytes 0-3 are "AMAP", byte 4 is the version 0, and bytes 5-16 read back
   * as the width, the height and the number of all top-level layers
   * (non-tile layers included), each modulo 2^32.
   */
  lemma HeaderLayout(m: Map)
    ensures |Encode(m)| >= HEADER_SIZE
    ensures Encode(m)[..4] == MAGIC && Encode(m)[4] == VERSION
    ensures U32Of(Encode(m)[5..9]) == m.width % TWO_32
    ensures U32Of(Encode(m)[9..13]) == m.height % TWO_32
    ensures U32Of(Encode(m)[13..17]) == |m.layers| % TWO_32
  {
    var r := Encode(m);
    assert r[..HEADER_SIZE] == Header(m);
    assert r[5..9] == U32LE(m.width);
    assert r[9..13] == U32LE(m.height);
    assert r[13..17] == U32LE(|m.layers|);
    U32RoundTrip(m.width);
    U32RoundTrip(m.height);
    U32RoundTrip(|m.layers|);
  }

  /**
   * Where cell (x, y) of layer i is stored: after the header and the grids
   * of the tile layers before layer i, at value number y*W + x of the grid.
   */
  function TileOffset(m: Map, i: int, x: int, y: int): (off: int)
    requires 0 <= i < |m.layers| && m.layers[i].TileLayer?
    requires 0 <= x < m.width && 0 <= y < m.height
    ensures HEADER_SIZE <= off && off + 2 <= HEADER_SIZE + |TileData(m.layers, m.width, m.height)|
  {
    LayerDataWithin(m.layers, i, m.width, m.height);
    HEADER_SIZE + |TileData(m.layers[..i], m.width, m.height)| + 2 * Index(m.width, m.height, x, y)
  }

  /**
   * Cell (x, y) of layer i is at byte 17 + 2*W*H*n + 2*(y*W + x), where n
   * is the number of tile layers before layer i.
   */
  lemma TileOffsetFormula(m: Map, i: int, x: int, y: int)
    requires 0 <= i < |m.layers| && m.layers[i].TileLayer?
    requires 0 <= x < m.width && 0 <= y < m.height
    ensures TileOffset(m, i, x, y) ==
      HEADER_SIZE + 2 * (m.width * m.height) * TileLayerCount(m.layers[..i]) + 2 * (y * m.width + x)
  {
    TileDataLength(m.layers[..i], m.width, m.height);
    IndexFormula(m.width, m.height, x, y);
  }

  /**
   * Layer i, when it is a tile layer, has cell (x, y) streamed at
   * TileOffset(m, i, x, y) as the int16 image of the tile id, or of -1 for
   * an empty cell.
   */
  lemma TileWordAt(m: Map, i: int, x: int, y: int)
    requires 0 <= i < |m.layers| && m.layers[i].TileLayer?
    requires 0 <= x < m.width && 0 <= y < m.height
    ensures var off := TileOffset(m, i, x, y);
      Encode(m)[off .. off + 2] == Int16LE(CellWord(m.layers[i].cellAt(x, y)))
  {
    var w, h := m.width, m.height;
    TileDataWordAt(m.layers, i, w, h, x, y);
    PairInMiddle(Header(m), TileData(m.layers, w, h), RowMajor(Collisions(m), w, h),
                 |TileData(m.layers[..i], w, h)| + 2 * Index(w, h, x, y), Int16LE(CellWord(m.layers[i].cellAt(x, y))));
  }

  /** Within the tile data, layer i's cell (x, y) follows the grids of the layers before it. */
  lemma TileDataWordAt(layers: seq<Layer>, i: int, w: nat, h: nat, x: int, y: int)
    requires 0 <= i < |layers| && layers[i].TileLayer?
    requires 0 <= x < w && 0 <= y < h
    ensures var j := |TileData(layers[..i], w, h)| + 2 * Index(w, h, x, y);
      && j + 2 <= |TileData(layers, w, h)|
      && TileData(layers, w, h)[j .. j + 2] == Int16LE(CellWord(layers[i].cellAt(x, y)))
  {
    LayerWordAt(layers[i], w, h, x, y);
    TileDataSplit(layers, i, w, h);
    PairInMiddle(TileData(layers[..i], w, h), LayerData(layers[i], w, h), TileData(layers[i + 1..], w, h),
                 2 * Index(w, h, x, y), Int16LE(CellWord(layers[i].cellAt(x, y))));
  }

  /** Value number y*W + x of a tile layer's grid is cell (x, y). */
  lemma LayerWordAt(l: Layer, w: nat, h: nat, x: int, y: int)
    requires l.TileLayer? && 0 <= x < w && 0 <= y < h
    ensures var k := Index(w, h, x, y);
      LayerData(l, w, h)[2 * k .. 2 * k + 2] == Int16LE(CellWord(l.cellAt(x, y)))
  {
    RowMajorAt(l.cellAt, w, h, x, y);
    GridRowsRowMajor(l.cellAt, w, h);
    CellsBytesAt(RowMajor(l.cellAt, w, h), Index(w, h, x, y));
  }

  /**
   * A reader of the int16 at TileOffset(m, i, x, y) gets the tile id
   * truncated to 16 bits, and an empty cell is the bytes 0xFF 0xFF.
   */
  lemma TileWordRead(m: Map, i: int, x: int, y: int)
    requires 0 <= i < |m.layers| && m.layers[i].TileLayer?
    requires 0 <= x < m.width && 0 <= y < m.height
    ensures var off := TileOffset(m, i, x, y);
      && Int16Of(Encode(m)[off], Encode(m)[off + 1]) == Wrap16(CellWord(m.layers[i].cellAt(x, y)))
      && (m.layers[i].cellAt(x, y).None? ==> Encode(m)[off .. off + 2] == [0xFF, 0xFF])
  {
    var off := TileOffset(m, i, x, y);
    var r := Encode(m);
    TileWordAt(m, i, x, y);
    assert r[off] == r[off .. off + 2][0] && r[off + 1] == r[off .. off + 2][1];
    Int16RoundTrip(CellWord(m.layers[i].cellAt(x, y)));
  }

  /** Layer i's data ends within the tile data. */
  lemma LayerDataWithin(layers: seq<Layer>, i: int, w: nat, h: nat)
    requires 0 <= i < |layers|
    ensures |TileData(layers[..i], w, h)| + |LayerData(layers[i], w, h)| <= |TileData(layers, w, h)|
  {
    LayerDataInTileData(layers, i, w, h);
  }

  /** Layer i's data follows the data of the layers before it. */
  lemma LayerDataInTileData(layers: seq<Layer>, i: int, w: nat, h: nat)
    requires 0 <= i < |layers|
    ensures var base := |TileData(layers[..i], w, h)|;
      && base + |LayerData(layers[i], w, h)| <= |TileData(layers, w, h)|
      && TileData(layers, w, h)[base .. base + |LayerData(layers[i], w, h)|] == LayerData(layers[i], w, h)
  {
    TileDataSplit(layers, i, w, h);
    MiddleOf(TileData(layers[..i], w, h), LayerData(layers[i], w, h), TileData(layers[i + 1..], w, h));
  }

  /** The tile data is that of the layers before i, then layer i's, then that of the layers after it. */
  lemma TileDataSplit(layers: seq<Layer>, i: int, w: nat, h: nat)
    requires 0 <= i < |layers|
    ensures TileData(layers, w, h) == TileData(layers[..i], w, h) + LayerData(layers[i], w, h) + TileData(layers[i + 1..], w, h)
  {
    var before, rest := layers[..i + 1], layers[i + 1..];
    assert layers == before + rest;
    TileDataAppend(before, rest, w, h);
    LayerStep(layers, i, w, h);
  }

  /**
   * The collision section is the final W*H bytes of the file; its byte
   * y*W + x is 1 exactly when some top-level tile layer has at (x, y) a tile
   * with a collision object group, and 0 otherwise.
   */
  lemma CollisionByteAt(m: Map, x: int, y: int)
    requires 0 <= x < m.width && 0 <= y < m.height
    ensures var off := |Encode(m)| - Area(m.width, m.height) + Index(m.width, m.height, x, y);
      && HEADER_SIZE + |TileData(m.layers, m.width, m.height)| <= off < |Encode(m)|
      && Encode(m)[off] == if exists j :: 0 <= j < |m.layers| && m.layers[j].TileLayer?
                                && m.layers[j].cellAt(x, y).Some? && m.layers[j].cellAt(x, y).value.hasObjectGroup
                           then 1 else 0
  {
    RowMajorAt(Collisions(m), m.width, m.height, x, y);
    var base := HEADER_SIZE + |TileData(m.layers, m.width, m.height)|;
    assert Encode(m)[base..] == RowMajor(Collisions(m), m.width, m.height);
  }

  /**
   * The collision bit of a stack of layers is the OR of the bits of its
   * parts: a later layer never clears a bit an earlier one set.
   */
  lemma CollisionUnion(a: seq<Layer>, b: seq<Layer>, x: int, y: int)
    ensures CollisionBit(a + b, x, y) == if CollisionBit(a, x, y) == 1 || CollisionBit(b, x, y) == 1 then 1 else 0
  {
    if AnySolid(a, x, y) {
      var j :| 0 <= j < |a| && Solid(a[j], x, y);
      assert (a + b)[j] == a[j];
    } else if AnySolid(b, x, y) {
      var j :| 0 <= j < |b| && Solid(b[j], x, y);
      assert (a + b)[|a| + j] == b[j];
    } else {
      forall j | 0 <= j < |a + b|
        ensures !Solid((a + b)[j], x, y)
      {
        if j < |a| {
          assert (a + b)[j] == a[j];
        } else {
          assert (a + b)[j] == b[j - |a|];
        }
      }
    }
  }

  /**
   * Adding layer i to the layers before it appends its data, and sets the
   * collision bits of the cells where it is solid, leaving the others.
   */
  lemma LayerStep(layers: seq<Layer>, i: int, w: nat, h: nat)
    requires 0 <= i < |layers|
    ensures TileData(layers[..i + 1], w, h) == TileData(layers[..i], w, h) + LayerData(layers[i], w, h)
    ensures forall x, y :: CollisionBit(layers[..i + 1], x, y) ==
                           if Solid(layers[i], x, y) then 1 else CollisionBit(layers[..i], x, y)
  {
    var layer := layers[i];
    assert layers[..i + 1] == layers[..i] + [layer];
    TileDataAppend(layers[..i], [layer], w, h);
    assert TileData([layer], w, h) == LayerData(layer, w, h) by {
      assert [layer][..0] == [];
    }
    forall x, y
      ensures CollisionBit(layers[..i + 1], x, y) == if Solid(layer, x, y) then 1 else CollisionBit(layers[..i], x, y)
    {
      CollisionUnion(layers[..i], [layer], x, y);
      assert AnySolid([layer], x, y) == Solid(layer, x, y) by {
        assert [layer][0] == layer;
      }
    }
  }

  /** Layer by layer, the two lists have the same tile layers, with the same cells, at the same places. */
  ghost predicate SameTileLayers(a: seq<Layer>, b: seq<Layer>)
  {
    && |a| == |b|
    && forall j :: 0 <= j < |a| ==>
         (a[j].TileLayer? <==> b[j].TileLayer?) && (a[j].TileLayer? ==> a[j].cellAt == b[j].cellAt)
  }

  lemma {:induction false} TileDataSameTileLayers(a: seq<Layer>, b: seq<Layer>, w: nat, h: nat)
    requires SameTileLayers(a, b)
    ensures TileData(a, w, h) == TileData(b, w, h)
  {
    if |a| > 0 {
      TileDataSameTileLayers(a[..|a| - 1], b[..|b| - 1], w, h);
    }
  }

  /**
   * Only the top-level tile layers and the number of layers reach the file:
   * object groups, image layers and group layers (whatever tile layers they
   * hold) can be exchanged for one another without changing a byte.
   */
  lemma NonTileLayersOnlyCount(m1: Map, m2: Map)
    requires m1.width == m2.width && m1.height == m2.height
    requires SameTileLayers(m1.layers, m2.layers)
    ensures Encode(m1) == Encode(m2)
  {
    var w, h := m1.width, m1.height;
    TileDataSameTileLayers(m1.layers, m2.layers, w, h);
    var bits := RowMajor(Collisions(m1), w, h);
    forall x, y | 0 <= x < w && 0 <= y < h
      ensures bits[Index(w, h, x, y)] == Collisions(m2)(x, y)
    {
      RowMajorAt(Collisions(m1), w, h, x, y);
      if AnySolid(m1.layers, x, y) {
        var j :| 0 <= j < |m1.layers| && Solid(m1.layers[j], x, y);
        assert Solid(m2.layers[j], x, y);
      }
      if AnySolid(m2.layers, x, y) {
        var j :| 0 <= j < |m2.layers| && Solid(m2.layers[j], x, y);
        assert Solid(m1.layers[j], x, y);
      }
    }
    RowMajorUnique(bits, Collisions(m2), w, h);
  }
}
