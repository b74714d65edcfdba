/**
 * The AMAP map-format plugin: write() streams a finite map into a SaveFile
 * and commits it, or records an error and leaves the destination alone.
 */
module Amap {
  import opened Bytes
  import opened Grid
  import opened AmapFormat
  import opened Seqs

  const INFINITE_MAP_ERROR: string := "Format does not support infinite maps."
  const OPEN_ERROR: string := "Could not open file for writing."

  /**
   * The destination of an export, with the QDataStream writing into it.
   * Streamed bytes collect in `stream`; readers of the destination path see
   * `contents`, which only commit() replaces.
   */
  class SaveFile {
    const fileName: string
    /** Whether the file system lets the file be opened for writing. */
    const canOpen: bool
    var contents: seq<byte>
    var stream: seq<byte>

    constructor (fileName: string, canOpen: bool, contents: seq<byte>)
      ensures this.fileName == fileName && this.canOpen == canOpen
      ensures this.contents == contents && stream == []
    {
      this.fileName := fileName;
      this.canOpen := canOpen;
      this.contents := contents;
      stream := [];
    }

    /** Opens the file for writing; nothing is visible at the destination yet. */
    method Open() returns (ok: bool)
      modifies this`stream
      ensures ok == canOpen && stream == []
    {
      ok := canOpen;
      stream := [];
    }

    /** data << quint8(b) */
    method WriteU8(b: byte)
      modifies this`stream
      ensures stream == old(stream) + [b]
    {
      stream := stream + [b];
    }

    /** data << quint32(n) */
    method WriteU32(n: int)
      modifies this`stream
      ensures stream == old(stream) + U32LE(n)
    {
      stream := stream + U32LE(n);
    }

    /** data << qint16(v) */
    method WriteI16(v: int)
      modifies this`stream
      ensures stream == old(stream) + Int16LE(v)
    {
      stream := stream + Int16LE(v);
    }

    /** Makes everything streamed so far the destination's contents. */
    method Commit()
      modifies this`contents
      ensures contents == stream
    {
      contents := stream;
    }
  }

  class AmapPlugin {
    /** The message errorString() reports after a failed write. */
    var error: string

    constructor ()
      ensures error == ""
    {
      error := "";
    }

    /** The format's short name, which is also the file extension. */
    function ShortName(): (r: string)
      ensures r == "amap"
    {
      "amap"
    }

    /** The file dialog filter: files with the short name as extension. */
    function NameFilter(): (r: string)
      ensures |r| >= 8 && r[|r| - 8..] == "(*." + ShortName() + ")"
    {
      "AMAP files (*.amap)"
    }

    /**
     * Writes the map to the file. An infinite map is refused before the file
     * is touched; a file that cannot be opened is refused too. Either way
     * the error message is set and the destination keeps its old contents.
     * Otherwise the destination ends up holding exactly Encode(m).
     */
    method Write(m: Map, file: SaveFile) returns (ok: bool)
      modifies this, file
      ensures ok <==> !m.infinite && file.canOpen
      ensures m.infinite ==> error == INFINITE_MAP_ERROR
      ensures !m.infinite && !file.canOpen ==> error == OPEN_ERROR
      ensures ok ==> error == old(error) && file.contents == Encode(m)
      ensures !ok ==> file.contents == old(file.contents)
      ensures m.infinite ==> file.stream == old(file.stream)
      ensures !m.infinite && !file.canOpen ==> file.stream == []
    {
      if m.infinite {
        error := INFINITE_MAP_ERROR;
        return false;
      }
      var isOpen := file.Open();
      if !isOpen {
        error := OPEN_ERROR;
        return false;
      }
      StreamMap(m, file);
      file.Commit();
      ok := true;
    }
  }

  /**
   * What write() streams once the file is open: the header, the tile
   * layers' grids while collecting the collision bytes, then those bytes.
   */
  method StreamMap(m: Map, file: SaveFile)
    modifies file`stream
    ensures file.stream == old(file.stream) + Encode(m)
  {
    ghost var start := file.stream;
    StreamHeader(m, file);
    var collisions := new byte[m.width * m.height](_ => 0);
    AreaIsProduct(m.width, m.height);
    StreamLayers(m, collisions, file);
    StreamCollisions(m, collisions, file);
    AppendAssoc(start, Header(m), TileData(m.layers, m.width, m.height));
    AppendAssoc(start, Header(m) + TileData(m.layers, m.width, m.height), RowMajor(Collisions(m), m.width, m.height));
  }

  /** The header: magic "AMAP", the version byte, width, height and layer count. */
  method StreamHeader(m: Map, file: SaveFile)
    modifies file`stream
    ensures file.stream == old(file.stream) + Header(m)
  {
    file.WriteU8('A' as byte);
    file.WriteU8('M' as byte);
    file.WriteU8('A' as byte);
    file.WriteU8('P' as byte);
    file.WriteU8(VERSION);
    file.WriteU32(m.width);
    file.WriteU32(m.height);
    file.WriteU32(|m.layers|);
  }

  /** The collision bytes c hold, cell by cell, the collision bits of the layers. */
  ghost predicate CollisionsAre(c: seq<byte>, layers: seq<Layer>, w: nat, h: nat)
  {
    && |c| == Area(w, h)
    && forall x, y :: 0 <= x < w && 0 <= y < h ==> c[Index(w, h, x, y)] == CollisionBit(layers, x, y)
  }

  /**
   * c is `before` with the cells of rows 0 .. rows-1, and of row `rows` up
   * to column cols-1, set to 1 where the layer is solid.
   */
  ghost predicate MarkedUpTo(c: seq<byte>, before: seq<byte>, layer: Layer, w: nat, h: nat, rows: int, cols: int)
  {
    && |c| == Area(w, h) && |before| == Area(w, h)
    && forall x, y :: 0 <= x < w && 0 <= y < h ==>
         c[Index(w, h, x, y)] == if (y < rows || (y == rows && x < cols)) && Solid(layer, x, y) then 1 else before[Index(w, h, x, y)]
  }

  /** Visiting cell (x, y) of row `rows`: it is set to 1 when the layer is solid there. */
  lemma MarkCell(c: seq<byte>, before: seq<byte>, layer: Layer, w: nat, h: nat, x: int, y: int)
    requires 0 <= x < w && 0 <= y < h && MarkedUpTo(c, before, layer, w, h, y, x)
    ensures MarkedUpTo(if Solid(layer, x, y) then c[Index(w, h, x, y) := 1] else c, before, layer, w, h, y, x + 1)
  {
    IndexInjective(w, h);
  }

  /** A finished row is the same as the start of the next one. */
  lemma NextRow(c: seq<byte>, before: seq<byte>, layer: Layer, w: nat, h: nat, y: int)
    requires MarkedUpTo(c, before, layer, w, h, y, w)
    ensures MarkedUpTo(c, before, layer, w, h, y + 1, 0)
  {
  }

  /** Marking all rows of layer i adds layer i to the layers the collision bytes account for. */
  lemma NextLayer(before: seq<byte>, c: seq<byte>, layers: seq<Layer>, i: int, w: nat, h: nat)
    requires 0 <= i < |layers| && CollisionsAre(before, layers[..i], w, h)
    requires if layers[i].TileLayer? then MarkedUpTo(c, before, layers[i], w, h, h, 0) else c == before
    ensures CollisionsAre(c, layers[..i + 1], w, h)
  {
    LayerStep(layers, i, w, h);
  }

  /**
   * write()'s loop over the top-level layers: each tile layer's grid is
   * streamed and its solid cells are marked in the collision array.
   */
  method StreamLayers(m: Map, collisions: array<byte>, file: SaveFile)
    requires collisions.Length == Area(m.width, m.height)
    requires forall k :: 0 <= k < collisions.Length ==> collisions[k] == 0
    modifies file`stream, collisions
    ensures file.stream == old(file.stream) + TileData(m.layers, m.width, m.height)
    ensures CollisionsAre(collisions[..], m.layers, m.width, m.height)
  {
    var w, h := m.width, m.height;
    ghost var start := file.stream;
    var i := 0;
    while i < |m.layers|
      invariant 0 <= i <= |m.layers|
      invariant file.stream == start + TileData(m.layers[..i], w, h)
      invariant CollisionsAre(collisions[..], m.layers[..i], w, h)
    {
      StreamLayer(m, i, collisions, file);
      LayerStep(m.layers, i, w, h);
      AppendAssoc(start, TileData(m.layers[..i], w, h), LayerData(m.layers[i], w, h));
      i := i + 1;
    }
    assert m.layers[..i] == m.layers;
  }

  /** One iteration of write()'s layer loop: only a tile layer is streamed and marked. */
  method StreamLayer(m: Map, i: int, collisions: array<byte>, file: SaveFile)
    requires 0 <= i < |m.layers| && CollisionsAre(collisions[..], m.layers[..i], m.width, m.height)
    modifies file`stream, collisions
    ensures file.stream == old(file.stream) + LayerData(m.layers[i], m.width, m.height)
    ensures CollisionsAre(collisions[..], m.layers[..i + 1], m.width, m.height)
  {
    ghost var before := collisions[..];
    var layer := m.layers[i];
    if layer.TileLayer? {
      StreamTileLayer(layer, m.width, m.height, collisions, file);
    }
    NextLayer(before, collisions[..], m.layers, i, m.width, m.height);
  }

  /**
   * The body of write()'s loop for one tile layer: walks the grid row by
   * row, streams each cell's int16 and marks the cells whose tile has a
   * collision object group.
   */
  method StreamTileLayer(layer: Layer, w: nat, h: nat, collisions: array<byte>, file: SaveFile)
    requires layer.TileLayer? && collisions.Length == Area(w, h)
    modifies file`stream, collisions
    ensures file.stream == old(file.stream) + GridRows(layer.cellAt, w, h)
    ensures MarkedUpTo(collisions[..], old(collisions[..]), layer, w, h, h, 0)
  {
    ghost var before, start := collisions[..], file.stream;
    var y := 0;
    while y < h
      invariant 0 <= y <= h
      invariant file.stream == start + GridRows(layer.cellAt, w, y)
      invariant MarkedUpTo(collisions[..], before, layer, w, h, y, 0)
    {
      StreamRow(layer, w, h, y, before, collisions, file);
      AppendAssoc(start, GridRows(layer.cellAt, w, y), CellsBytes(Row(layer.cellAt, w, y)));
      y := y + 1;
    }
  }

  /** Row y of a tile layer, cells x = 0 .. w-1 in turn. */
  method StreamRow(layer: Layer, w: nat, h: nat, y: nat, ghost before: seq<byte>, collisions: array<byte>, file: SaveFile)
    requires layer.TileLayer? && y < h && MarkedUpTo(collisions[..], before, layer, w, h, y, 0)
    modifies file`stream, collisions
    ensures file.stream == old(file.stream) + CellsBytes(Row(layer.cellAt, w, y))
    ensures MarkedUpTo(collisions[..], before, layer, w, h, y + 1, 0)
  {
    ghost var start := file.stream;
    var x := 0;
    while x < w
      invariant 0 <= x <= w
      invariant file.stream == start + CellsBytes(Row(layer.cellAt, x, y))
      invariant MarkedUpTo(collisions[..], before, layer, w, h, y, x)
    {
      MarkCell(collisions[..], before, layer, w, h, x, y);
      var cell := layer.cellAt(x, y);
      if cell.Some? {
        file.WriteI16(cell.value.id);
        if cell.value.hasObjectGroup {
          collisions[Index(w, h, x, y)] := 1;
        }
      } else {
        file.WriteI16(-1);
      }
      RowSnoc(layer.cellAt, x, y);
      CellsBytesSnoc(Row(layer.cellAt, x, y), cell);
      AppendAssoc(start, CellsBytes(Row(layer.cellAt, x, y)), Int16LE(CellWord(cell)));
      x := x + 1;
    }
    NextRow(collisions[..], before, layer, w, h, y);
  }

  /** The collision bitmap, one byte per cell, after all layer data. */
  method StreamCollisions(m: Map, collisions: array<byte>, file: SaveFile)
    requires CollisionsAre(collisions[..], m.layers, m.width, m.height)
    modifies file`stream
    ensures file.stream == old(file.stream) + RowMajor(Collisions(m), m.width, m.height)
  {
    ghost var bits, start := collisions[..], file.stream;
    RowMajorUnique(bits, Collisions(m), m.width, m.height);
    for k := 0 to collisions.Length
      invariant file.stream == start + collisions[..k]
    {
      file.WriteU8(collisions[k]);
      assert collisions[..k + 1] == collisions[..k] + [collisions[k]];
      AppendAssoc(start, collisions[..k], [collisions[k]]);
    }
    assert collisions[..collisions.Length] == bits;
  }
}
