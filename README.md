# AMAP map exporter (format version 0)

This project models the AMAP export plugin of the Tiled map editor.
`Amap::AmapPlugin::write` serialises a finite tile map into a little-endian binary file with this layout:

- the magic `AMAP` and a version byte 0;
- the map width, the map height and the number of top-level layers, each as a `quint32`;
- for every top-level tile layer in order, its width-by-height grid walked row by row (y outer, x inner), one `qint16` per cell: the tile id, or -1 for an empty cell;
- a collision bitmap of one byte per cell. A cell's byte is 1 when some tile layer has a tile with a collision object group there.

The plugin refuses an infinite map, and a destination that cannot be opened, with an error message.

The model has two layers:

- `AmapFormat.Encode` is the image of a map as a pure function, with lemmas that place every header field, every tile value and every collision byte.
- `Amap.AmapPlugin.Write` is the exporter itself, as imperative code. It streams into a `SaveFile` object with the same nested loops as the source, and fills the collision array in place. It is proved to leave exactly `Encode(m)` in the file on success, and to leave the file alone on failure.

The code writes format version 0. A later design of the format uses version 1, with compressed blocks, an object-record section and a header that counts only tile layers. None of that is in `write`, so the model follows the code: no compression, no objects, and a header layer count that includes object groups, image layers and group layers.

Files:

- `bytes.dfy`: the `quint8`, `qint16` and `quint32` images written by a little-endian `QDataStream`, with their decoders.
- `grid.dfy`: the row-major order of a grid.
- `amap_format.dfy`: the map, the file image and its layout lemmas.
- `amap_plugin.dfy`: the `SaveFile` destination, the plugin class and the streaming methods.
- `text_mode.dfy`: the effect of the text-mode open (see Findings).

## Model

| member | source | states |
|---|---|---|
| Amap.AmapPlugin.Write | src/plugins/amap/amapplugin.cpp:19-68 | Succeeds exactly when the map is finite and the file opens; an infinite map sets "Format does not support infinite maps." and leaves the file untouched; an unopenable file sets "Could not open file for writing." and nothing is streamed; on success the error is unchanged and the committed contents are exactly Encode(m); on failure the destination keeps its old contents |
| Amap.StreamMap | src/plugins/amap/amapplugin.cpp:35-65 | After the file is open, the stream grows by exactly Encode(m): header, tile data, collision bytes |
| Amap.StreamHeader | src/plugins/amap/amapplugin.cpp:38-40 | Appends the 17 header bytes: magic, version, width, height and the count of all layers |
| Amap.StreamLayers | src/plugins/amap/amapplugin.cpp:42-63 | Starting from an all-zero W*H collision array, appends the data of every tile layer in layer order; on exit, the byte of each cell in the array is the collision bit of all the layers |
| Amap.StreamLayer | src/plugins/amap/amapplugin.cpp:44-63 | One iteration of the layer loop: a non-tile layer appends nothing and leaves the array alone; a tile layer appends its grid; the array then accounts for one more layer |
| Amap.StreamTileLayer | src/plugins/amap/amapplugin.cpp:46-62 | Appends the layer's grid row after row, and sets to 1 exactly the array cells where this layer is solid, keeping every other cell |
| Amap.StreamRow | src/plugins/amap/amapplugin.cpp:49-61 | Appends the qint16 image of each cell of row y, left to right (tile id, or -1 when empty), and marks that row's solid cells |
| Amap.StreamCollisions | src/plugins/amap/amapplugin.cpp:65 | Appends the collision array byte by byte, which is the row-major collision bitmap of the map |
| Amap.MarkCell | src/plugins/amap/amapplugin.cpp:55-57 | Setting cell y*W + x to 1 when its tile has an object group changes only that cell of the array |
| Amap.NextLayer | src/plugins/amap/amapplugin.cpp:44-45 | Once a layer has been walked, or skipped when it is not a tile layer, the array holds the collision bits of the layers up to and including it |
| Amap.SaveFile.Open | src/plugins/amap/amapplugin.cpp:28-33 | Opening succeeds exactly when the destination can be written, and starts an empty stream |
| Amap.SaveFile.WriteU8 | src/plugins/amap/amapplugin.cpp:38-39 | `data << quint8(b)` appends the byte b |
| Amap.SaveFile.WriteU32 | src/plugins/amap/amapplugin.cpp:40 | `data << quint32(n)` appends the 4-byte little-endian image of n |
| Amap.SaveFile.WriteI16 | src/plugins/amap/amapplugin.cpp:53-59 | `data << qint16(v)` appends the 2-byte little-endian image of v |
| Amap.SaveFile.Commit | src/plugins/amap/amapplugin.cpp:66 | The streamed bytes become the destination's contents |
| Amap.AmapPlugin.ShortName | src/plugins/amap/amapplugin.cpp:70-73 | The short name is "amap" |
| Amap.AmapPlugin.NameFilter | src/plugins/amap/amapplugin.cpp:75-78 | The file filter ends with "(*.amap)", the short name used as the extension |
| AmapFormat.HeaderLayout | src/plugins/amap/amapplugin.cpp:17-40 | Bytes 0-3 are "AMAP" and byte 4 is version 0; bytes 5-8, 9-12 and 13-16 read back as the width, the height and the number of all top-level layers, each modulo 2^32 |
| AmapFormat.EncodeLength | src/plugins/amap/amapplugin.cpp:38-65 | The file is 17 + 2*W*H*(number of tile layers) + W*H bytes long |
| AmapFormat.TileDataLength | src/plugins/amap/amapplugin.cpp:44-63 | Each tile layer contributes exactly 2*W*H bytes; every other layer contributes none |
| AmapFormat.TileOffsetFormula | src/plugins/amap/amapplugin.cpp:44-63 | Cell (x, y) of a tile layer lies at byte 17 + 2*W*H*n + 2*(y*W + x), where n counts the tile layers before it, so layer order is kept |
| AmapFormat.TileWordAt | src/plugins/amap/amapplugin.cpp:48-60 | The two bytes at that offset are the qint16 image of the cell: its tile id, or -1 when the cell is empty |
| AmapFormat.TileWordRead | src/plugins/amap/amapplugin.cpp:52-60 | Read back as a little-endian int16, those bytes give the tile id truncated to 16 bits; an empty cell is the bytes 0xFF 0xFF |
| AmapFormat.TileDataWordAt | src/plugins/amap/amapplugin.cpp:44-63 | Within the tile data, layer i's cell (x, y) follows the grids of the layers before layer i |
| AmapFormat.LayerWordAt | src/plugins/amap/amapplugin.cpp:48-61 | Value number y*W + x of a tile layer's grid is cell (x, y) |
| AmapFormat.CollisionByteAt | src/plugins/amap/amapplugin.cpp:42-65 | The collision section is the last W*H bytes; byte y*W + x of it is 1 if and only if some top-level tile layer has at (x, y) a tile with a collision object group, and 0 otherwise |
| AmapFormat.CollisionUnion | src/plugins/amap/amapplugin.cpp:55-57 | The collision bit of a layer stack is the OR of its parts, so a later layer never clears a bit an earlier one set |
| AmapFormat.LayerStep | src/plugins/amap/amapplugin.cpp:44-63 | Adding a layer appends its data and sets the bits of the cells where it is solid, keeping the others |
| AmapFormat.NonTileLayersOnlyCount | src/plugins/amap/amapplugin.cpp:44-45 | Object groups, image layers and group layers (with whatever they contain) can be exchanged for one another without changing a byte: only their number reaches the file |
| AmapFormat.TileDataAppend | src/plugins/amap/amapplugin.cpp:44-63 | The tile data and the tile-layer count of two concatenated layer lists are the concatenation and the sum of the parts |
| AmapFormat.TileDataSplit | src/plugins/amap/amapplugin.cpp:44-63 | The tile data is the data of the layers before layer i, then layer i's, then that of the layers after it |
| AmapFormat.LayerDataInTileData | src/plugins/amap/amapplugin.cpp:44-63 | Layer i's grid can be sliced out of the tile data right after the data of the layers before it |
| AmapFormat.CellsBytesAppend | src/plugins/amap/amapplugin.cpp:48-61 | Streaming two runs of cells one after the other gives the concatenation of their images |
| AmapFormat.CellsBytesAt | src/plugins/amap/amapplugin.cpp:53-59 | Bytes 2k and 2k+1 of a run of cells hold cell k |
| AmapFormat.GridRowsRowMajor | src/plugins/amap/amapplugin.cpp:48-62 | Streaming a grid row after row gives the image of its cells in row-major order |
| Grid.IndexFormula | src/plugins/amap/amapplugin.cpp:56 | Cell (x, y) has position y*W + x |
| Grid.IndexInjective | src/plugins/amap/amapplugin.cpp:56 | Distinct cells of the grid have distinct positions |
| Grid.AreaIsProduct | src/plugins/amap/amapplugin.cpp:42 | A grid of H rows of W cells has W*H cells |
| Grid.RowMajorAt | src/plugins/amap/amapplugin.cpp:48-49 | Position y*W + x of the row-major order holds cell (x, y) |
| Grid.RowMajorUnique | src/plugins/amap/amapplugin.cpp:42-65 | A W*H sequence whose position y*W + x holds cell (x, y), for every cell, is the row-major order of the grid |
| Bytes.U32RoundTrip | src/plugins/amap/amapplugin.cpp:40 | Reading back the 4 bytes of quint32(n) gives n modulo 2^32 |
| Bytes.Int16RoundTrip | src/plugins/amap/amapplugin.cpp:53-59 | Reading back the 2 bytes of qint16(v) gives v truncated to 16 bits; -1 is the bytes 0xFF 0xFF |
| Bytes.Wrap16 | src/plugins/amap/amapplugin.cpp:53 | qint16(v) lies in [-2^15, 2^15), differs from v by a multiple of 2^16, and is v itself when v fits |
| TextMode.UnchangedIffNoLineFeed | src/plugins/amap/amapplugin.cpp:30 | A text-mode device on Windows stores the bytes unchanged if and only if none of them is 0x0A |
| TextMode.Width10Corrupted | src/plugins/amap/amapplugin.cpp:30 | For a map 10 cells wide, the file stored in text mode on Windows is longer than the image, its byte 5 is 0x0D, and its width field no longer reads back as the width |

## Left out

- Qt I/O is reduced to the `SaveFile` class: the file system, `QSaveFile`'s temporary file and atomic rename, and `QDataStream` status. `savefile.h` is not part of this model. The class keeps only what `write` relies on: an open that can fail, bytes appended in order, and a commit that publishes them.
- Amap.SaveFile.Commit: always succeeds. The source ignores the result of `commit()` and returns true even when the commit fails, so `write` can report success for a file it did not replace; the model does not represent a failing commit.
- Amap.AmapPlugin.Write: the destination is a `SaveFile` passed in rather than a file name. Its `canOpen` flag stands for the outcome of the open call.
- The `QIODevice::Text` flag of the open is not applied in `Write`: the model streams raw bytes. What the flag does on Windows is stated separately in `text_mode.dfy` (see Findings). On other platforms it has no effect.
- The `options` argument is ignored by the source and is not modelled.
- Translation of the error messages (`QCoreApplication::translate`, `tr`) is left out. The model keeps the untranslated English strings.
- The plugin metadata and `Q_OBJECT` machinery are left out. `errorString()` is the `error` field.
- Map width and height are natural numbers. The source's `int` product `height * width` for the collision vector could overflow for huge maps; the model does not capture that overflow.
- How Tiled stores cells is abstracted: a tile layer is a function from (x, y) to an optional tile. Only the tile id and whether it has an object group matter.

## Findings

| source | as written | input that shows it | evidently intended | confidence | as-written member | corrected member |
|---|---|---|---|---|---|---|
| src/plugins/amap/amapplugin.cpp:30 | The binary file is opened with `QIODevice::WriteOnly \| QIODevice::Text`; on Windows a text-mode device stores every 0x0A byte as 0x0D 0x0A | Any map 10 cells wide: byte 5 (the low byte of the width) is 0x0A, so on Windows the file grows by a byte, byte 5 becomes 0x0D, the width reads back as a different number, and everything after it is shifted | Open in binary mode (`QIODevice::WriteOnly` alone), so that the file holds exactly the encoded image and the width reads back | medium (platform-dependent; not executed) | TextMode.Width10Corrupted | Amap.AmapPlugin.Write |
