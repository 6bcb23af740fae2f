# Overworld asset pipeline: tile deduplication and layout

This project models the two offline scripts that turn the overworld map
image of the game into assets.

- `tools/reconstruct_map.py` works on a map 16 screens wide and 8 screens tall. Each screen is 16 x 11 tiles of 16 pixels, and there are no separators between screens. The script:
  - cuts the map into tiles on a plain grid;
  - numbers each distinct tile the first time its row-by-row scan meets it;
  - rebuilds the map as a grid of 1-based tile ids (0 means "empty", and the first tile id of the Tiled map format is 1);
  - lays the distinct tiles out on a tileset sheet;
  - flattens the map for the Tiled document;
  - lists the screens of the overworld.
- `tools/create_tileset.py` works on a map 16 screens wide and 9 screens tall, with a 1-pixel separator line between neighbouring screens. The script:
  - visits every tile of every screen;
  - keeps each distinct tile once, in first-seen order;
  - pastes the distinct tiles 16 to a row onto a tileset image.

Each script keeps its own constants, in its own module.

Files:
- `raster.dfy` (`Raster`): the image model.
  - An image is rows of pixels of an arbitrary pixel type.
  - A crop cuts a square out of it. Outside the image a crop yields a fixed fill pixel, as the image library pads such crops.
  - A tile is the square of pixels itself. Two tiles are the same exactly when their pixels are.
  - A tileset sheet is a size plus the tile pasted at each top-left pixel.
- `grid.dfy` (`Grid`): the layout arithmetic.
  - Ceiling division.
  - Atlas cells at `(i mod cols, i div cols)`, with their bounds and disjointness.
  - Row-major concatenation of rows.
- `dedup.dfy` (`Deduplication`): `Dedup`, the first-occurrence deduplication both scan loops compute, and its properties.
- `wrappers.dfy` (`Wrappers`): `Option`, for operations that raise instead of returning.
- `reconstruct_map.dfy` (`ReconstructMap`) and `create_tileset.dfy` (`CreateTileset`): the two scripts.

The loops of the scripts are methods with loops. Each is proved against a specification function:
- `Scan`: the tiles in visiting order;
- `Dedup` of the scan;
- `Concat` of the rows;
- `CellOrigin` of an index.

Both scripts keep their tile dictionaries keyed by the tile. `tools/reconstruct_map.py` keys by the tile's raw bytes, which is the tile itself, so keying by the tile is exact there. `tools/create_tileset.py` keys by an MD5 digest of those bytes. For that script, keying by the tile assumes the digest has no collisions.

The Tiled document reports the tileset height as `(n div c + 1) * 16`. The sheet the same script draws is `ceil(n / c) * 16` tall. The model keeps the reported formula as written. The contract of `ReconstructMap.ReportedImageHeight` states two things about it:
- it always covers the sheet;
- it is exactly one tile row taller than the sheet when `c` divides `n`.

## Model

| member | source | states |
|---|---|---|
| Raster.CropInside | tools/reconstruct_map.py:35 | a crop box that lies inside the image is made of the image's own pixels, with no padding |
| Grid.CeilDiv | tools/create_tileset.py:106 | `(n + c - 1) div c` rows hold `n` tiles at `c` per row, and it is the least such row count |
| Grid.Cell | tools/reconstruct_map.py:114-115 | cell `(i mod c, i div c)` of the i-th tile has a column below `c` and gives back `i` as `row * c + column` |
| Grid.CellInjective | tools/reconstruct_map.py:113-116 | distinct indices get distinct cells |
| Grid.CellInside | tools/reconstruct_map.py:105 | every index below `n` lands on a row below `ceil(n / c)` |
| Grid.CellOriginInside | tools/reconstruct_map.py:105-116 | the 16-pixel square pasted for index `i < n` lies inside `c*16 x ceil(n/c)*16` pixels |
| Grid.CellOrigin | tools/reconstruct_map.py:114-116 | the paste position `((i mod c)*16, (i div c)*16)` of the i-th tile; its square fits within the `c*16` pixels of a sheet row |
| Grid.CellOriginDecodes | tools/create_tileset.py:117-118 | the paste position `((i mod 16)*16, (i div 16)*16)` lies on the 16-pixel grid and divides back to the tile's cell |
| Grid.CellOriginFresh | tools/create_tileset.py:115-119 | the i-th paste position differs from every earlier one, so no paste overwrites an earlier tile |
| Grid.CellOriginsInside | tools/reconstruct_map.py:105-116 | every one of the first `n` paste positions lies inside `c*16 x ceil(n/c)*16` pixels |
| Grid.CellSquaresDisjoint | tools/reconstruct_map.py:113-119 | the squares pasted for two distinct indices share no pixel |
| Grid.ConcatLength | tools/reconstruct_map.py:141-143 | flattening `h` rows of width `w` gives `w * h` entries |
| Grid.ConcatAt | tools/reconstruct_map.py:141-143 | after flattening, cell `(x, y)` of equal-width rows sits at `y * w + x` |
| Grid.ConcatCells | tools/reconstruct_map.py:141-143 | every cell `(x, y)` of equal-width rows is entry `y * w + x` of the flattened list |
| Deduplication.DedupSnoc | tools/reconstruct_map.py:64-67 | one scan step: an unseen tile is appended to the unique list, a seen tile leaves it unchanged |
| Deduplication.DedupElements | tools/reconstruct_map.py:58-67 | the unique list holds exactly the scanned tiles |
| Deduplication.DedupNoDuplicates | tools/reconstruct_map.py:58-67 | the unique list holds no tile twice |
| Deduplication.DedupFirstOccurrenceOrder | tools/create_tileset.py:80-97 | the unique list is ordered by where each tile first occurs in the scan |
| Deduplication.NoDuplicatesCard | tools/create_tileset.py:102-105 | a list without duplicates has as many elements as its set of elements |
| ReconstructMap.TilesX | tools/reconstruct_map.py:49-50 | `width div 16` is the number of whole tiles across: `n*16 <= width < (n+1)*16` |
| ReconstructMap.TilesY | tools/reconstruct_map.py:49-51 | `height div 16` is the number of whole tiles down: `n*16 <= height < (n+1)*16` |
| ReconstructMap.ExtractTile | tools/reconstruct_map.py:33-36 | the 16 x 16 crop at `(x, y)`; when its box lies inside an image with rows of equal width, pixel `(dx, dy)` is image pixel `(x+dx, y+dy)` |
| ReconstructMap.TileAt | tools/reconstruct_map.py:60-61 | the crop of grid cell `(tx, ty)` at pixel `(tx*16, ty*16)`; for every cell of the `(width div 16) x (height div 16)` grid it is made of the image's own pixels |
| ReconstructMap.Scan | tools/reconstruct_map.py:58-61 | the tiles in visiting order: `tiles_x * tiles_y` of them, with cell `(tx, ty)` at position `ty * tiles_x + tx` |
| ReconstructMap.TileRowsCells | tools/reconstruct_map.py:58-61 | the rows of tiles, joined, place cell `(tx, ty)` at `ty * tiles_x + tx` |
| ReconstructMap.IdsAreDense | tools/reconstruct_map.py:64-67 | over a duplicate-free list, ids that index it are exactly `0 .. len - 1`, with tile `i` numbered `i` |
| ReconstructMap.ScanStep | tools/reconstruct_map.py:64-67 | giving an unseen tile the id `len(unique_tiles)` and appending it keeps the ids indexing the list, and keeps the list the deduplicated scan |
| ReconstructMap.ExtractUniqueTiles | tools/reconstruct_map.py:44-70 | the unique list is the first-occurrence deduplication of the scan; `tile_to_id` maps each of its tiles to that tile's position and knows no other tile; the ids are exactly `0 .. len - 1`; every tile of the grid has an id |
| ReconstructMap.ScanIndexed | tools/reconstruct_map.py:50-51 | ids that index the deduplicated scan are dense and cover every tile of the `(width div 16) x (height div 16)` grid |
| ReconstructMap.BuildTileMap | tools/reconstruct_map.py:73-94 | the lookup succeeds exactly when every grid tile has an id; the result is then `tiles_y` rows of `tiles_x` entries, each the tile's id plus 1 |
| ReconstructMap.ReconstructTileMap | tools/reconstruct_map.py:269-275 | on one image, the tile map has the grid's shape; each entry `e` satisfies `1 <= e <= len(unique_tiles)` and `unique_tiles[e - 1]` is the tile in that cell; the unique list is duplicate-free and holds exactly the map's tiles |
| ReconstructMap.CreateTilesetImage | tools/reconstruct_map.py:97-124 | `num_rows = ceil(n / c)`; the sheet is `c*16 x num_rows*16`; tile `i` is pasted at `((i mod c)*16, (i div c)*16)`, inside the sheet; nothing else is pasted |
| ReconstructMap.ReportedImageHeight | tools/reconstruct_map.py:176 | the reported `(n div c + 1) * 16` is at least the sheet height `ceil(n/c) * 16`, and exceeds it by exactly one row when `c` divides `n` |
| ReconstructMap.FlattenTileMap | tools/reconstruct_map.py:141-143 | the flat data is the rows joined in order; for a non-empty map of equal-width rows it has `width * height` entries, with cell `(x, y)` at `y * width + x` |
| ReconstructMap.GenerateTiledMap | tools/reconstruct_map.py:137-177 | a document exists exactly when the map is non-empty and tiles-per-row is non-zero; its width, height, data, columns, tile count and image size are those of the map and the sheet |
| ReconstructMap.GenerateScreenMetadata | tools/reconstruct_map.py:216-247 | `16 * 8` screens; entry `k` has id `k`, grid position `(k mod 16, k div 16)`, tile and pixel origins scaled from it, and the fixed screen size; the totals match |
| ReconstructMap.ScreensPartitionMap | tools/reconstruct_map.py:222-235 | a map pixel lies on listed screen `k` exactly when `k` is its row-major screen number, so the screens tile the map without overlap |
| CreateTileset.ScreenPixelOrigin | tools/create_tileset.py:32-38 | a screen's origin `(sx*257, sy*177)`; each screen of the 16 x 9 grid lies inside the 4111 x 1592 expected image |
| CreateTileset.TilePixelOrigin | tools/create_tileset.py:43-46 | a tile's origin, the screen origin plus `(tx*16, ty*16)`; a tile of the 16 x 11 grid lies within its screen's 256 x 176 pixels |
| CreateTileset.ExtractTile | tools/create_tileset.py:41-53 | the 16 x 16 crop at the tile's origin; on an image of the expected size, every tile of every screen is made of the image's own pixels |
| CreateTileset.ScreenOriginStep | tools/create_tileset.py:32-38 | consecutive screen origins are one screen plus one separator apart on each axis |
| CreateTileset.TilePixelOwner | tools/create_tileset.py:41-53 | every pixel of a tile's crop is inside its own screen, is not a separator pixel, and decodes back to that screen and tile |
| CreateTileset.TileSquaresDisjoint | tools/create_tileset.py:41-53 | crops of two distinct (screen, tile) pairs share no pixel |
| CreateTileset.ExpectedSize | tools/create_tileset.py:72-73 | the expected image is 4111 x 1592 pixels |
| CreateTileset.CropsInsideExpectedImage | tools/create_tileset.py:88-92 | every crop of the scan stays inside the expected image, and the last tile of the last screen ends exactly at its corner |
| CreateTileset.VisitIndexDecodes | tools/create_tileset.py:88-91 | the four nested loops visit each (screen, tile) exactly once, at a position below the total that decodes back to it |
| CreateTileset.Scan | tools/create_tileset.py:88-92 | the 25344 tiles in visiting order, with tile `(tx, ty)` of screen `(sx, sy)` at visit number `((sy*16 + sx)*11 + ty)*16 + tx` |
| CreateTileset.VisitsDecode | tools/create_tileset.py:88-91 | every (screen, tile) of the map has a visit number below the total that decodes back to it |
| CreateTileset.VisitStep | tools/create_tileset.py:95-97 | registering an unseen tile and appending it to the order keeps the order the deduplicated scan and keeps the dictionary's keys equal to the order's elements |
| CreateTileset.ExtractUniqueTiles | tools/create_tileset.py:80-99 | `processed` ends at 16*9*16*11; `tile_order` is the first-occurrence deduplication of the scan; the dictionary's keys are exactly its elements |
| CreateTileset.RegisteredSize | tools/create_tileset.py:102-105 | the dictionary has as many entries as the duplicate-free order |
| CreateTileset.PasteTileset | tools/create_tileset.py:105-119 | `rows = ceil(n / 16)`; the image is `256 x rows*16`; the `i`-th tile of the order is pasted at `((i mod 16)*16, (i div 16)*16)`, inside the image when the order is no longer than the dictionary; nothing else is pasted |
| CreateTileset.BuildTileset | tools/create_tileset.py:71-119 | the size check holds exactly for a 4111 x 1592 image; `processed` is 25344; the order is the first-seen deduplication of the scan; the tileset is `256 x rows*16` with `rows = ceil(n/16)`; every distinct tile is pasted at its own cell inside it; nothing else is pasted |

## Left out

- Image library calls (open, convert, crop, tobytes, fromarray, new, paste, save) are foreign code. Images become rows of pixels, a crop becomes `Raster.Crop`, and a tileset becomes a `Raster.Sheet` that records what is pasted where. A crop reaching past the edge of the image is padded with one fill pixel; the library's actual padding colour is not modelled.
- The MD5 digest that `tools/create_tileset.py` keys tiles by is not modelled, and neither is what happens when two tiles share a digest. Its dictionary is keyed by the tile itself. `tools/reconstruct_map.py` keys by the raw bytes, which keying by the tile models exactly.
- The floating-point `ceil(sqrt(n))` that picks tiles-per-row is floating point. Tiles-per-row is a parameter of at least 1. The row count `ceil(n / c)` is modelled as integer ceiling division.
- The JSON serialisation, the file writes and the literal fields of the Tiled document are I/O and fixed data. `ReconstructMap.TiledMap` keeps only the computed fields.
- Logging, path building, directory creation and the size-mismatch warning message are plumbing. The size check itself is `CreateTileset.BuildTileset`'s `sizeMatches`.
- The game-side scripts (world grid, screen transitions, player) are not part of this model.
- CreateTileset.PasteTileset: requires every tile of the order to be a key of the dictionary. The script would raise a key error otherwise, and no run of the scan can produce that state (`CreateTileset.ExtractUniqueTiles` proves its keys are the order's elements).
