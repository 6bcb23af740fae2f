/**
 * The overworld map reconstruction script: it cuts the map image into
 * 16-pixel tiles on a plain grid (no separators), numbers each distinct tile
 * the first time the row-by-row scan meets it, rebuilds the map as a grid of
 * 1-based tile ids (0 is "empty", as in the Tiled map format where the first
 * tile id is 1), lays the distinct tiles out on a tileset sheet, flattens the
 * map for the Tiled document and lists the screens of a 16 x 8 overworld.
 */
module ReconstructMap {
  import opened Raster
  import opened Deduplication
  import opened Grid
  import opened Wrappers

  const TileSize: nat := 16
  const ScreenWidthTiles: nat := 16
  const ScreenHeightTiles: nat := 11
  const ScreensWide: nat := 16
  const ScreensTall: nat := 8

  /** Whole tiles across and down the map image; a partial edge tile is dropped. */
  function TilesX<P>(img: Image<P>): (n: nat)
    ensures n * TileSize <= Width(img) < (n + 1) * TileSize
  {
    Width(img) / TileSize
  }

  function TilesY<P>(img: Image<P>): (n: nat)
    ensures n * TileSize <= Height(img) < (n + 1) * TileSize
  {
    Height(img) / TileSize
  }

  /**
   * The tile whose top-left pixel is (x, y). When the tile's box lies inside
   * an image whose rows all have the same width, it is made of the image's
   * own pixels.
   */
  function ExtractTile<P>(img: Image<P>, fill: P, x: int, y: int): (tile: Tile<P>)
    ensures |tile| == TileSize && forall dy :: 0 <= dy < TileSize ==> |tile[dy]| == TileSize
    ensures
      && 0 <= x && x + TileSize <= Width(img) && 0 <= y && y + TileSize <= Height(img)
      && Rectangular(img, Width(img))
      ==> forall dy, dx :: 0 <= dy < TileSize && 0 <= dx < TileSize ==> tile[dy][dx] == img[y + dy][x + dx]
  {
    if 0 <= x && x + TileSize <= Width(img) && 0 <= y && y + TileSize <= Height(img)
      && Rectangular(img, Width(img))
    then
      CropInside(img, x, y, TileSize, fill);
      Crop(img, x, y, TileSize, fill)
    else
      Crop(img, x, y, TileSize, fill)
  }

  /**
   * The tile of grid cell (tx, ty). Every cell of the
   * `TilesX(img) x TilesY(img)` grid of an image whose rows all have the same
   * width is cut from the image's own pixels.
   */
  function TileAt<P>(img: Image<P>, fill: P, tx: int, ty: int): (tile: Tile<P>)
    ensures |tile| == TileSize && forall dy :: 0 <= dy < TileSize ==> |tile[dy]| == TileSize
    ensures
      && 0 <= tx < TilesX(img) && 0 <= ty < TilesY(img) && Rectangular(img, Width(img))
      ==> forall dy, dx :: 0 <= dy < TileSize && 0 <= dx < TileSize ==>
            tile[dy][dx] == img[ty * TileSize + dy][tx * TileSize + dx]
  {
    ExtractTile(img, fill, tx * TileSize, ty * TileSize)
  }

  /** The map as rows of tiles. */
  function TileRows<P>(img: Image<P>, fill: P): seq<seq<Tile<P>>>
  {
    seq(TilesY(img), ty => seq(TilesX(img), tx => TileAt(img, fill, tx, ty)))
  }

  /**
   * Every tile of the map in scan order, row by row and left to right: the
   * scan meets cell (tx, ty) at position `ty * TilesX(img) + tx`.
   */
  function Scan<P>(img: Image<P>, fill: P): (tiles: seq<Tile<P>>)
    ensures |tiles| == TilesX(img) * TilesY(img)
    ensures forall tx, ty :: 0 <= tx < TilesX(img) && 0 <= ty < TilesY(img) ==>
      At(tiles, ty * TilesX(img) + tx, TileAt(img, fill, tx, ty))
  {
    TileRowsCells(img, fill);
    Concat(TileRows(img, fill))
  }

  /** The rows of tiles flatten to a scan that meets cell (tx, ty) at `ty * TilesX(img) + tx`. */
  lemma TileRowsCells<P>(img: Image<P>, fill: P)
    ensures |Concat(TileRows(img, fill))| == TilesX(img) * TilesY(img)
    ensures forall tx, ty :: 0 <= tx < TilesX(img) && 0 <= ty < TilesY(img) ==>
      At(Concat(TileRows(img, fill)), ty * TilesX(img) + tx, TileAt(img, fill, tx, ty))
  {
    var rows := TileRows(img, fill);
    var w := TilesX(img);
    assert Rectangular(rows, w);
    ConcatLength(rows, w);
    ConcatCells(rows, w);
    forall tx, ty | 0 <= tx < w && 0 <= ty < TilesY(img)
      ensures At(Concat(rows), ty * w + tx, TileAt(img, fill, tx, ty))
    {
      assert rows[ty][tx] == TileAt(img, fill, tx, ty);
    }
  }

  /** `ids` gives every tile of `tiles` its position there, and knows no other tile. */
  ghost predicate IndexedBy<T(!new)>(ids: map<T, nat>, tiles: seq<T>)
  {
    && (forall t :: t in ids <==> t in tiles)
    && (forall t :: t in ids ==> ids[t] < |tiles| && tiles[ids[t]] == t)
  }

  /** Over a list without duplicates, such ids are exactly 0 .. |tiles| - 1. */
  lemma IdsAreDense<T(!new)>(ids: map<T, nat>, tiles: seq<T>)
    requires IndexedBy(ids, tiles) && NoDuplicates(tiles)
    ensures forall i :: 0 <= i < |tiles| ==> tiles[i] in ids && ids[tiles[i]] == i
    ensures forall v :: v in ids.Values <==> 0 <= v < |tiles|
  {
    forall i | 0 <= i < |tiles|
      ensures tiles[i] in ids && ids[tiles[i]] == i
    {
      var j := ids[tiles[i]];
      assert tiles[j] == tiles[i];
    }
    forall v | v in ids.Values ensures 0 <= v < |tiles| {
      var t :| t in ids && ids[t] == v;
    }
    forall i | 0 <= i < |tiles| ensures i in ids.Values {
      assert ids[tiles[i]] == i;
    }
  }

  /**
   * One step of the scan: a tile without an id gets the next one and joins
   * the unique list; the list stays the deduplicated scan so far.
   */
  lemma ScanStep<T(!new)>(ids: map<T, nat>, tiles: seq<T>, scanned: seq<T>, t: T)
    requires tiles == Dedup(scanned) && IndexedBy(ids, tiles)
    ensures t !in ids ==> IndexedBy(ids[t := |tiles|], tiles + [t]) && tiles + [t] == Dedup(scanned + [t])
    ensures t in ids ==> tiles == Dedup(scanned + [t])
  {
    DedupSnoc(scanned, t);
    if t !in ids {
      var ids', tiles' := ids[t := |tiles|], tiles + [t];
      forall u | u in ids' ensures ids'[u] < |tiles'| && tiles'[ids'[u]] == u {
        if u != t {
          assert tiles'[ids[u]] == tiles[ids[u]];
        }
      }
    }
  }

  /**
   * Scans the map row by row; a tile not seen before gets the next free id
   * (the number of unique tiles so far) and is appended to the unique list.
   */
  method ExtractUniqueTiles<P(==,!new)>(img: Image<P>, fill: P)
    returns (tileToId: map<Tile<P>, nat>, uniqueTiles: seq<Tile<P>>)
    ensures uniqueTiles == Dedup(Scan(img, fill))
    ensures IndexedBy(tileToId, uniqueTiles)
    ensures forall v :: v in tileToId.Values <==> 0 <= v < |uniqueTiles|
    ensures forall tx, ty :: 0 <= tx < TilesX(img) && 0 <= ty < TilesY(img) ==>
      TileAt(img, fill, tx, ty) in tileToId
  {
    var width, height := Width(img), Height(img);
    var tilesX, tilesY := width / TileSize, height / TileSize;
    tileToId, uniqueTiles := map[], [];
    ghost var rows := TileRows(img, fill);
    ghost var scanned: seq<Tile<P>> := [];
    for ty := 0 to tilesY
      invariant scanned == Concat(rows[..ty])
      invariant uniqueTiles == Dedup(scanned)
      invariant IndexedBy(tileToId, uniqueTiles)
    {
      for tx := 0 to tilesX
        invariant scanned == Concat(rows[..ty]) + rows[ty][..tx]
        invariant uniqueTiles == Dedup(scanned)
        invariant IndexedBy(tileToId, uniqueTiles)
      {
        var px, py := tx * TileSize, ty * TileSize;
        var tile := ExtractTile(img, fill, px, py);
        ScanStep(tileToId, uniqueTiles, scanned, tile);
        if tile !in tileToId {
          var tileId := |uniqueTiles|;
          tileToId := tileToId[tile := tileId];
          uniqueTiles := uniqueTiles + [tile];
        }
        assert rows[ty][tx] == tile;
        ScanPrefixStep(rows, ty, tx);
        scanned := scanned + [tile];
      }
      ScanRowDone(rows, ty);
    }
    assert rows[..tilesY] == rows;
    ScanIndexed(img, fill, tileToId, uniqueTiles);
  }

  /** Numbering the deduplicated scan numbers every tile of the map, densely. */
  lemma ScanIndexed<P(!new)>(img: Image<P>, fill: P, ids: map<Tile<P>, nat>, tiles: seq<Tile<P>>)
    requires tiles == Dedup(Scan(img, fill)) && IndexedBy(ids, tiles)
    ensures forall v :: v in ids.Values <==> 0 <= v < |tiles|
    ensures forall tx, ty :: 0 <= tx < TilesX(img) && 0 <= ty < TilesY(img) ==>
      TileAt(img, fill, tx, ty) in ids
  {
    DedupElements(Scan(img, fill));
    DedupNoDuplicates(Scan(img, fill));
    IdsAreDense(ids, tiles);
    forall tx, ty | 0 <= tx < TilesX(img) && 0 <= ty < TilesY(img)
      ensures TileAt(img, fill, tx, ty) in ids
    {
      assert At(Scan(img, fill), ty * TilesX(img) + tx, TileAt(img, fill, tx, ty));
    }
  }

  /**
   * Rebuilds the map as rows of 1-based tile ids. A tile missing from
   * `tileToId` raises a lookup error in the script; here it yields None.
   */
  method BuildTileMap<P(==,!new)>(img: Image<P>, fill: P, tileToId: map<Tile<P>, nat>)
    returns (r: Option<seq<seq<nat>>>)
    ensures r.Some? <==> forall tx, ty :: 0 <= tx < TilesX(img) && 0 <= ty < TilesY(img) ==>
      TileAt(img, fill, tx, ty) in tileToId
    ensures r.Some? ==> |r.value| == TilesY(img) && Rectangular(r.value, TilesX(img))
    ensures r.Some? ==> forall tx, ty :: 0 <= tx < TilesX(img) && 0 <= ty < TilesY(img) ==>
      r.value[ty][tx] == tileToId[TileAt(img, fill, tx, ty)] + 1
  {
    var width, height := Width(img), Height(img);
    var tilesX, tilesY := width / TileSize, height / TileSize;
    var tilemap: seq<seq<nat>> := [];
    for ty := 0 to tilesY
      invariant |tilemap| == ty && Rectangular(tilemap, tilesX)
      invariant forall x, y :: 0 <= x < tilesX && 0 <= y < ty ==>
        TileAt(img, fill, x, y) in tileToId && tilemap[y][x] == tileToId[TileAt(img, fill, x, y)] + 1
    {
      var row: seq<nat> := [];
      for tx := 0 to tilesX
        invariant |row| == tx
        invariant forall x :: 0 <= x < tx ==>
          TileAt(img, fill, x, ty) in tileToId && row[x] == tileToId[TileAt(img, fill, x, ty)] + 1
      {
        var px, py := tx * TileSize, ty * TileSize;
        var tile := ExtractTile(img, fill, px, py);
        if tile !in tileToId {
          assert TileAt(img, fill, tx, ty) !in tileToId;
          return None;
        }
        var tileId := tileToId[tile];
        row := row + [tileId + 1];
      }
      tilemap := tilemap + [row];
    }
    return Some(tilemap);
  }

  /**
   * The map's two passes run on the same image: the lookup never fails, and
   * every cell's id leads back, through the unique-tile list, to the tile in
   * that cell.
   */
  method ReconstructTileMap<P(==,!new)>(img: Image<P>, fill: P)
    returns (tilemap: seq<seq<nat>>, uniqueTiles: seq<Tile<P>>)
    ensures |tilemap| == TilesY(img) && Rectangular(tilemap, TilesX(img))
    ensures forall tx, ty :: 0 <= tx < TilesX(img) && 0 <= ty < TilesY(img) ==>
      1 <= tilemap[ty][tx] <= |uniqueTiles| && uniqueTiles[tilemap[ty][tx] - 1] == TileAt(img, fill, tx, ty)
    ensures NoDuplicates(uniqueTiles)
    ensures forall t :: t in uniqueTiles <==> t in Scan(img, fill)
  {
    var tileToId;
    tileToId, uniqueTiles := ExtractUniqueTiles(img, fill);
    var r := BuildTileMap(img, fill, tileToId);
    tilemap := r.value;
    forall tx, ty | 0 <= tx < TilesX(img) && 0 <= ty < TilesY(img)
      ensures 1 <= tilemap[ty][tx] <= |uniqueTiles| && uniqueTiles[tilemap[ty][tx] - 1] == TileAt(img, fill, tx, ty)
    {
      var t := TileAt(img, fill, tx, ty);
      assert t in tileToId && tilemap[ty][tx] == tileToId[t] + 1;
    }
    DedupNoDuplicates(Scan(img, fill));
    DedupElements(Scan(img, fill));
  }

  /**
   * Lays the unique tiles out `tilesPerRow` to a row, tile i at cell
   * (i mod tilesPerRow, i div tilesPerRow), on a sheet just tall enough.
   */
  method CreateTilesetImage<T>(uniqueTiles: seq<T>, tilesPerRow: nat)
    returns (sheet: Sheet<T>, numRows: nat)
    requires tilesPerRow >= 1
    ensures numRows == CeilDiv(|uniqueTiles|, tilesPerRow)
    ensures sheet.width == tilesPerRow * TileSize && sheet.height == numRows * TileSize
    ensures forall i :: 0 <= i < |uniqueTiles| ==>
      && CellOrigin(i, tilesPerRow, TileSize) in sheet.pasted
      && sheet.pasted[CellOrigin(i, tilesPerRow, TileSize)] == uniqueTiles[i]
      && CellOrigin(i, tilesPerRow, TileSize).0 + TileSize <= sheet.width
      && CellOrigin(i, tilesPerRow, TileSize).1 + TileSize <= sheet.height
    ensures forall p :: p in sheet.pasted ==>
      exists i :: 0 <= i < |uniqueTiles| && p == CellOrigin(i, tilesPerRow, TileSize)
  {
    var numTiles := |uniqueTiles|;
    numRows := CeilDiv(numTiles, tilesPerRow);
    var outWidth, outHeight := tilesPerRow * TileSize, numRows * TileSize;
    var pasted: map<(nat, nat), T> := map[];
    for idx := 0 to numTiles
      invariant forall i :: 0 <= i < idx ==>
        CellOrigin(i, tilesPerRow, TileSize) in pasted && pasted[CellOrigin(i, tilesPerRow, TileSize)] == uniqueTiles[i]
      invariant forall p :: p in pasted ==> exists i :: 0 <= i < idx && p == CellOrigin(i, tilesPerRow, TileSize)
    {
      var tx, ty := idx % tilesPerRow, idx / tilesPerRow;
      var px, py := tx * TileSize, ty * TileSize;
      CellOriginFresh(idx, tilesPerRow, TileSize);
      assert (px, py) == CellOrigin(idx, tilesPerRow, TileSize);
      pasted := pasted[(px, py) := uniqueTiles[idx]];
    }
    sheet := Sheet(outWidth, outHeight, pasted);
    CellOriginsInside(numTiles, tilesPerRow, TileSize);
  }

  /**
   * The tileset height the Tiled document reports, `(n div c + 1)` rows of
   * 16 pixels: it covers every row of the `CeilDiv(n, c)`-row tileset sheet,
   * and is one row more than the sheet exactly when c divides n.
   */
  function ReportedImageHeight(numTiles: nat, tilesPerRow: nat): (height: nat)
    requires tilesPerRow >= 1
    ensures height >= CeilDiv(numTiles, tilesPerRow) * TileSize
    ensures height == CeilDiv(numTiles, tilesPerRow) * TileSize + (if numTiles % tilesPerRow == 0 then TileSize else 0)
  {
    var q, r := numTiles / tilesPerRow, numTiles % tilesPerRow;
    if r == 0 then
      DivModUnique(numTiles + tilesPerRow - 1, tilesPerRow, q, tilesPerRow - 1);
      (q + 1) * TileSize
    else
      DivModUnique(numTiles + tilesPerRow - 1, tilesPerRow, q + 1, r - 1);
      (q + 1) * TileSize
  }

  /** The computed fields of the Tiled map document (its literal fields are fixed). */
  datatype TiledMap = TiledMap(
    width: nat, height: nat, data: seq<nat>,
    columns: nat, imageWidth: nat, imageHeight: nat, tileCount: nat)

  /**
   * Flattens the tilemap row after row. When every row is as wide as the
   * first, cell (x, y) lands at y * width + x.
   */
  method FlattenTileMap(tilemap: seq<seq<nat>>) returns (flatData: seq<nat>)
    ensures flatData == Concat(tilemap)
    ensures |tilemap| > 0 && Rectangular(tilemap, |tilemap[0]|) ==>
      && |flatData| == |tilemap[0]| * |tilemap|
      && forall x, y :: 0 <= x < |tilemap[0]| && 0 <= y < |tilemap| ==>
           At(flatData, y * |tilemap[0]| + x, tilemap[y][x])
  {
    flatData := [];
    for k := 0 to |tilemap|
      invariant flatData == Concat(tilemap[..k])
    {
      PrefixSnoc(tilemap, k);
      flatData := flatData + tilemap[k];
    }
    assert tilemap[..|tilemap|] == tilemap;
    if |tilemap| > 0 && Rectangular(tilemap, |tilemap[0]|) {
      ConcatLength(tilemap, |tilemap[0]|);
      ConcatCells(tilemap, |tilemap[0]|);
    }
  }

  /**
   * Builds the Tiled document's computed fields. An empty tilemap raises an
   * index error and a zero tiles-per-row a division error; both yield None.
   */
  method GenerateTiledMap(tilemap: seq<seq<nat>>, tilesPerRow: nat, numTiles: nat)
    returns (r: Option<TiledMap>)
    ensures r.Some? <==> |tilemap| > 0 && tilesPerRow > 0
    ensures r.Some? ==>
      && r.value.width == |tilemap[0]| && r.value.height == |tilemap|
      && r.value.data == Concat(tilemap)
      && r.value.columns == tilesPerRow && r.value.tileCount == numTiles
      && r.value.imageWidth == tilesPerRow * TileSize
      && r.value.imageHeight == ReportedImageHeight(numTiles, tilesPerRow)
  {
    if |tilemap| == 0 {
      return None;
    }
    var mapWidth, mapHeight := |tilemap[0]|, |tilemap|;
    var flatData := FlattenTileMap(tilemap);
    if tilesPerRow == 0 {
      return None;
    }
    r := Some(TiledMap(mapWidth, mapHeight, flatData, tilesPerRow,
      tilesPerRow * TileSize, (numTiles / tilesPerRow + 1) * TileSize, numTiles));
  }

  /** One entry of the screen list. */
  datatype ScreenInfo = ScreenInfo(
    id: nat, gridX: nat, gridY: nat, tileX: nat, tileY: nat,
    pixelX: nat, pixelY: nat, widthTiles: nat, heightTiles: nat)

  /** The screen metadata document. */
  datatype ScreenMetadata = ScreenMetadata(
    tileSize: nat, screenWidthTiles: nat, screenHeightTiles: nat,
    screenWidthPixels: nat, screenHeightPixels: nat,
    totalScreensWide: nat, totalScreensTall: nat, totalScreens: nat,
    screens: seq<ScreenInfo>)

  /** Entry k describes the k-th screen in row-major order of the screen grid. */
  ghost predicate DescribesScreen(s: ScreenInfo, k: nat)
  {
    && s.id == k
    && s.gridX == k % ScreensWide && s.gridY == k / ScreensWide
    && s.tileX == s.gridX * ScreenWidthTiles && s.tileY == s.gridY * ScreenHeightTiles
    && s.pixelX == s.tileX * TileSize && s.pixelY == s.tileY * TileSize
    && s.widthTiles == ScreenWidthTiles && s.heightTiles == ScreenHeightTiles
  }

  /** Lists every screen of the overworld, row by row. */
  method GenerateScreenMetadata() returns (m: ScreenMetadata)
    ensures |m.screens| == m.totalScreens == ScreensWide * ScreensTall
    ensures forall k :: 0 <= k < |m.screens| ==> DescribesScreen(m.screens[k], k)
    ensures m.totalScreensWide == ScreensWide && m.totalScreensTall == ScreensTall
    ensures m.screenWidthPixels == m.screenWidthTiles * m.tileSize
    ensures m.screenHeightPixels == m.screenHeightTiles * m.tileSize
    ensures m.tileSize == TileSize
    ensures m.screenWidthTiles == ScreenWidthTiles && m.screenHeightTiles == ScreenHeightTiles
  {
    var screens: seq<ScreenInfo> := [];
    for sy := 0 to ScreensTall
      invariant |screens| == sy * ScreensWide
      invariant forall k :: 0 <= k < |screens| ==> DescribesScreen(screens[k], k)
    {
      for sx := 0 to ScreensWide
        invariant |screens| == sy * ScreensWide + sx
        invariant forall k :: 0 <= k < |screens| ==> DescribesScreen(screens[k], k)
      {
        var screenId := sy * ScreensWide + sx;
        DivModUnique(screenId, ScreensWide, sy, sx);
        screens := screens + [ScreenInfo(
          screenId, sx, sy,
          sx * ScreenWidthTiles, sy * ScreenHeightTiles,
          sx * ScreenWidthTiles * TileSize, sy * ScreenHeightTiles * TileSize,
          ScreenWidthTiles, ScreenHeightTiles)];
      }
    }
    m := ScreenMetadata(
      TileSize, ScreenWidthTiles, ScreenHeightTiles,
      ScreenWidthTiles * TileSize, ScreenHeightTiles * TileSize,
      ScreensWide, ScreensTall, ScreensWide * ScreensTall, screens);
  }

  /** The pixel (x, y) lies on screen s. */
  predicate Contains(s: ScreenInfo, x: int, y: int)
  {
    && s.pixelX <= x < s.pixelX + s.widthTiles * TileSize
    && s.pixelY <= y < s.pixelY + s.heightTiles * TileSize
  }

  /**
   * The listed screens tile the map: a map pixel lies on screen k exactly
   * when k is its row-major screen number.
   */
  lemma ScreensPartitionMap(s: ScreenInfo, k: nat, x: nat, y: nat)
    requires DescribesScreen(s, k) && k < ScreensWide * ScreensTall
    requires x < ScreensWide * ScreenWidthTiles * TileSize
    requires y < ScreensTall * ScreenHeightTiles * TileSize
    ensures Contains(s, x, y) <==>
      k == (y / (ScreenHeightTiles * TileSize)) * ScreensWide + x / (ScreenWidthTiles * TileSize)
  {
    var w, h := ScreenWidthTiles * TileSize, ScreenHeightTiles * TileSize;
    var gx, gy := x / w, y / h;
    assert s.pixelX == s.gridX * w && s.pixelY == s.gridY * h;
    DivModUnique(k, ScreensWide, s.gridY, s.gridX);
    if Contains(s, x, y) {
      DivModUnique(x, w, s.gridX, x - s.gridX * w);
      DivModUnique(y, h, s.gridY, y - s.gridY * h);
    }
    if k == gy * ScreensWide + gx {
      assert gx < ScreensWide;
      DivModUnique(k, ScreensWide, gy, gx);
      assert x == gx * w + x % w;
      assert y == gy * h + y % h;
    }
  }
}
