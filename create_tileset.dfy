/**
 * The tileset extraction script: the overworld image is 16 screens wide and
 * 9 screens tall, each screen 16 x 11 tiles of 16 pixels, with a 1-pixel
 * separator line between neighbouring screens. The script visits every tile
 * of every screen, keeps each distinct tile once in first-seen order, and
 * pastes the distinct tiles 16 to a row onto a new tileset image.
 */
module CreateTileset {
  import opened Raster
  import opened Deduplication
  import opened Grid

  const TileSize: nat := 16
  const ScreenTilesX: nat := 16
  const ScreenTilesY: nat := 11
  const ScreensX: nat := 16
  const ScreensY: nat := 9
  const SeparatorWidth: nat := 1

  const ScreenWidthPx: nat := ScreenTilesX * TileSize
  const ScreenHeightPx: nat := ScreenTilesY * TileSize

  const OutputTilesPerRow: nat := 16

  /** The image size the script expects: all screens plus the separators between them. */
  const ExpectedWidth: nat := ScreensX * ScreenWidthPx + (ScreensX - 1) * SeparatorWidth
  const ExpectedHeight: nat := ScreensY * ScreenHeightPx + (ScreensY - 1) * SeparatorWidth

  /** Number of tile visits of the scan. */
  const TotalTiles: nat := ScreensX * ScreensY * ScreenTilesX * ScreenTilesY

  /**
   * The top-left pixel of a screen, counting the separators before it; a
   * screen of the 16 x 9 grid lies within an image of the expected size.
   */
  function ScreenPixelOrigin(screenX: nat, screenY: nat): (origin: (nat, nat))
    ensures screenX < ScreensX ==> origin.0 + ScreenWidthPx <= ExpectedWidth
    ensures screenY < ScreensY ==> origin.1 + ScreenHeightPx <= ExpectedHeight
  {
    (screenX * (ScreenWidthPx + SeparatorWidth), screenY * (ScreenHeightPx + SeparatorWidth))
  }

  /**
   * The top-left pixel of tile (tileX, tileY) of a screen; a tile of the
   * screen's 16 x 11 grid lies within the screen's 256 x 176 pixels.
   */
  function TilePixelOrigin(screenX: nat, screenY: nat, tileX: nat, tileY: nat): (origin: (nat, nat))
    ensures tileX < ScreenTilesX ==>
      ScreenPixelOrigin(screenX, screenY).0 <= origin.0 &&
      origin.0 + TileSize <= ScreenPixelOrigin(screenX, screenY).0 + ScreenWidthPx
    ensures tileY < ScreenTilesY ==>
      ScreenPixelOrigin(screenX, screenY).1 <= origin.1 &&
      origin.1 + TileSize <= ScreenPixelOrigin(screenX, screenY).1 + ScreenHeightPx
  {
    var (originX, originY) := ScreenPixelOrigin(screenX, screenY);
    (originX + tileX * TileSize, originY + tileY * TileSize)
  }

  /**
   * The 16 x 16 crop of a tile. On an image of the expected size, the crop of
   * any tile of any screen is made of the image's own pixels, never padding.
   */
  function ExtractTile<P>(img: Image<P>, fill: P, screenX: nat, screenY: nat, tileX: nat, tileY: nat): (tile: Tile<P>)
    ensures |tile| == TileSize && forall dy :: 0 <= dy < TileSize ==> |tile[dy]| == TileSize
    ensures
      && screenX < ScreensX && screenY < ScreensY && tileX < ScreenTilesX && tileY < ScreenTilesY
      && |img| == ExpectedHeight && Rectangular(img, ExpectedWidth)
      ==> var (x, y) := TilePixelOrigin(screenX, screenY, tileX, tileY);
          forall dy, dx :: 0 <= dy < TileSize && 0 <= dx < TileSize ==> tile[dy][dx] == img[y + dy][x + dx]
  {
    var (x, y) := TilePixelOrigin(screenX, screenY, tileX, tileY);
    if screenX < ScreensX && screenY < ScreensY && tileX < ScreenTilesX && tileY < ScreenTilesY
      && |img| == ExpectedHeight && Rectangular(img, ExpectedWidth)
    then
      CropInside(img, x, y, TileSize, fill);
      Crop(img, x, y, TileSize, fill)
    else
      Crop(img, x, y, TileSize, fill)
  }

  /** Consecutive screens sit one screen plus one separator apart. */
  lemma ScreenOriginStep(screenX: nat, screenY: nat)
    ensures ScreenPixelOrigin(screenX + 1, screenY).0 ==
      ScreenPixelOrigin(screenX, screenY).0 + ScreenWidthPx + SeparatorWidth
    ensures ScreenPixelOrigin(screenX, screenY + 1).1 ==
      ScreenPixelOrigin(screenX, screenY).1 + ScreenHeightPx + SeparatorWidth
  {
  }

  /** Separator columns and rows: the pixels just after each screen's extent. */
  predicate IsSeparatorColumn(x: nat)
  {
    x % (ScreenWidthPx + SeparatorWidth) >= ScreenWidthPx
  }

  predicate IsSeparatorRow(y: nat)
  {
    y % (ScreenHeightPx + SeparatorWidth) >= ScreenHeightPx
  }

  /** The screen and tile a pixel belongs to, reading the layout backwards. */
  function PixelOwner(x: nat, y: nat): (nat, nat, nat, nat)
  {
    var strideX, strideY := ScreenWidthPx + SeparatorWidth, ScreenHeightPx + SeparatorWidth;
    (x / strideX, y / strideY, (x % strideX) / TileSize, (y % strideY) / TileSize)
  }

  /**
   * Every pixel of a tile's 16 x 16 crop lies inside its own screen, off the
   * separators, and belongs to that screen and tile.
   */
  lemma TilePixelOwner(screenX: nat, screenY: nat, tileX: nat, tileY: nat, dx: nat, dy: nat)
    requires tileX < ScreenTilesX && tileY < ScreenTilesY && dx < TileSize && dy < TileSize
    ensures var (x, y) := TilePixelOrigin(screenX, screenY, tileX, tileY);
      && ScreenPixelOrigin(screenX, screenY).0 <= x + dx < ScreenPixelOrigin(screenX, screenY).0 + ScreenWidthPx
      && ScreenPixelOrigin(screenX, screenY).1 <= y + dy < ScreenPixelOrigin(screenX, screenY).1 + ScreenHeightPx
      && !IsSeparatorColumn(x + dx) && !IsSeparatorRow(y + dy)
      && PixelOwner(x + dx, y + dy) == (screenX, screenY, tileX, tileY)
  {
    var (x, y) := TilePixelOrigin(screenX, screenY, tileX, tileY);
    var strideX, strideY := ScreenWidthPx + SeparatorWidth, ScreenHeightPx + SeparatorWidth;
    DivModUnique(x + dx, strideX, screenX, tileX * TileSize + dx);
    DivModUnique(y + dy, strideY, screenY, tileY * TileSize + dy);
    DivModUnique(tileX * TileSize + dx, TileSize, tileX, dx);
    DivModUnique(tileY * TileSize + dy, TileSize, tileY, dy);
  }

  /** Crops of two different tiles never share a pixel. */
  lemma TileSquaresDisjoint(a: (nat, nat, nat, nat), b: (nat, nat, nat, nat), dx: nat, dy: nat, ex: nat, ey: nat)
    requires a != b
    requires a.2 < ScreenTilesX && a.3 < ScreenTilesY && b.2 < ScreenTilesX && b.3 < ScreenTilesY
    requires dx < TileSize && dy < TileSize && ex < TileSize && ey < TileSize
    ensures TilePixelOrigin(a.0, a.1, a.2, a.3).0 + dx != TilePixelOrigin(b.0, b.1, b.2, b.3).0 + ex
         || TilePixelOrigin(a.0, a.1, a.2, a.3).1 + dy != TilePixelOrigin(b.0, b.1, b.2, b.3).1 + ey
  {
    TilePixelOwner(a.0, a.1, a.2, a.3, dx, dy);
    TilePixelOwner(b.0, b.1, b.2, b.3, ex, ey);
  }

  /** The expected size is the 4111 x 1592 of the source map. */
  lemma ExpectedSize()
    ensures ExpectedWidth == 4111 && ExpectedHeight == 1592
  {
  }

  /**
   * Every crop of the scan stays inside an image of the expected size, and
   * the last tile of the last screen ends exactly at its corner.
   */
  lemma CropsInsideExpectedImage(screenX: nat, screenY: nat, tileX: nat, tileY: nat)
    requires screenX < ScreensX && screenY < ScreensY && tileX < ScreenTilesX && tileY < ScreenTilesY
    ensures TilePixelOrigin(screenX, screenY, tileX, tileY).0 + TileSize <= ExpectedWidth
    ensures TilePixelOrigin(screenX, screenY, tileX, tileY).1 + TileSize <= ExpectedHeight
    ensures TilePixelOrigin(ScreensX - 1, ScreensY - 1, ScreenTilesX - 1, ScreenTilesY - 1) ==
      (ExpectedWidth - TileSize, ExpectedHeight - TileSize)
  {
  }

  /** Visit k of the scan: tiles fastest, then tile rows, screens, screen rows. */
  function ScanTileX(k: nat): nat { k % ScreenTilesX }
  function ScanTileY(k: nat): nat { (k / ScreenTilesX) % ScreenTilesY }
  function ScanScreenX(k: nat): nat { (k / (ScreenTilesX * ScreenTilesY)) % ScreensX }
  function ScanScreenY(k: nat): nat { k / (ScreenTilesX * ScreenTilesY * ScreensX) }

  /** The visit number of a tile in the four nested loops. */
  function VisitIndex(screenX: nat, screenY: nat, tileX: nat, tileY: nat): nat
  {
    ((screenY * ScreensX + screenX) * ScreenTilesY + tileY) * ScreenTilesX + tileX
  }

  /**
   * The tiles in the order the four nested loops visit them: the crop of
   * tile (tileX, tileY) of screen (screenX, screenY) is visit number
   * VisitIndex(screenX, screenY, tileX, tileY).
   */
  function Scan<P>(img: Image<P>, fill: P): (tiles: seq<Tile<P>>)
    ensures |tiles| == TotalTiles
    ensures forall screenX: nat, screenY: nat, tileX: nat, tileY: nat ::
      screenX < ScreensX && screenY < ScreensY && tileX < ScreenTilesX && tileY < ScreenTilesY ==>
        && VisitIndex(screenX, screenY, tileX, tileY) < |tiles|
        && tiles[VisitIndex(screenX, screenY, tileX, tileY)] == ExtractTile(img, fill, screenX, screenY, tileX, tileY)
  {
    VisitsDecode();
    seq(TotalTiles, k requires 0 <= k => ExtractTile(img, fill, ScanScreenX(k), ScanScreenY(k), ScanTileX(k), ScanTileY(k)))
  }

  /** The loops visit each (screen, tile) once, at a position the scan decodes back. */
  lemma VisitIndexDecodes(screenX: nat, screenY: nat, tileX: nat, tileY: nat)
    requires screenX < ScreensX && screenY < ScreensY && tileX < ScreenTilesX && tileY < ScreenTilesY
    ensures VisitIndex(screenX, screenY, tileX, tileY) < TotalTiles
    ensures var k := VisitIndex(screenX, screenY, tileX, tileY);
      ScanScreenX(k) == screenX && ScanScreenY(k) == screenY && ScanTileX(k) == tileX && ScanTileY(k) == tileY
  {
    var k := VisitIndex(screenX, screenY, tileX, tileY);
    var screen := screenY * ScreensX + screenX;
    DivModUnique(k, ScreenTilesX, screen * ScreenTilesY + tileY, tileX);
    DivModUnique(screen * ScreenTilesY + tileY, ScreenTilesY, screen, tileY);
    DivModUnique(k, ScreenTilesX * ScreenTilesY, screen, tileY * ScreenTilesX + tileX);
    DivModUnique(screen, ScreensX, screenY, screenX);
    DivModUnique(k, ScreenTilesX * ScreenTilesY * ScreensX, screenY, (screenX * ScreenTilesY + tileY) * ScreenTilesX + tileX);
  }

  /** VisitIndexDecodes for every (screen, tile) of the map. */
  lemma VisitsDecode()
    ensures forall screenX: nat, screenY: nat, tileX: nat, tileY: nat ::
      screenX < ScreensX && screenY < ScreensY && tileX < ScreenTilesX && tileY < ScreenTilesY ==>
        var k := VisitIndex(screenX, screenY, tileX, tileY);
        && k < TotalTiles
        && ScanScreenX(k) == screenX && ScanScreenY(k) == screenY && ScanTileX(k) == tileX && ScanTileY(k) == tileY
  {
    forall screenX: nat, screenY: nat, tileX: nat, tileY: nat |
      screenX < ScreensX && screenY < ScreensY && tileX < ScreenTilesX && tileY < ScreenTilesY
      ensures var k := VisitIndex(screenX, screenY, tileX, tileY);
        && k < TotalTiles
        && ScanScreenX(k) == screenX && ScanScreenY(k) == screenY && ScanTileX(k) == tileX && ScanTileY(k) == tileY
    {
      VisitIndexDecodes(screenX, screenY, tileX, tileY);
    }
  }

  /** The dictionary holds each tile of the ordered list, keyed by itself, and nothing else. */
  ghost predicate Registered<T(!new)>(uniqueTiles: map<T, T>, tileOrder: seq<T>)
  {
    && (forall h :: h in uniqueTiles <==> h in tileOrder)
    && (forall h :: h in uniqueTiles ==> uniqueTiles[h] == h)
  }

  /** One visit: an unseen tile is registered and appended to the order. */
  lemma VisitStep<T(!new)>(uniqueTiles: map<T, T>, tileOrder: seq<T>, scan: seq<T>, k: nat)
    requires k < |scan| && tileOrder == Dedup(scan[..k]) && Registered(uniqueTiles, tileOrder)
    ensures scan[k] !in uniqueTiles ==>
      Registered(uniqueTiles[scan[k] := scan[k]], tileOrder + [scan[k]]) && tileOrder + [scan[k]] == Dedup(scan[..k + 1])
    ensures scan[k] in uniqueTiles ==> tileOrder == Dedup(scan[..k + 1])
  {
    PrefixSnoc(scan, k);
    DedupSnoc(scan[..k], scan[k]);
  }

  /**
   * The scan loops: every tile of every screen is visited once; a tile not
   * yet in the dictionary is added to it and appended to the order.
   */
  method ExtractUniqueTiles<P(==,!new)>(img: Image<P>, fill: P)
    returns (uniqueTiles: map<Tile<P>, Tile<P>>, tileOrder: seq<Tile<P>>, processed: nat)
    ensures processed == TotalTiles
    ensures tileOrder == Dedup(Scan(img, fill))
    ensures Registered(uniqueTiles, tileOrder)
  {
    uniqueTiles, tileOrder := map[], [];
    processed := 0;
    ghost var scan := Scan(img, fill);
    for screenY := 0 to ScreensY
      invariant processed == VisitIndex(0, screenY, 0, 0)
      invariant tileOrder == Dedup(scan[..processed]) && Registered(uniqueTiles, tileOrder)
    {
      for screenX := 0 to ScreensX
        invariant processed == VisitIndex(screenX, screenY, 0, 0)
        invariant tileOrder == Dedup(scan[..processed]) && Registered(uniqueTiles, tileOrder)
      {
        for tileY := 0 to ScreenTilesY
          invariant processed == VisitIndex(screenX, screenY, 0, tileY)
          invariant tileOrder == Dedup(scan[..processed]) && Registered(uniqueTiles, tileOrder)
        {
          for tileX := 0 to ScreenTilesX
            invariant processed == VisitIndex(screenX, screenY, tileX, tileY)
            invariant tileOrder == Dedup(scan[..processed]) && Registered(uniqueTiles, tileOrder)
          {
            var tile := ExtractTile(img, fill, screenX, screenY, tileX, tileY);
            assert scan[processed] == tile;
            VisitStep(uniqueTiles, tileOrder, scan, processed);
            if tile !in uniqueTiles {
              uniqueTiles := uniqueTiles[tile := tile];
              tileOrder := tileOrder + [tile];
            }
            processed := processed + 1;
          }
        }
      }
    }
    assert scan[..processed] == scan;
  }

  /**
   * The paste loop: the i-th tile of the order goes to pixel
   * ((i mod 16) * 16, (i div 16) * 16) of an image 16 tiles wide and just tall
   * enough for the dictionary's tiles. Looking a tile up in the dictionary
   * raises a key error when it is missing, so every tile of the order must be
   * a key.
   */
  method PasteTileset<T>(uniqueTiles: map<T, T>, tileOrder: seq<T>) returns (sheet: Sheet<T>, rows: nat)
    requires forall h :: h in tileOrder ==> h in uniqueTiles
    ensures rows == CeilDiv(|uniqueTiles|, OutputTilesPerRow)
    ensures sheet.width == OutputTilesPerRow * TileSize && sheet.height == rows * TileSize
    ensures forall i :: 0 <= i < |tileOrder| ==>
      && CellOrigin(i, OutputTilesPerRow, TileSize) in sheet.pasted
      && sheet.pasted[CellOrigin(i, OutputTilesPerRow, TileSize)] == uniqueTiles[tileOrder[i]]
    ensures forall p :: p in sheet.pasted ==>
      exists i :: 0 <= i < |tileOrder| && p == CellOrigin(i, OutputTilesPerRow, TileSize)
    ensures |tileOrder| <= |uniqueTiles| ==> forall i :: 0 <= i < |tileOrder| ==>
      && CellOrigin(i, OutputTilesPerRow, TileSize).0 + TileSize <= sheet.width
      && CellOrigin(i, OutputTilesPerRow, TileSize).1 + TileSize <= sheet.height
  {
    var numUnique := |uniqueTiles|;
    rows := CeilDiv(numUnique, OutputTilesPerRow);
    var outputWidth, outputHeight := OutputTilesPerRow * TileSize, rows * TileSize;
    var pasted: map<(nat, nat), T> := map[];
    for i := 0 to |tileOrder|
      invariant forall j :: 0 <= j < i ==>
        CellOrigin(j, OutputTilesPerRow, TileSize) in pasted
        && pasted[CellOrigin(j, OutputTilesPerRow, TileSize)] == uniqueTiles[tileOrder[j]]
      invariant forall p :: p in pasted ==> exists j :: 0 <= j < i && p == CellOrigin(j, OutputTilesPerRow, TileSize)
    {
      var tile := uniqueTiles[tileOrder[i]];
      var outX := (i % OutputTilesPerRow) * TileSize;
      var outY := (i / OutputTilesPerRow) * TileSize;
      CellOriginFresh(i, OutputTilesPerRow, TileSize);
      assert (outX, outY) == CellOrigin(i, OutputTilesPerRow, TileSize);
      pasted := pasted[(outX, outY) := tile];
    }
    sheet := Sheet(outputWidth, outputHeight, pasted);
    CellOriginsInside(numUnique, OutputTilesPerRow, TileSize);
  }

  /** A dictionary registering exactly the tiles of a duplicate-free list has its size. */
  lemma RegisteredSize<T(!new)>(uniqueTiles: map<T, T>, tileOrder: seq<T>)
    requires Registered(uniqueTiles, tileOrder) && NoDuplicates(tileOrder)
    ensures |uniqueTiles| == |tileOrder|
  {
    assert uniqueTiles.Keys == set h | h in tileOrder;
    NoDuplicatesCard(tileOrder);
  }

  /** Pasting the dictionary's entry for each tile of the order pastes the tile itself. */
  lemma PastedSelf<T(!new)>(uniqueTiles: map<T, T>, tileOrder: seq<T>, sheet: Sheet<T>)
    requires Registered(uniqueTiles, tileOrder)
    requires forall i :: 0 <= i < |tileOrder| ==>
      && CellOrigin(i, OutputTilesPerRow, TileSize) in sheet.pasted
      && sheet.pasted[CellOrigin(i, OutputTilesPerRow, TileSize)] == uniqueTiles[tileOrder[i]]
    ensures forall i :: 0 <= i < |tileOrder| ==>
      sheet.pasted[CellOrigin(i, OutputTilesPerRow, TileSize)] == tileOrder[i]
  {
  }

  /**
   * The whole script on one image: whether its size is the expected one,
   * the distinct tiles in first-seen order, the number of visits, and the
   * tileset with distinct tile i pasted at cell (i mod 16, i div 16), inside
   * the image.
   */
  method BuildTileset<P(==,!new)>(img: Image<P>, fill: P)
    returns (sizeMatches: bool, tileOrder: seq<Tile<P>>, processed: nat, sheet: Sheet<Tile<P>>, rows: nat)
    ensures sizeMatches <==> Width(img) == ExpectedWidth && Height(img) == ExpectedHeight
    ensures processed == TotalTiles
    ensures tileOrder == Dedup(Scan(img, fill))
    ensures rows == CeilDiv(|tileOrder|, OutputTilesPerRow)
    ensures sheet.width == OutputTilesPerRow * TileSize && sheet.height == rows * TileSize
    ensures forall i :: 0 <= i < |tileOrder| ==>
      && CellOrigin(i, OutputTilesPerRow, TileSize) in sheet.pasted
      && sheet.pasted[CellOrigin(i, OutputTilesPerRow, TileSize)] == tileOrder[i]
      && CellOrigin(i, OutputTilesPerRow, TileSize).0 + TileSize <= sheet.width
      && CellOrigin(i, OutputTilesPerRow, TileSize).1 + TileSize <= sheet.height
    ensures forall p :: p in sheet.pasted ==>
      exists i :: 0 <= i < |tileOrder| && p == CellOrigin(i, OutputTilesPerRow, TileSize)
  {
    var expectedWidth := ScreensX * ScreenWidthPx + (ScreensX - 1) * SeparatorWidth;
    var expectedHeight := ScreensY * ScreenHeightPx + (ScreensY - 1) * SeparatorWidth;
    sizeMatches := Width(img) == expectedWidth && Height(img) == expectedHeight;
    var uniqueTiles;
    uniqueTiles, tileOrder, processed := ExtractUniqueTiles(img, fill);
    DedupNoDuplicates(Scan(img, fill));
    RegisteredSize(uniqueTiles, tileOrder);
    sheet, rows := PasteTileset(uniqueTiles, tileOrder);
    PastedSelf(uniqueTiles, tileOrder, sheet);
  }
}
