/**
 * The part of an image library that the asset scripts rely on: an image is a
 * grid of pixels, and a crop cuts a square block out of it. A crop box that
 * reaches past the image's edge is filled with a fixed pixel, as the image
 * library pads such crops. Tiles are compared by their pixels, which is what
 * hashing a tile's raw bytes stands for.
 */
module Raster {

  /** An image as rows of pixels, addressed `img[y][x]`. */
  type Image<P> = seq<seq<P>>

  /** A square block of pixels cut out of an image. */
  type Tile<P> = seq<seq<P>>

  function Width<P>(img: Image<P>): nat
  {
    if |img| == 0 then 0 else |img[0]|
  }

  function Height<P>(img: Image<P>): nat
  {
    |img|
  }

  /** The pixel at (x, y), or `fill` outside the image. */
  function PixelAt<P>(img: Image<P>, x: int, y: int, fill: P): P
  {
    if 0 <= y < |img| && 0 <= x < |img[y]| then img[y][x] else fill
  }

  /** The `size`-pixel square whose top-left pixel is (x, y). */
  function Crop<P>(img: Image<P>, x: int, y: int, size: nat, fill: P): Tile<P>
  {
    seq(size, r => seq(size, c => PixelAt(img, x + c, y + r, fill)))
  }

  /** A crop box lying inside the image is made of the image's own pixels, never padding. */
  lemma CropInside<P>(img: Image<P>, x: int, y: int, size: nat, fill: P)
    requires 0 <= x && 0 <= y && y + size <= |img|
    requires forall r :: y <= r < y + size ==> x + size <= |img[r]|
    ensures forall dy, dx :: 0 <= dy < size && 0 <= dx < size ==>
      Crop(img, x, y, size, fill)[dy][dx] == img[y + dy][x + dx]
  {
    forall dy, dx | 0 <= dy < size && 0 <= dx < size
      ensures Crop(img, x, y, size, fill)[dy][dx] == img[y + dy][x + dx]
    {
      assert x + dx < |img[y + dy]|;
      assert Crop(img, x, y, size, fill)[dy][dx] == PixelAt(img, x + dx, y + dy, fill);
    }
  }

  /** A tileset image being assembled: its size and the tile pasted at each top-left pixel. */
  datatype Sheet<T> = Sheet(width: nat, height: nat, pasted: map<(nat, nat), T>)
}
