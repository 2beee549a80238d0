/** Where an image lands on the transparent square canvas of an emoji: the
    static path centres its thumbnail on a 100x100 canvas, the TGS
    first-frame path pastes its size x size frame at the origin. */
module Canvas {
  import opened Stickers

  /** The side of an emoji canvas, in pixels. */
  const EmojiSize := 100

  /** An image of `width` x `height` pixels pasted at (`x`, `y`) on a fully
      transparent `canvas` x `canvas` image. */
  datatype Layer = Layer(canvas: nat, x: int, y: int, width: nat, height: nat)

  /** The pasted image lies wholly on the canvas. */
  predicate Inside(l: Layer) {
    0 <= l.x && l.x + l.width <= l.canvas &&
    0 <= l.y && l.y + l.height <= l.canvas
  }

  /** On each axis the margin before the image is at most the margin after
      it, and smaller by at most one pixel. */
  predicate Centred(l: Layer) {
    var right, bottom := l.canvas - l.x - l.width, l.canvas - l.y - l.height;
    l.x <= right <= l.x + 1 && l.y <= bottom <= l.y + 1
  }

  /** `(size - extent) // 2`: the offset that centres `extent` pixels on a
      side of `size` pixels. */
  function CentreOffset(size: nat, extent: nat): (o: nat)
    requires extent <= size
    ensures o + extent <= size
    ensures o <= size - extent - o <= o + 1
  {
    (size - extent) / 2
  }

  /** The static path: a thumbnail no larger than the canvas, centred. */
  function StaticLayer(w: Side, h: Side): (l: Layer)
    ensures l.canvas == EmojiSize && l.width == w && l.height == h
    ensures Inside(l) && Centred(l)
  {
    Layer(EmojiSize, CentreOffset(EmojiSize, w), CentreOffset(EmojiSize, h), w, h)
  }

  /** The TGS first-frame path: the frame is rendered at size x size and
      pasted at (0, 0), so it covers the whole canvas. */
  function FirstFrameLayer(size: nat): (l: Layer)
    ensures l.canvas == size && l.width == size && l.height == size
    ensures Inside(l) && l.x == 0 && l.y == 0
  {
    Layer(size, 0, 0, size, size)
  }

  /** Centring pins the offsets down: two centred layers of the same sizes
      are the same layer. */
  lemma CentredUnique(a: Layer, b: Layer)
    requires Centred(a) && Centred(b)
    requires a.canvas == b.canvas && a.width == b.width && a.height == b.height
    ensures a == b
  {
  }

  /** Pasting the first frame at the origin without centring loses nothing:
      a frame as large as the canvas is centred there. */
  lemma FirstFrameCentred(size: nat)
    ensures Centred(FirstFrameLayer(size))
  {
  }
}
