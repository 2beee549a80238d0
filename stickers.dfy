/** A sticker document as the converter sees it: its MIME type, its
    attributes, and the outcomes of the external steps applied to it
    (download, animation parsing and rendering, image decoding). Also the
    classifier (`is_video_sticker`, `is_animated_sticker`, the three-way
    branch) and the choice of emoji glyph. */
module Stickers {
  import opened Text

  const VideoMime := "video/webm"
  const TgsMime := "application/x-tgsticker"
  const TgsSuffix := ".tgs"
  /** The glyph used when a sticker declares none: U+1F600. */
  const DefaultGlyph := "\U{1F600}"

  /** The attribute kinds the converter inspects; every other attribute
      (image size, animated, video, ...) is `OtherAttribute`. */
  datatype Attribute =
    | FileNameAttribute(fileName: string)   // DocumentAttributeFilename
    | StickerAttribute(alt: string)         // DocumentAttributeSticker
    | OtherAttribute

  /** The side of a thumbnail: PIL's `thumbnail((100, 100))` never yields
      more than 100 pixels on a side, nor fewer than one. */
  type Side = n: int | 1 <= n <= 100 witness 1

  /** What decoding the downloaded bytes as a raster image yields. */
  datatype StaticImage =
    | Undecodable                          // `Image.open` raises
    | Thumbnail(width: Side, height: Side) // size after `thumbnail`

  /** What the animation library and the encoder do with the downloaded
      bytes of a TGS sticker. */
  datatype TgsPayload = TgsPayload(
    parses: bool,        // gzip, UTF-8 and Lottie parsing all succeed
    totalFrames: nat,    // lottie_animation_get_totalframe()
    fps: real,           // lottie_animation_get_framerate()
    badFrames: set<nat>, // frame numbers whose rendering raises
    encodeOk: bool)      // the encoder exits with status 0 on a non-empty frame list

  datatype Sticker = Sticker(
    mimeType: string,
    attributes: seq<Attribute>,
    downloadOk: bool,    // download_media returns the bytes rather than raising
    tgs: TgsPayload,     // consulted only on the TGS path
    image: StaticImage)  // consulted only on the static path

  datatype Kind = NativeVideo | VectorAnimation | StaticRaster

  /** `is_video_sticker` */
  predicate IsVideo(s: Sticker) {
    s.mimeType == VideoMime
  }

  /** The attribute scan of `is_animated_sticker`: true as soon as a
      file-name attribute ends in `.tgs`. */
  predicate HasTgsFileName(attrs: seq<Attribute>)
  {
    if attrs == [] then false
    else if attrs[0].FileNameAttribute? && EndsWith(attrs[0].fileName, TgsSuffix) then true
    else HasTgsFileName(attrs[1..])
  }

  /** `is_animated_sticker` */
  predicate IsAnimated(s: Sticker) {
    HasTgsFileName(s.attributes) || s.mimeType == TgsMime
  }

  /** The scan finds a `.tgs` file name exactly when some file-name
      attribute has one. */
  lemma {:induction false} HasTgsFileNameIff(attrs: seq<Attribute>)
    ensures HasTgsFileName(attrs) <==>
      exists i :: 0 <= i < |attrs| && attrs[i].FileNameAttribute? && EndsWith(attrs[i].fileName, TgsSuffix)
  {
    if attrs != [] {
      HasTgsFileNameIff(attrs[1..]);
      if !(attrs[0].FileNameAttribute? && EndsWith(attrs[0].fileName, TgsSuffix)) {
        forall i | 1 <= i < |attrs|
          ensures attrs[i] == attrs[1..][i - 1]
        {
        }
      }
    }
  }

  /** The branch taken by the conversion loop: the video test comes first,
      then the TGS test, then the static path. */
  function Classify(s: Sticker): (k: Kind)
    ensures k == NativeVideo <==> IsVideo(s)
    ensures k == VectorAnimation <==> !IsVideo(s) && IsAnimated(s)
    ensures k == StaticRaster <==> !IsVideo(s) && !IsAnimated(s)
  {
    if IsVideo(s) then NativeVideo
    else if IsAnimated(s) then VectorAnimation
    else StaticRaster
  }

  /** Precedence: a `video/webm` MIME type wins over a `.tgs` file name;
      otherwise a `.tgs` file name or the TGS MIME type selects the TGS
      path; anything else is static. */
  lemma ClassifyPrecedence(s: Sticker, i: nat)
    requires i < |s.attributes|
    requires s.attributes[i].FileNameAttribute? && EndsWith(s.attributes[i].fileName, TgsSuffix)
    ensures IsVideo(s) ==> Classify(s) == NativeVideo
    ensures !IsVideo(s) ==> Classify(s) == VectorAnimation
  {
    HasTgsFileNameIff(s.attributes);
  }

  /** The glyph loop: the `alt` of the first sticker attribute, the default
      when that `alt` is empty, and the default when there is none. */
  function GlyphOf(attrs: seq<Attribute>): string
  {
    if attrs == [] then DefaultGlyph
    else if attrs[0].StickerAttribute? then
      (if attrs[0].alt == "" then DefaultGlyph else attrs[0].alt)
    else GlyphOf(attrs[1..])
  }

  function Glyph(s: Sticker): (g: string)
    ensures g != ""
  {
    GlyphSpec(s.attributes);
    GlyphOf(s.attributes)
  }

  /** `attrs[i]` is the first sticker attribute. */
  predicate FirstStickerAttribute(attrs: seq<Attribute>, i: int) {
    0 <= i < |attrs| && attrs[i].StickerAttribute? &&
    forall j :: 0 <= j < i ==> !attrs[j].StickerAttribute?
  }

  /** The glyph is never empty, and it is the first sticker attribute's
      non-empty `alt`, or the default glyph. */
  lemma {:induction false} GlyphSpec(attrs: seq<Attribute>)
    ensures GlyphOf(attrs) != ""
    ensures (forall i :: 0 <= i < |attrs| ==> !attrs[i].StickerAttribute?) ==> GlyphOf(attrs) == DefaultGlyph
    ensures forall i :: FirstStickerAttribute(attrs, i) ==>
      GlyphOf(attrs) == (if attrs[i].alt == "" then DefaultGlyph else attrs[i].alt)
  {
    if attrs != [] {
      GlyphSpec(attrs[1..]);
      if !attrs[0].StickerAttribute? {
        forall i | 1 <= i && FirstStickerAttribute(attrs, i)
          ensures GlyphOf(attrs) == (if attrs[i].alt == "" then DefaultGlyph else attrs[i].alt)
        {
          assert attrs[1..][i - 1] == attrs[i];
          forall j | 0 <= j < i - 1 ensures !attrs[1..][j].StickerAttribute? {
            assert attrs[1..][j] == attrs[j + 1];
          }
        }
        forall i | 0 <= i < |attrs[1..]| ensures attrs[1..][i] == attrs[i + 1] { }
      }
    }
  }
}
