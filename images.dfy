/**
 * The image transcoder of images.py: the decisions `_ImageMagick.resize_image`
 * takes around the ImageMagick engine (scale ratio, whether to resize, the
 * output format, flattening, the centred crop, the JPEG quality and the MIME
 * type) and the decode-failure path shared with `get_image_info`.
 *
 * The engine is abstract: decoding is a function parameter that either fails
 * or reports a width, a height and a format name, and a `Wand` records the
 * operations applied to the decoded picture instead of touching pixels.
 */
module Images {
  import opened Wrappers
  import opened Text

  /** A decoded image always has at least one row and one column. */
  type Dim = d: int | d >= 1 witness 1

  /** What the engine reports about a picture it could decode. */
  datatype SourceImage = SourceImage(width: Dim, height: Dim, format: string)

  /** The arguments of `resize_image` besides the data. */
  datatype ResizeRequest = ResizeRequest(maxWidth: int, maxHeight: int, quality: int, crop: bool, force: bool)

  /** `ImageException("Unsupported image format; data: %s...")` with its hex excerpt. */
  datatype ImageError = UnsupportedFormat(excerpt: string)

  /** The dict `get_image_info` returns. */
  datatype ImageInfo = ImageInfo(mimeType: string, width: int, height: int)

  /** Operations the pipeline applies to a wand, in order. */
  datatype Op =
    | StripMetadata
    | Resize(width: int, height: int)
    | FlattenOnWhite
    | Crop(width: int, height: int, x: int, y: int)

  /** The encoded output: the source picture after `ops`, written in `format`. */
  datatype Blob = Blob(source: seq<Byte>, ops: seq<Op>, format: string, quality: Option<int>)

  /** The dict `resize_image` returns. */
  datatype Transcoded = Transcoded(data: Blob, mimeType: string, width: int, height: int)

  datatype CropBox = CropBox(width: int, height: int, x: int, y: int)

  /** Every decision `resize_image` takes, before any engine call. */
  datatype Plan = Plan(
    ratio: real,
    resize: Option<(int, int)>,
    format: string,
    flatten: bool,
    crop: Option<CropBox>,
    quality: Option<int>,
    mimeType: string,
    width: int,
    height: int)

  const JPEG := "JPEG"
  const AllowedFormats: set<string> := {"GIF", "JPEG", "PNG"}

  function Min(a: real, b: real): real { if a <= b then a else b }
  function Max(a: real, b: real): real { if a >= b then a else b }

  /** Python's `int(x)` on a float: truncation toward zero. */
  function IntOf(x: real): int {
    if x >= 0.0 then x.Floor else -((-x).Floor)
  }

  /** `int(ratio * n + 0.5)`: a side scaled by the ratio, rounded half up. */
  function Scale(ratio: real, n: int): int {
    IntOf(ratio * n as real + 0.5)
  }

  /** `binascii.b2a_hex(data[:32])`. */
  function Excerpt(data: seq<Byte>): (r: string)
    ensures |r| == 2 * (if |data| <= 32 then |data| else 32)
    ensures forall i :: 0 <= i < |r| ==> IsLowerHexDigit(r[i])
    ensures Unhex(r) == data[..if |data| <= 32 then |data| else 32]
  {
    var head := if |data| <= 32 then data else data[..32];
    HexRoundTrip(head);
    Hex(head)
  }

  function MimeType(format: string): string {
    "image/" + Lower(format)
  }

  /** `get_image_info`: the MIME type and size of a picture, or the decode error. */
  function GetImageInfo(decode: seq<Byte> -> Option<SourceImage>, data: seq<Byte>): (r: Result<ImageInfo, ImageError>)
    ensures r.Failure? <==> decode(data).None?
    ensures r.Failure? ==> r.error.excerpt == Excerpt(data)
    ensures r.Success? ==>
      var img := decode(data).value;
      r.value.mimeType == "image/" + Lower(img.format) && r.value.width == img.width && r.value.height == img.height
  {
    LowerOfUpper(if decode(data).Some? then decode(data).value.format else "");
    match decode(data)
    case None => Failure(UnsupportedFormat(Excerpt(data)))
    case Some(img) => Success(ImageInfo(MimeType(Upper(img.format)), img.width, img.height))
  }

  /** The scale factor: the larger quotient covers the box, the smaller fits in it. */
  function Ratio(img: SourceImage, req: ResizeRequest): real {
    var byHeight := req.maxHeight as real / img.height as real;
    var byWidth := req.maxWidth as real / img.width as real;
    if req.crop then Max(byHeight, byWidth) else Min(byHeight, byWidth)
  }

  /** What the engine's crop leaves along one axis: the overlap of the box with the picture. */
  function CropExtent(size: int, box: int, offset: int): int {
    var hi := if offset + box <= size then offset + box else size;
    var lo := if offset >= 0 then offset else 0;
    if hi - lo >= 0 then hi - lo else 0
  }

  /** The decisions of `resize_image` for a decoded picture and a request. */
  function ResizePlan(img: SourceImage, req: ResizeRequest): Plan
    requires req.maxWidth >= 1 && req.maxHeight >= 1
  {
    PlanFor(img, req, Ratio(img, req))
  }

  /** The decisions of `resize_image` once the ratio is known. */
  function PlanFor(img: SourceImage, req: ResizeRequest, ratio: real): Plan
    requires req.maxWidth >= 1 && req.maxHeight >= 1
  {
    var srcFormat := Upper(img.format);
    var resized := ratio < 1.0 || req.force;
    var format := if resized || srcFormat !in AllowedFormats then JPEG else srcFormat;
    var w := if resized then Scale(ratio, img.width) else img.width;
    var h := if resized then Scale(ratio, img.height) else img.height;
    var box := CropBox(req.maxWidth, req.maxHeight, (w - req.maxWidth) / 2, (h - req.maxHeight) / 2);
    Plan(
      ratio,
      if resized then Some((w, h)) else None,
      format,
      format != srcFormat,
      if req.crop then Some(box) else None,
      if format == JPEG then Some(req.quality) else None,
      MimeType(format),
      if req.crop then CropExtent(w, box.width, box.x) else w,
      if req.crop then CropExtent(h, box.height, box.y) else h)
  }

  /** The engine operations a plan calls for, in the order the pipeline issues them. */
  function PlanOps(p: Plan): seq<Op> {
    [StripMetadata]
    + (if p.resize.Some? then [Resize(p.resize.value.0, p.resize.value.1)] else [])
    + (if p.flatten then [FlattenOnWhite] else [])
    + (if p.crop.Some? then [Crop(p.crop.value.width, p.crop.value.height, p.crop.value.x, p.crop.value.y)] else [])
  }

  /** The result `resize_image` returns for a picture the engine decoded. */
  function TranscodeOf(data: seq<Byte>, img: SourceImage, req: ResizeRequest): Transcoded
    requires req.maxWidth >= 1 && req.maxHeight >= 1
  {
    var p := ResizePlan(img, req);
    Transcoded(Blob(data, PlanOps(p), p.format, p.quality), p.mimeType, p.width, p.height)
  }

  /**
   * A native MagickWand handle: the picture's current size, its engine format
   * name, the output settings, and the operations applied so far.
   */
  class Wand {
    var source: seq<Byte>
    var width: int
    var height: int
    var format: string
    var ops: seq<Op>
    var quality: Option<int>
    var outFormat: string

    /** `MagickReadImageBlob` on data the engine decoded as `img`. */
    constructor Read(data: seq<Byte>, img: SourceImage)
      ensures source == data && width == img.width && height == img.height && format == img.format
      ensures ops == [] && quality == None && outFormat == img.format
    {
      source, width, height, format := data, img.width, img.height, img.format;
      ops, quality, outFormat := [], None, img.format;
    }

    /** `MagickStripImage`: drops profiles and comments; the size is unchanged. */
    method StripImage()
      modifies this
      ensures ops == old(ops) + [StripMetadata]
      ensures source == old(source) && width == old(width) && height == old(height) && format == old(format)
      ensures quality == old(quality) && outFormat == old(outFormat)
    {
      ops := ops + [StripMetadata];
    }

    /** `MagickResizeImage`: the picture takes exactly the requested size. */
    method ResizeImage(w: int, h: int)
      modifies this
      ensures width == w && height == h && ops == old(ops) + [Resize(w, h)]
      ensures source == old(source) && format == old(format)
      ensures quality == old(quality) && outFormat == old(outFormat)
    {
      width, height := w, h;
      ops := ops + [Resize(w, h)];
    }

    /**
     * `MagickSetImageBackgroundColor` with the white pixel wand followed by
     * `MagickFlattenImages`: a new wand holding the flattened picture.
     */
    method FlattenImages() returns (flat: Wand)
      ensures fresh(flat)
      ensures flat.source == source && flat.width == width && flat.height == height && flat.format == format
      ensures flat.ops == ops + [FlattenOnWhite] && flat.quality == quality && flat.outFormat == outFormat
    {
      flat := new Wand.Read(source, SourceImage(1, 1, format));
      flat.width, flat.height := width, height;
      flat.ops, flat.quality, flat.outFormat := ops + [FlattenOnWhite], quality, outFormat;
    }

    /** `MagickCropImage`: keeps the part of the picture inside the box. */
    method CropImage(w: int, h: int, x: int, y: int)
      modifies this
      ensures width == CropExtent(old(width), w, x) && height == CropExtent(old(height), h, y)
      ensures ops == old(ops) + [Crop(w, h, x, y)]
      ensures source == old(source) && format == old(format)
      ensures quality == old(quality) && outFormat == old(outFormat)
    {
      width, height := CropExtent(width, w, x), CropExtent(height, h, y);
      ops := ops + [Crop(w, h, x, y)];
    }

    /** `MagickSetCompressionQuality`. */
    method SetCompressionQuality(q: int)
      modifies this
      ensures quality == Some(q)
      ensures source == old(source) && width == old(width) && height == old(height) && format == old(format)
      ensures ops == old(ops) && outFormat == old(outFormat)
    {
      quality := Some(q);
    }

    /** `MagickSetFormat`. */
    method SetFormat(f: string)
      modifies this
      ensures outFormat == f
      ensures source == old(source) && width == old(width) && height == old(height) && format == old(format)
      ensures ops == old(ops) && quality == old(quality)
    {
      outFormat := f;
    }

    /** `MagickGetImageBlob`. */
    method GetImageBlob() returns (b: Blob)
      ensures b == Blob(source, ops, outFormat, quality)
    {
      b := Blob(source, ops, outFormat, quality);
    }
  }

  /**
   * How a plan's parts fit together: the crop box is centred on the size the
   * resize leaves, the final size is what the engine's crop keeps of it, and
   * a quality is set exactly for JPEG output.
   */
  ghost predicate Coherent(p: Plan, img: SourceImage, req: ResizeRequest) {
    var w := if p.resize.Some? then p.resize.value.0 else img.width;
    var h := if p.resize.Some? then p.resize.value.1 else img.height;
    && p.crop == (if req.crop then Some(CropBox(req.maxWidth, req.maxHeight, (w - req.maxWidth) / 2, (h - req.maxHeight) / 2)) else None)
    && p.width == (if req.crop then CropExtent(w, req.maxWidth, (w - req.maxWidth) / 2) else w)
    && p.height == (if req.crop then CropExtent(h, req.maxHeight, (h - req.maxHeight) / 2) else h)
    && p.quality == (if p.format == JPEG then Some(req.quality) else None)
    && p.mimeType == MimeType(p.format)
  }

  lemma PlanCoherent(img: SourceImage, req: ResizeRequest)
    requires req.maxWidth >= 1 && req.maxHeight >= 1
    ensures Coherent(ResizePlan(img, req), img, req)
  {
  }

  /**
   * The engine calls of `resize_image` once the decisions are taken: strip,
   * resize, flatten onto white into a new wand, crop around the centre of
   * the current size, set the quality and the format, and write the blob.
   */
  method RunPlan(data: seq<Byte>, img: SourceImage, req: ResizeRequest, plan: Plan) returns (t: Transcoded)
    requires Coherent(plan, img, req)
    ensures t == Transcoded(Blob(data, PlanOps(plan), plan.format, plan.quality), plan.mimeType, plan.width, plan.height)
  {
    var wand := new Wand.Read(data, img);
    wand.StripImage();
    if plan.resize.Some? {
      wand.ResizeImage(plan.resize.value.0, plan.resize.value.1);
    }
    if plan.flatten {
      wand := wand.FlattenImages();
    }
    assert wand.ops == [StripMetadata] + (if plan.resize.Some? then [Resize(plan.resize.value.0, plan.resize.value.1)] else [])
                       + (if plan.flatten then [FlattenOnWhite] else []);
    if req.crop {
      // the offsets are taken from the wand after resizing and flattening
      var x := (wand.width - req.maxWidth) / 2;
      var y := (wand.height - req.maxHeight) / 2;
      wand.CropImage(req.maxWidth, req.maxHeight, x, y);
    }
    assert wand.ops == PlanOps(plan) && wand.width == plan.width && wand.height == plan.height;
    if plan.format == JPEG {
      wand.SetCompressionQuality(req.quality);
    }
    wand.SetFormat(plan.format);
    var body := wand.GetImageBlob();
    t := Transcoded(body, plan.mimeType, wand.width, wand.height);
  }

  /**
   * `_ImageMagick.resize_image`: fails with the hex excerpt when the engine
   * cannot decode the data, and otherwise returns what the plan describes.
   */
  method ResizeImageData(decode: seq<Byte> -> Option<SourceImage>, data: seq<Byte>, req: ResizeRequest)
    returns (r: Result<Transcoded, ImageError>)
    requires req.maxWidth >= 1 && req.maxHeight >= 1
    ensures decode(data).None? ==> r == Failure(UnsupportedFormat(Excerpt(data)))
    ensures decode(data).Some? ==> r == Success(TranscodeOf(data, decode(data).value, req))
  {
    var decoded := decode(data);
    if decoded.None? {
      return Failure(UnsupportedFormat(Excerpt(data)));
    }
    var img := decoded.value;
    var plan := ResizePlan(img, req);
    PlanCoherent(img, req);
    var t := RunPlan(data, img, req, plan);
    r := Success(t);
  }

  // -----------------------------------------------------------------------
  // What the decisions guarantee

  /** For a non-negative ratio, `int(ratio * n + 0.5)` rounds half up: floor(ratio * n + 0.5). */
  lemma HalfUp(r: real, n: int)
    requires r >= 0.0 && n >= 0
    ensures Scale(r, n) == (r * n as real + 0.5).Floor
  {
    assert r * n as real >= 0.0;
  }

  /** Rounding half up never goes past an integer bound the exact value respects. */
  lemma {:induction false} ScaleAtMost(r: real, n: int, m: int)
    requires r >= 0.0 && n >= 0 && r * n as real <= m as real
    ensures Scale(r, n) <= m
  {
    HalfUp(r, n);
    assert r * n as real + 0.5 < (m + 1) as real;
  }

  /** ... nor falls below an integer bound the exact value reaches. */
  lemma {:induction false} ScaleAtLeast(r: real, n: int, m: int)
    requires r >= 0.0 && n >= 0 && r * n as real >= m as real
    ensures Scale(r, n) >= m
  {
    HalfUp(r, n);
    assert r * n as real + 0.5 >= m as real;
  }

  lemma ShrinkBy(r: real, n: int)
    requires 0.0 <= r <= 1.0 && n >= 0
    ensures r * n as real <= n as real
  {
    assert (1.0 - r) * n as real >= 0.0;
  }

  lemma GrowBy(r: real, n: int)
    requires r >= 1.0 && n >= 0
    ensures n as real <= r * n as real
  {
    assert (r - 1.0) * n as real >= 0.0;
  }

  lemma AtLeastOne(a: real, b: real)
    requires 0.0 < b <= a
    ensures a / b >= 1.0
  {
    assert a / b >= b / b;
  }

  /** The size a plan without crop ends at: scaled when resized, the source's otherwise. */
  lemma PlanForSize(img: SourceImage, req: ResizeRequest, r: real)
    requires req.maxWidth >= 1 && req.maxHeight >= 1 && !req.crop
    ensures var p, resized := PlanFor(img, req, r), r < 1.0 || req.force;
      && p.width == (if resized then Scale(r, img.width) else img.width)
      && p.height == (if resized then Scale(r, img.height) else img.height)
  {
  }

  lemma RatioPositive(img: SourceImage, req: ResizeRequest)
    requires req.maxWidth >= 1 && req.maxHeight >= 1
    ensures Ratio(img, req) > 0.0
  {
  }

  /**
   * Without crop the ratio is the largest scale at which the picture fits in
   * the box; with crop it is the smallest at which the picture covers it.
   */
  lemma {:induction false} RatioFitsOrCovers(img: SourceImage, req: ResizeRequest)
    ensures var r, w, h := Ratio(img, req), img.width as real, img.height as real;
      && (!req.crop ==> r * w <= req.maxWidth as real && r * h <= req.maxHeight as real)
      && (req.crop ==> r * w >= req.maxWidth as real && r * h >= req.maxHeight as real)
      && (r * w == req.maxWidth as real || r * h == req.maxHeight as real)
  {
    var w, h := img.width as real, img.height as real;
    var byHeight := req.maxHeight as real / h;
    var byWidth := req.maxWidth as real / w;
    assert byHeight * h == req.maxHeight as real;
    assert byWidth * w == req.maxWidth as real;
    if byHeight <= byWidth {
      assert byHeight * w <= byWidth * w;
      assert byWidth * h >= byHeight * h;
    } else {
      assert byWidth * h <= byHeight * h;
      assert byHeight * w >= byWidth * w;
    }
  }

  lemma {:induction false} DecisionFor(img: SourceImage, req: ResizeRequest, r: real)
    requires req.maxWidth >= 1 && req.maxHeight >= 1 && r > 0.0
    ensures var p := PlanFor(img, req, r);
      && (p.resize.Some? <==> r < 1.0 || req.force)
      && (p.resize.Some? ==>
            && p.format == JPEG
            && p.resize.value == (Scale(r, img.width), Scale(r, img.height)))
      && (p.resize.Some? && !req.force ==> p.resize.value.0 <= img.width && p.resize.value.1 <= img.height)
  {
    PlanForResize(img, req, r);
    if r < 1.0 && !req.force {
      NoEnlarging(r, img.width);
      NoEnlarging(r, img.height);
    }
  }

  /** What a plan resizes to, read off its definition. */
  lemma PlanForResize(img: SourceImage, req: ResizeRequest, r: real)
    requires req.maxWidth >= 1 && req.maxHeight >= 1
    ensures var p := PlanFor(img, req, r);
      && p.resize == (if r < 1.0 || req.force then Some((Scale(r, img.width), Scale(r, img.height))) else None)
      && (p.resize.Some? ==> p.format == JPEG)
  {
  }

  /** A ratio below one never rounds a side up past its length. */
  lemma NoEnlarging(r: real, n: int)
    requires 0.0 < r < 1.0 && n >= 0
    ensures Scale(r, n) <= n
  {
    ShrinkBy(r, n);
    ScaleAtMost(r, n, n);
  }

  /**
   * A resize happens exactly when the ratio shrinks the picture or it is
   * forced; it then targets JPEG at the round-half-up scaled size, and it
   * never enlarges the picture unless forced.
   */
  lemma {:induction false} ResizeDecision(img: SourceImage, req: ResizeRequest)
    requires req.maxWidth >= 1 && req.maxHeight >= 1
    ensures var p, r := ResizePlan(img, req), Ratio(img, req);
      && (p.resize.Some? <==> r < 1.0 || req.force)
      && (p.resize.Some? ==>
            && p.format == JPEG
            && p.resize.value == (Scale(r, img.width), Scale(r, img.height)))
      && (p.resize.Some? && !req.force ==> p.resize.value.0 <= img.width && p.resize.value.1 <= img.height)
  {
    RatioPositive(img, req);
    DecisionFor(img, req, Ratio(img, req));
    assert ResizePlan(img, req) == PlanFor(img, req, Ratio(img, req));
  }

  lemma {:induction false} FitsFor(img: SourceImage, req: ResizeRequest, r: real)
    requires req.maxWidth >= 1 && req.maxHeight >= 1 && !req.crop && r > 0.0
    requires r * img.width as real <= req.maxWidth as real && r * img.height as real <= req.maxHeight as real
    ensures var p := PlanFor(img, req, r);
      p.width <= req.maxWidth && p.height <= req.maxHeight
  {
    PlanForSize(img, req, r);
    FitsSide(r, req.force, img.width, req.maxWidth);
    FitsSide(r, req.force, img.height, req.maxHeight);
  }

  /** One side of the picture, resized or kept, stays within a bound its exact scaled size respects. */
  lemma FitsSide(r: real, force: bool, n: int, m: int)
    requires r > 0.0 && n >= 1 && r * n as real <= m as real
    ensures (if r < 1.0 || force then Scale(r, n) else n) <= m
  {
    if r < 1.0 || force {
      ScaleAtMost(r, n, m);
    } else {
      GrowBy(r, n);
    }
  }

  /** Without crop the output never exceeds the box, resized or not. */
  lemma {:induction false} FitsWithinBox(img: SourceImage, req: ResizeRequest)
    requires req.maxWidth >= 1 && req.maxHeight >= 1 && !req.crop
    ensures var p := ResizePlan(img, req);
      p.width <= req.maxWidth && p.height <= req.maxHeight
  {
    RatioPositive(img, req);
    RatioFitsOrCovers(img, req);
    FitsFor(img, req, Ratio(img, req));
  }

  /**
   * The output is always GIF, JPEG or PNG; an allowed format survives when
   * no resize happens; the MIME type names the output format in lower case.
   */
  lemma {:induction false} OutputFormat(img: SourceImage, req: ResizeRequest)
    requires req.maxWidth >= 1 && req.maxHeight >= 1
    ensures var p := ResizePlan(img, req);
      && p.format in AllowedFormats
      && (p.resize.None? && Upper(img.format) in AllowedFormats ==> p.format == Upper(img.format))
      && (p.resize.None? && Upper(img.format) !in AllowedFormats ==> p.format == JPEG)
      && p.mimeType in {"image/gif", "image/jpeg", "image/png"}
      && p.mimeType == "image/" + Lower(p.format)
  {
    var p := ResizePlan(img, req);
    FormatChoice(img, req);
    MimeOfAllowed(p.format);
  }

  lemma FormatChoice(img: SourceImage, req: ResizeRequest)
    requires req.maxWidth >= 1 && req.maxHeight >= 1
    ensures var p := ResizePlan(img, req);
      && p.format in AllowedFormats
      && (p.resize.None? ==> p.format == if Upper(img.format) in AllowedFormats then Upper(img.format) else JPEG)
      && p.mimeType == MimeType(p.format)
  {
  }

  lemma MimeOfAllowed(f: string)
    requires f in AllowedFormats
    ensures MimeType(f) in {"image/gif", "image/jpeg", "image/png"}
  {
    if f == "GIF" {
      GifMime();
    } else if f == "JPEG" {
      JpegMime();
    } else {
      PngMime();
    }
  }

  lemma GifMime() ensures MimeType("GIF") == "image/gif" {}
  lemma JpegMime() ensures MimeType("JPEG") == "image/jpeg" {}
  lemma PngMime() ensures MimeType("PNG") == "image/png" {}

  /**
   * The picture is flattened onto white exactly when the output format
   * differs from the source format, and the flattening precedes the crop.
   */
  lemma {:induction false} FlattenBeforeCrop(img: SourceImage, req: ResizeRequest)
    requires req.maxWidth >= 1 && req.maxHeight >= 1
    ensures var p := ResizePlan(img, req);
      && (p.flatten <==> p.format != Upper(img.format))
      && (FlattenOnWhite in PlanOps(p) <==> p.flatten)
      && (forall i, j :: 0 <= i < |PlanOps(p)| && 0 <= j < |PlanOps(p)| && PlanOps(p)[i] == FlattenOnWhite && PlanOps(p)[j].Crop? ==> i < j)
  {
    OpsOrder(ResizePlan(img, req));
  }

  /** In the operations of any plan, a flatten is issued exactly when planned, and before any crop. */
  lemma OpsOrder(p: Plan)
    ensures FlattenOnWhite in PlanOps(p) <==> p.flatten
    ensures forall i, j :: 0 <= i < |PlanOps(p)| && 0 <= j < |PlanOps(p)| && PlanOps(p)[i] == FlattenOnWhite && PlanOps(p)[j].Crop? ==> i < j
  {
    var ops := PlanOps(p);
    var a := [StripMetadata] + (if p.resize.Some? then [Resize(p.resize.value.0, p.resize.value.1)] else []);
    var b := if p.flatten then [FlattenOnWhite] else [];
    var c := if p.crop.Some? then [Crop(p.crop.value.width, p.crop.value.height, p.crop.value.x, p.crop.value.y)] else [];
    assert ops == a + b + c;
    forall i, j | 0 <= i < |ops| && 0 <= j < |ops| && ops[i] == FlattenOnWhite && ops[j].Crop?
      ensures i < j
    {
      assert i == |a| && j == |a| + |b|;
    }
  }

  lemma {:induction false} CentredFor(img: SourceImage, req: ResizeRequest, r: real)
    requires req.maxWidth >= 1 && req.maxHeight >= 1 && req.crop && r > 0.0
    requires r * img.width as real >= req.maxWidth as real && r * img.height as real >= req.maxHeight as real
    ensures var p := PlanFor(img, req, r);
      var w := if p.resize.Some? then p.resize.value.0 else img.width;
      var h := if p.resize.Some? then p.resize.value.1 else img.height;
      && p.crop.Some?
      && p.crop.value.width == req.maxWidth && p.crop.value.height == req.maxHeight
      && 0 <= (w - req.maxWidth - p.crop.value.x) - p.crop.value.x <= 1
      && 0 <= (h - req.maxHeight - p.crop.value.y) - p.crop.value.y <= 1
      && (p.resize.Some? ==>
            && p.crop.value.x >= 0 && p.crop.value.y >= 0
            && p.width == req.maxWidth && p.height == req.maxHeight)
  {
    if r < 1.0 || req.force {
      ScaleAtLeast(r, img.width, req.maxWidth);
      ScaleAtLeast(r, img.height, req.maxHeight);
    }
  }

  /**
   * With crop, the crop box is the requested size, centred on the picture
   * as resized (the left and right margins differ by at most one pixel);
   * when a resize happened the box lies inside the picture and the output
   * has exactly the requested size.
   */
  lemma {:induction false} CentredCrop(img: SourceImage, req: ResizeRequest)
    requires req.maxWidth >= 1 && req.maxHeight >= 1 && req.crop
    ensures var p := ResizePlan(img, req);
      var w := if p.resize.Some? then p.resize.value.0 else img.width;
      var h := if p.resize.Some? then p.resize.value.1 else img.height;
      && p.crop.Some?
      && p.crop.value.width == req.maxWidth && p.crop.value.height == req.maxHeight
      && 0 <= (w - req.maxWidth - p.crop.value.x) - p.crop.value.x <= 1
      && 0 <= (h - req.maxHeight - p.crop.value.y) - p.crop.value.y <= 1
      && (p.resize.Some? ==>
            && p.crop.value.x >= 0 && p.crop.value.y >= 0
            && p.width == req.maxWidth && p.height == req.maxHeight)
  {
    RatioPositive(img, req);
    RatioFitsOrCovers(img, req);
    CentredFor(img, req, Ratio(img, req));
  }

  /** A compression quality is set only for JPEG output, and it is the requested one. */
  lemma QualityOnlyForJpeg(img: SourceImage, req: ResizeRequest)
    requires req.maxWidth >= 1 && req.maxHeight >= 1
    ensures var p := ResizePlan(img, req);
      && (p.quality.Some? <==> p.format == JPEG)
      && (p.quality.Some? ==> p.quality.value == req.quality)
  {
  }

  /**
   * A picture that already fits in the box, in an allowed format, comes out
   * with the size and MIME type `get_image_info` reports for it.
   */
  lemma {:induction false} SmallPictureKept(decode: seq<Byte> -> Option<SourceImage>, data: seq<Byte>, req: ResizeRequest)
    requires req.maxWidth >= 1 && req.maxHeight >= 1 && !req.crop && !req.force
    requires decode(data).Some?
    requires decode(data).value.width <= req.maxWidth && decode(data).value.height <= req.maxHeight
    requires Upper(decode(data).value.format) in AllowedFormats
    ensures var t := TranscodeOf(data, decode(data).value, req);
      && GetImageInfo(decode, data) == Success(ImageInfo(t.mimeType, t.width, t.height))
      && t.data.format == Upper(decode(data).value.format)
  {
    var img := decode(data).value;
    AtLeastOne(req.maxWidth as real, img.width as real);
    AtLeastOne(req.maxHeight as real, img.height as real);
    assert Ratio(img, req) >= 1.0;
  }

  /** A 1000x500 picture in an 800x800 box becomes an 800x400 JPEG. */
  lemma ShrinkExample(data: seq<Byte>, format: string)
    ensures var t := TranscodeOf(data, SourceImage(1000, 500, format), ResizeRequest(800, 800, 85, false, false));
      t.width == 800 && t.height == 400 && t.mimeType == "image/jpeg"
  {
    var img, req := SourceImage(1000, 500, format), ResizeRequest(800, 800, 85, false, false);
    assert Ratio(img, req) == 0.8;
    assert (0.8 * 1000.0 + 0.5).Floor == 800 && (0.8 * 500.0 + 0.5).Floor == 400;
    assert MimeType("JPEG") == "image/jpeg";
  }
}
