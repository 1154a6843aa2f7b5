/**
 * Binary background replacement on a four-channel (B, G, R, alpha) image:
 * every pixel whose alpha is at or below a threshold gets its three colour
 * channels overwritten with a background colour; every other sample is kept.
 *
 * The value-level specification (`BackgroundMask`, `Fill`, `ReplaceBackground`)
 * comes first, then the properties proved about it, then the array-level
 * routine `BackgroundBinary`, which copies the buffer, computes the mask and
 * recolours the masked pixels with nested loops, proved against that
 * specification.
 */
module TransparentBackground {
  import opened Images

  /** Index of the alpha channel; channels below it are blue, green and red. */
  const AlphaChannel: nat := 3

  /** Default alpha threshold of `background_binary`. */
  const DefaultThreshold: int := 80

  /** A background colour in BGR order. */
  datatype Bgr = Bgr(b: Byte, g: Byte, r: Byte)
  {
    /** The sample this colour puts into colour channel `k`. */
    function Channel(k: nat): Byte
      requires k < AlphaChannel
    {
      if k == 0 then b else if k == 1 then g else r
    }
  }

  /** Default background colour: white. */
  const White: Bgr := Bgr(255, 255, 255)

  /** Indexing the alpha channel of an image whose channel axis is too short. */
  datatype Error = MissingAlphaChannel(channels: nat)

  datatype Result<T> = Ok(value: T) | Err(error: Error)

  /** A well-formed image that has an alpha channel to threshold. */
  predicate HasAlpha(img: Image)
  {
    img.Valid() && img.channels > AlphaChannel
  }

  /** A boolean mask with one entry per pixel of `img`. */
  predicate MaskFits(mask: seq<seq<bool>>, img: Image)
  {
    |mask| == img.height && forall i :: 0 <= i < img.height ==> |mask[i]| == img.width
  }

  // ---------------------------------------------------------------------------
  // Specification on values
  // ---------------------------------------------------------------------------

  /**
   * The background mask: a pixel is background exactly when its alpha is at
   * or below `threshold` (the comparison is inclusive).
   */
  function BackgroundMask(img: Image, threshold: int): (mask: seq<seq<bool>>)
    requires HasAlpha(img)
    ensures MaskFits(mask, img)
    ensures forall i, j :: 0 <= i < img.height && 0 <= j < img.width ==>
              (mask[i][j] <==> img.data[i][j][AlphaChannel] <= threshold)
  {
    seq(img.height, i requires 0 <= i < img.height =>
      seq(img.width, j requires 0 <= j < img.width =>
        img.data[i][j][AlphaChannel] <= threshold))
  }

  /** A pixel with its colour channels replaced by `color`; alpha and any later channels kept. */
  function Paint(px: seq<Byte>, color: Bgr): (r: seq<Byte>)
    requires |px| > AlphaChannel
    ensures |r| == |px|
    ensures forall k :: 0 <= k < |px| ==> r[k] == if k < AlphaChannel then color.Channel(k) else px[k]
  {
    [color.b, color.g, color.r] + px[AlphaChannel..]
  }

  /**
   * Masked assignment of the colour channels: the pixels selected by `mask`
   * take `color` in channels 0 to 2; every other sample is the input's.
   */
  function Fill(img: Image, mask: seq<seq<bool>>, color: Bgr): (r: Image)
    requires HasAlpha(img) && MaskFits(mask, img)
    ensures HasAlpha(r) && r.SameShape(img)
    ensures forall i, j, k :: 0 <= i < img.height && 0 <= j < img.width && 0 <= k < img.channels ==>
              r.data[i][j][k] == if mask[i][j] && k < AlphaChannel then color.Channel(k) else img.data[i][j][k]
  {
    img.(data := seq(img.height, i requires 0 <= i < img.height =>
      seq(img.width, j requires 0 <= j < img.width =>
        if mask[i][j] then Paint(img.data[i][j], color) else img.data[i][j])))
  }

  /**
   * `background_binary` on values: an image without an alpha channel is an
   * error; otherwise the result has the input's shape, every pixel with alpha
   * at or below `threshold` carries `color` in its colour channels, and every
   * other sample, the alpha channel included, is the input's.
   */
  function ReplaceBackground(img: Image, threshold: int := DefaultThreshold, color: Bgr := White): (r: Result<Image>)
    requires img.Valid()
    ensures r.Err? <==> img.channels <= AlphaChannel
    ensures r.Err? ==> r.error == MissingAlphaChannel(img.channels)
    ensures r.Ok? ==> HasAlpha(r.value) && r.value.SameShape(img)
    ensures r.Ok? ==> forall i, j, k :: 0 <= i < img.height && 0 <= j < img.width && 0 <= k < img.channels ==>
              r.value.data[i][j][k] ==
                if k < AlphaChannel && img.data[i][j][AlphaChannel] <= threshold then color.Channel(k)
                else img.data[i][j][k]
  {
    if img.channels <= AlphaChannel then Err(MissingAlphaChannel(img.channels))
    else Ok(Fill(img, BackgroundMask(img, threshold), color))
  }

  // ---------------------------------------------------------------------------
  // Properties of the specification
  // ---------------------------------------------------------------------------

  /** A background pixel is the input pixel with its colour channels replaced by `color`. */
  lemma BackgroundRecoloured(img: Image, threshold: int, color: Bgr, i: nat, j: nat)
    requires HasAlpha(img) && i < img.height && j < img.width
    requires img.data[i][j][AlphaChannel] <= threshold
    ensures ReplaceBackground(img, threshold, color).value.data[i][j] ==
            [color.b, color.g, color.r] + img.data[i][j][AlphaChannel..]
  {
  }

  /** A pixel whose alpha is above the threshold comes back identical in every channel. */
  lemma ForegroundUnchanged(img: Image, threshold: int, color: Bgr, i: nat, j: nat)
    requires HasAlpha(img) && i < img.height && j < img.width
    requires img.data[i][j][AlphaChannel] > threshold
    ensures ReplaceBackground(img, threshold, color).value.data[i][j] == img.data[i][j]
  {
  }

  /** The alpha channel of every pixel is left as it was. */
  lemma AlphaPreserved(img: Image, threshold: int, color: Bgr, i: nat, j: nat)
    requires HasAlpha(img) && i < img.height && j < img.width
    ensures ReplaceBackground(img, threshold, color).value.data[i][j][AlphaChannel] == img.data[i][j][AlphaChannel]
  {
  }

  /**
   * The threshold is inclusive: a pixel whose alpha equals the threshold is
   * background and takes the colour.
   */
  lemma ThresholdInclusive(img: Image, color: Bgr, i: nat, j: nat)
    requires HasAlpha(img) && i < img.height && j < img.width
    ensures var t := img.data[i][j][AlphaChannel];
            BackgroundMask(img, t)[i][j] &&
            ReplaceBackground(img, t, color).value.data[i][j][..AlphaChannel] == [color.b, color.g, color.r]
  {
    var t := img.data[i][j][AlphaChannel];
    var px := ReplaceBackground(img, t, color).value.data[i][j];
    assert px[..AlphaChannel] == [px[0], px[1], px[2]];
  }

  /** Raising the threshold can only add pixels to the background mask. */
  lemma MaskMonotone(img: Image, t: int, t': int)
    requires HasAlpha(img) && t <= t'
    ensures forall i, j :: 0 <= i < img.height && 0 <= j < img.width && BackgroundMask(img, t)[i][j] ==>
              BackgroundMask(img, t')[i][j]
  {
  }

  /** The mask reads only the alpha channel: images that agree on alpha get the same mask. */
  lemma {:induction false} MaskDependsOnlyOnAlpha(a: Image, b: Image, threshold: int)
    requires HasAlpha(a) && HasAlpha(b) && a.SameShape(b)
    requires forall i, j :: 0 <= i < a.height && 0 <= j < a.width ==>
               a.data[i][j][AlphaChannel] == b.data[i][j][AlphaChannel]
    ensures BackgroundMask(a, threshold) == BackgroundMask(b, threshold)
  {
    var ma, mb := BackgroundMask(a, threshold), BackgroundMask(b, threshold);
    forall i | 0 <= i < a.height
      ensures ma[i] == mb[i]
    {
      assert forall j :: 0 <= j < a.width ==> ma[i][j] == mb[i][j];
    }
  }

  /**
   * Replacing the background twice with the same threshold is the same as
   * replacing it once with the second colour: alpha is untouched, so the
   * second pass selects the same pixels and overwrites the first colour.
   */
  lemma {:induction false} LastColourWins(img: Image, threshold: int, first: Bgr, second: Bgr)
    requires HasAlpha(img)
    ensures ReplaceBackground(ReplaceBackground(img, threshold, first).value, threshold, second) ==
            ReplaceBackground(img, threshold, second)
  {
    var once := ReplaceBackground(img, threshold, first).value;
    Extensionality(ReplaceBackground(once, threshold, second).value,
                   ReplaceBackground(img, threshold, second).value);
  }

  /** Replacing the background is idempotent. */
  lemma {:induction false} Idempotent(img: Image, threshold: int, color: Bgr)
    requires HasAlpha(img)
    ensures ReplaceBackground(ReplaceBackground(img, threshold, color).value, threshold, color) ==
            ReplaceBackground(img, threshold, color)
  {
    LastColourWins(img, threshold, color, color);
  }

  /** Below every possible alpha value the mask is empty and the image comes back unchanged. */
  lemma {:induction false} NegativeThresholdIsIdentity(img: Image, threshold: int, color: Bgr)
    requires HasAlpha(img) && threshold < 0
    ensures ReplaceBackground(img, threshold, color) == Ok(img)
  {
    Extensionality(ReplaceBackground(img, threshold, color).value, img);
  }

  /** At or above the largest alpha value every pixel is background. */
  lemma FullThresholdRecoloursAll(img: Image, threshold: int, color: Bgr)
    requires HasAlpha(img) && threshold >= 255
    ensures forall i, j, k :: 0 <= i < img.height && 0 <= j < img.width && 0 <= k < AlphaChannel ==>
              ReplaceBackground(img, threshold, color).value.data[i][j][k] == color.Channel(k)
  {
  }

  // ---------------------------------------------------------------------------
  // The routine on array buffers
  // ---------------------------------------------------------------------------

  /** The contents of a mask buffer as nested sequences, one row per entry of the first axis. */
  ghost function MaskSnapshot(mask: array2<bool>): (m: seq<seq<bool>>)
    reads mask
    ensures |m| == mask.Length0 && forall i :: 0 <= i < mask.Length0 ==> |m[i]| == mask.Length1
    ensures forall i, j :: 0 <= i < mask.Length0 && 0 <= j < mask.Length1 ==> m[i][j] == mask[i, j]
  {
    seq(mask.Length0, i requires 0 <= i < mask.Length0 reads mask =>
      seq(mask.Length1, j requires 0 <= j < mask.Length1 reads mask => mask[i, j]))
  }

  /**
   * The background mask of a buffer, computed pixel by pixel into a new
   * two-axis array; its contents are `BackgroundMask` of the buffer's contents.
   */
  method AlphaMask(img: array3<Byte>, threshold: int) returns (mask: array2<bool>)
    requires img.Length2 > AlphaChannel
    ensures mask.Length0 == img.Length0 && mask.Length1 == img.Length1
    ensures forall i, j :: 0 <= i < img.Length0 && 0 <= j < img.Length1 ==>
              (mask[i, j] <==> img[i, j, AlphaChannel] <= threshold)
    ensures MaskSnapshot(mask) == BackgroundMask(Snapshot(img), threshold)
  {
    mask := new bool[img.Length0, img.Length1];
    for i := 0 to img.Length0
      invariant forall i', j :: 0 <= i' < i && 0 <= j < img.Length1 ==>
                  (mask[i', j] <==> img[i', j, AlphaChannel] <= threshold)
    {
      for j := 0 to img.Length1
        invariant forall i', j' :: 0 <= i' < i && 0 <= j' < img.Length1 ==>
                    (mask[i', j'] <==> img[i', j', AlphaChannel] <= threshold)
        invariant forall j' :: 0 <= j' < j ==> (mask[i, j'] <==> img[i, j', AlphaChannel] <= threshold)
      {
        mask[i, j] := img[i, j, AlphaChannel] <= threshold;
      }
    }
    ghost var spec, got := BackgroundMask(Snapshot(img), threshold), MaskSnapshot(mask);
    forall i | 0 <= i < img.Length0
      ensures got[i] == spec[i]
    {
      assert forall j :: 0 <= j < img.Length1 ==> got[i][j] == spec[i][j];
    }
  }

  /**
   * Masked assignment in place: the colour channels of every masked pixel
   * are overwritten with `color`; every other sample keeps its value.
   */
  method FillBackground(img: array3<Byte>, mask: array2<bool>, color: Bgr)
    requires img.Length2 > AlphaChannel
    requires mask.Length0 == img.Length0 && mask.Length1 == img.Length1
    modifies img
    ensures forall i, j, k :: 0 <= i < img.Length0 && 0 <= j < img.Length1 && 0 <= k < img.Length2 ==>
              img[i, j, k] == if mask[i, j] && k < AlphaChannel then color.Channel(k) else old(img[i, j, k])
  {
    for i := 0 to img.Length0
      invariant forall i', j, k :: 0 <= i' < i && 0 <= j < img.Length1 && 0 <= k < img.Length2 ==>
                  img[i', j, k] == if mask[i', j] && k < AlphaChannel then color.Channel(k) else old(img[i', j, k])
      invariant forall i', j, k :: i <= i' < img.Length0 && 0 <= j < img.Length1 && 0 <= k < img.Length2 ==>
                  img[i', j, k] == old(img[i', j, k])
    {
      for j := 0 to img.Length1
        invariant forall i', j', k :: 0 <= i' < i && 0 <= j' < img.Length1 && 0 <= k < img.Length2 ==>
                    img[i', j', k] == if mask[i', j'] && k < AlphaChannel then color.Channel(k) else old(img[i', j', k])
        invariant forall j', k :: 0 <= j' < j && 0 <= k < img.Length2 ==>
                    img[i, j', k] == if mask[i, j'] && k < AlphaChannel then color.Channel(k) else old(img[i, j', k])
        invariant forall j', k :: j <= j' < img.Length1 && 0 <= k < img.Length2 ==>
                    img[i, j', k] == old(img[i, j', k])
        invariant forall i', j', k :: i < i' < img.Length0 && 0 <= j' < img.Length1 && 0 <= k < img.Length2 ==>
                    img[i', j', k] == old(img[i', j', k])
      {
        if mask[i, j] {
          img[i, j, 0] := color.b;
          img[i, j, 1] := color.g;
          img[i, j, 2] := color.r;
        }
      }
    }
  }

  /**
   * `background_binary`: copies the buffer, thresholds the alpha channel of
   * the copy and recolours the background pixels of the copy. The input
   * buffer is never written; a buffer whose channel axis has no alpha entry
   * is an error.
   */
  method BackgroundBinary(img: array3<Byte>, threshold: int := DefaultThreshold, color: Bgr := White)
    returns (r: Result<array3<Byte>>)
    ensures r.Err? ==> ReplaceBackground(Snapshot(img), threshold, color) == Err(r.error)
    ensures r.Ok? ==> fresh(r.value) && ReplaceBackground(Snapshot(img), threshold, color) == Ok(Snapshot(r.value))
  {
    if img.Length2 <= AlphaChannel {
      return Err(MissingAlphaChannel(img.Length2));
    }
    var out := Copy(img);
    var mask := AlphaMask(out, threshold);
    FillBackground(out, mask, color);
    Extensionality(Snapshot(out), ReplaceBackground(Snapshot(img), threshold, color).value);
    r := Ok(out);
  }
}
