# Binary background replacement

This project models `background_binary` from `transparent_background.py`.
The routine takes an image with blue, green, red and alpha channels; the
model covers 8-bit (`uint8`) images.
It copies the image buffer. It builds a boolean mask of the pixels whose alpha
is at or below a threshold (default 80). It then overwrites the three colour
channels of those pixels with a background colour (default white,
(255, 255, 255)). The copy is returned and the input is never written.

The Dafny project has two modules:

- `Images` (`images.dfy`) holds the sample type `Byte` and the value view
  `Image` of a height × width × channels buffer. It also holds `Snapshot`,
  which reads an `array3<Byte>` into that view, and `Copy`, the buffer copy.
- `TransparentBackground` (`transparent_background.dfy`) holds the
  specification on values. `BackgroundMask` is the thresholded alpha mask,
  `Fill` is the masked colour assignment, and `ReplaceBackground` is the whole
  routine. The properties proved about them come next. Last is the array
  routine `BackgroundBinary`, built from `Copy`, `AlphaMask` (nested loops
  that fill a fresh `array2<bool>`) and `FillBackground` (nested loops that
  write the colour channels in place). Each of these is proved against the
  value specification.

Indexing the alpha channel of an image with three or fewer channels raises an
index error in the source, even when the image has no pixels. The model
returns `Err(MissingAlphaChannel(channels))` for that case. Images with more
than four channels are accepted; channels after alpha are kept, like alpha.
The Python defaults are Dafny default parameter values
(`DefaultThreshold`, `White`).

## Model

| member | source | states |
|---|---|---|
| `TransparentBackground.ReplaceBackground` | transparent_background.py:56-79 | With no alpha channel the result is an error naming the channel count. Otherwise the result has the input's shape. Each pixel with alpha <= threshold carries the colour in channels 0-2. Every other sample, alpha included, equals the input's. |
| `TransparentBackground.BackgroundMask` | transparent_background.py:74 | The mask has one entry per pixel. An entry is true exactly when that pixel's alpha is <= the threshold. |
| `TransparentBackground.Fill` | transparent_background.py:77 | A masked pixel takes the colour in channels 0-2. Every other sample keeps its input value. The shape is unchanged. |
| `TransparentBackground.BackgroundRecoloured` | transparent_background.py:74-77 | A pixel with alpha <= threshold becomes the colour followed by its own alpha (and any later channels). |
| `TransparentBackground.ForegroundUnchanged` | transparent_background.py:74-77 | A pixel with alpha > threshold is identical to the input pixel in every channel. |
| `TransparentBackground.AlphaPreserved` | transparent_background.py:77 | The alpha sample of every pixel is unchanged, because only channels 0-2 are written. |
| `TransparentBackground.ThresholdInclusive` | transparent_background.py:74 | A pixel whose alpha equals the threshold is in the mask and is recoloured. |
| `TransparentBackground.MaskMonotone` | transparent_background.py:74 | For t <= t', every pixel in the mask for t is also in the mask for t'. |
| `TransparentBackground.MaskDependsOnlyOnAlpha` | transparent_background.py:74 | Two images of the same shape that agree on alpha have the same mask. |
| `TransparentBackground.LastColourWins` | transparent_background.py:74-77 | Replacing with colour c1 and then, at the same threshold, with c2 equals replacing once with c2. |
| `TransparentBackground.Idempotent` | transparent_background.py:74-77 | Applying the replacement twice with the same threshold and colour equals applying it once. |
| `TransparentBackground.NegativeThresholdIsIdentity` | transparent_background.py:74-77 | With a threshold below 0 no pixel is background and the image comes back unchanged. |
| `TransparentBackground.FullThresholdRecoloursAll` | transparent_background.py:74-77 | With a threshold of 255 or more every pixel carries the colour in channels 0-2. |
| `Images.Copy` | transparent_background.py:71 | The copy is a freshly allocated buffer with the same shape and samples. The source is not written. |
| `TransparentBackground.AlphaMask` | transparent_background.py:74 | The mask buffer has one entry per pixel, true exactly when that pixel's alpha is <= the threshold; its contents equal `BackgroundMask` of the buffer's contents. |
| `TransparentBackground.FillBackground` | transparent_background.py:77 | In place, each masked pixel's channels 0-2 become the colour. Every other sample keeps its previous value. |
| `TransparentBackground.BackgroundBinary` | transparent_background.py:56-79 | The result matches `ReplaceBackground` on the input's contents. That is an error without an alpha channel, or else a fresh buffer holding the replaced image. The input buffer is not modified. |

## Left out

- `background_blended` (transparent_background.py:5-53): it blends in floating point, truncates back to 8 bits and pads through an OpenCV call.
- The debug output lines and the `__main__` demo (image loading and window display): console and GUI I/O only.
- `main.py` and `plot.py`: directory globbing, progress display, loading a timing table and drawing a chart. These are file-system and plotting I/O with no logic to verify.
- The background colour is a triple of bytes. Other shapes that numpy would broadcast (a single value, a scalar) and out-of-range integers are not modelled. Nor is the error numpy raises for a colour of any other length.
- Sample types other than `uint8` (`uint16` from 16-bit PNGs, signed or floating-point arrays) are not modelled; `FullThresholdRecoloursAll` depends on the 0..255 range of `Byte`.
- Only three-axis images are modelled. A two-axis (grey-scale) array would also make the source raise an index error.
- The threshold is compared as an unbounded integer, which is how numpy compares 8-bit samples with a Python integer. Floating-point thresholds are not modelled.
- `AlphaMask` computes the mask on the copy, as the source does. Its contract does not say that the mask buffer is freshly allocated. This does not matter to callers, because a boolean mask cannot alias the byte image.
