/**
 * Images as the background routines see them: a three-axis array of 8-bit
 * samples, indexed by row, column and channel (a numpy `uint8` array of shape
 * (height, width, channels)).
 *
 * `Image` is the value view used by the specification; `Snapshot` reads an
 * `array3` into that view, and `Copy` is the buffer copy the routines make
 * before they write anything.
 */
module Images {

  /** One 8-bit sample. */
  type Byte = x: int | 0 <= x < 256

  /**
   * A height × width × channels image as nested sequences: `data[i]` is row
   * `i`, `data[i][j]` the pixel in column `j`, `data[i][j][k]` its channel `k`.
   */
  datatype Image = Image(height: nat, width: nat, channels: nat, data: seq<seq<seq<Byte>>>)
  {
    /** The nesting agrees with the three dimensions (a numpy array is always rectangular). */
    predicate Valid()
    {
      |data| == height &&
      (forall i :: 0 <= i < height ==> |data[i]| == width) &&
      (forall i, j :: 0 <= i < height && 0 <= j < width ==> |data[i][j]| == channels)
    }

    predicate SameShape(other: Image)
    {
      height == other.height && width == other.width && channels == other.channels
    }
  }

  /** Two well-formed images of the same shape that agree on every sample are equal. */
  lemma {:induction false} Extensionality(a: Image, b: Image)
    requires a.Valid() && b.Valid() && a.SameShape(b)
    requires forall i, j, k :: 0 <= i < a.height && 0 <= j < a.width && 0 <= k < a.channels ==>
               a.data[i][j][k] == b.data[i][j][k]
    ensures a == b
  {
    forall i | 0 <= i < a.height
      ensures a.data[i] == b.data[i]
    {
      forall j | 0 <= j < a.width
        ensures a.data[i][j] == b.data[i][j]
      {
        assert forall k :: 0 <= k < a.channels ==> a.data[i][j][k] == b.data[i][j][k];
      }
    }
    assert a.data == b.data;
  }

  /** The contents of an array buffer as an `Image` value. */
  ghost function Snapshot(a: array3<Byte>): (img: Image)
    reads a
    ensures img.Valid()
    ensures img.height == a.Length0 && img.width == a.Length1 && img.channels == a.Length2
    ensures forall i, j, k :: 0 <= i < a.Length0 && 0 <= j < a.Length1 && 0 <= k < a.Length2 ==>
              img.data[i][j][k] == a[i, j, k]
  {
    Image(a.Length0, a.Length1, a.Length2,
      seq(a.Length0, i requires 0 <= i < a.Length0 reads a =>
        seq(a.Length1, j requires 0 <= j < a.Length1 reads a =>
          seq(a.Length2, k requires 0 <= k < a.Length2 reads a => a[i, j, k]))))
  }

  /**
   * `img.copy()`: a freshly allocated buffer with the same shape and samples.
   * The source buffer is not written (no `modifies` clause).
   */
  method Copy(a: array3<Byte>) returns (b: array3<Byte>)
    ensures fresh(b)
    ensures Snapshot(b) == Snapshot(a)
  {
    b := new Byte[a.Length0, a.Length1, a.Length2]((i, j, k)
      requires 0 <= i < a.Length0 && 0 <= j < a.Length1 && 0 <= k < a.Length2
      reads a => a[i, j, k]);
    Extensionality(Snapshot(b), Snapshot(a));
  }
}
