/** The accept rule shared by both extractors: per-pixel absolute difference
    of two grayscale frames, binary threshold at 30 to the values 0 and 255,
    and a new slide when the sum of the thresholded mask exceeds 1,000,000. */
module FrameDiff {
  import opened Frames

  /** A difference strictly above this value marks a pixel as changed. */
  const Threshold: Byte := 30
  /** The value a changed pixel takes in the binary mask. */
  const MaskValue: Byte := 255
  /** The mask sum a frame must exceed to be taken as a new slide. */
  const MinMaskSum: nat := 1000000
  /** The least number of changed pixels whose mask sum exceeds MinMaskSum. */
  const MinChangedPixels: nat := 3922

  /** Absolute difference of two samples (saturation cannot occur). */
  function PixelDiff(a: Byte, b: Byte): (d: Byte)
    ensures d == a - b || d == b - a
    ensures d == 0 <==> a == b
  {
    if a >= b then a - b else b - a
  }

  /** Binary threshold of one difference sample. */
  function Binarize(d: Byte): (t: Byte)
    ensures t == MaskValue <==> d > Threshold
    ensures t == 0 <==> d <= Threshold
  {
    if d > Threshold then MaskValue else 0
  }

  function AbsDiffRow(a: seq<Byte>, b: seq<Byte>): (r: seq<Byte>)
    requires |a| == |b|
    ensures |r| == |a|
    ensures forall j :: 0 <= j < |a| ==> r[j] == PixelDiff(a[j], b[j])
  {
    seq(|a|, j requires 0 <= j < |a| => PixelDiff(a[j], b[j]))
  }

  /** Per-pixel absolute difference of two frames of one shape. */
  function AbsDiff(a: GrayFrame, b: GrayFrame): (d: GrayFrame)
    requires SameShape(a, b)
    ensures SameShape(d, a)
    ensures forall i, j :: 0 <= i < |a| && 0 <= j < |a[i]| ==> d[i][j] == PixelDiff(a[i][j], b[i][j])
  {
    seq(|a|, i requires 0 <= i < |a| => AbsDiffRow(a[i], b[i]))
  }

  function MaskRow(row: seq<Byte>): (m: seq<Byte>)
    ensures |m| == |row|
    ensures forall j :: 0 <= j < |row| ==> m[j] == Binarize(row[j])
  {
    seq(|row|, j requires 0 <= j < |row| => Binarize(row[j]))
  }

  /** The binary mask of a difference frame. */
  function Mask(d: GrayFrame): (m: GrayFrame)
    ensures SameShape(m, d)
    ensures forall i, j :: 0 <= i < |d| && 0 <= j < |d[i]| ==> m[i][j] == Binarize(d[i][j])
  {
    seq(|d|, i requires 0 <= i < |d| => MaskRow(d[i]))
  }

  /** Sum of the samples of a row, without wrap-around. */
  function RowSum(row: seq<Byte>): nat
  {
    if row == [] then 0 else row[0] + RowSum(row[1..])
  }

  /** Sum of all samples of a frame, without wrap-around. */
  function FrameSum(g: GrayFrame): nat
  {
    if g == [] then 0 else RowSum(g[0]) + FrameSum(g[1..])
  }

  /** Number of samples of a row above the threshold. */
  function RowChanged(row: seq<Byte>): nat
  {
    if row == [] then 0 else (if row[0] > Threshold then 1 else 0) + RowChanged(row[1..])
  }

  /** Number of samples of a difference frame above the threshold: the
      changed pixels. */
  function ChangedCount(d: GrayFrame): nat
  {
    if d == [] then 0 else RowChanged(d[0]) + ChangedCount(d[1..])
  }

  /** The accept rule: the thresholded difference against the reference
      sums to more than MinMaskSum. */
  predicate IsNewSlide(reference: GrayFrame, current: GrayFrame)
    requires SameShape(reference, current)
  {
    FrameSum(Mask(AbsDiff(reference, current))) > MinMaskSum
  }

  lemma {:induction false} MaskRowSum(row: seq<Byte>)
    ensures RowSum(MaskRow(row)) == MaskValue * RowChanged(row)
  {
    if row != [] {
      assert MaskRow(row)[1..] == MaskRow(row[1..]);
      MaskRowSum(row[1..]);
    }
  }

  /** The mask sum is 255 times the number of changed pixels. */
  lemma {:induction false} MaskSumCountsChanged(d: GrayFrame)
    ensures FrameSum(Mask(d)) == MaskValue * ChangedCount(d)
  {
    if d != [] {
      assert Mask(d)[0] == MaskRow(d[0]);
      assert Mask(d)[1..] == Mask(d[1..]);
      MaskRowSum(d[0]);
      MaskSumCountsChanged(d[1..]);
    }
  }

  /** A frame is a new slide exactly when at least 3922 pixels differ from
      the reference by more than 30. */
  lemma NewSlideIffEnoughChanged(reference: GrayFrame, current: GrayFrame)
    requires SameShape(reference, current)
    ensures IsNewSlide(reference, current) <==> ChangedCount(AbsDiff(reference, current)) >= MinChangedPixels
  {
    var n := ChangedCount(AbsDiff(reference, current));
    MaskSumCountsChanged(AbsDiff(reference, current));
    if n >= MinChangedPixels {
      assert MaskValue * n >= MaskValue * MinChangedPixels;
    } else {
      assert MaskValue * n <= MaskValue * (MinChangedPixels - 1);
    }
  }

  lemma {:induction false} RowChangedAtMostLength(row: seq<Byte>)
    ensures RowChanged(row) <= |row|
  {
    if row != [] {
      RowChangedAtMostLength(row[1..]);
    }
  }

  /** No more pixels can change than the frame has. */
  lemma {:induction false} ChangedAtMostPixels(d: GrayFrame)
    ensures ChangedCount(d) <= PixelCount(d)
  {
    if d != [] {
      RowChangedAtMostLength(d[0]);
      ChangedAtMostPixels(d[1..]);
    }
  }

  /** A video with fewer than 3922 pixels per frame never yields a slide,
      whatever its content. */
  lemma SmallFrameNeverNewSlide(reference: GrayFrame, current: GrayFrame)
    requires SameShape(reference, current)
    requires PixelCount(reference) < MinChangedPixels
    ensures !IsNewSlide(reference, current)
  {
    var d := AbsDiff(reference, current);
    SameShapePixelCount(d, reference);
    ChangedAtMostPixels(d);
    NewSlideIffEnoughChanged(reference, current);
  }

  lemma {:induction false} SameShapePixelCount<A, B>(a: seq<seq<A>>, b: seq<seq<B>>)
    requires SameShape(a, b)
    ensures PixelCount(a) == PixelCount(b)
  {
    if a != [] {
      SameShapePixelCount(a[1..], b[1..]);
    }
  }

  lemma {:induction false} RowWithinThresholdUnchanged(row: seq<Byte>)
    requires forall j :: 0 <= j < |row| ==> row[j] <= Threshold
    ensures RowChanged(row) == 0
  {
    if row != [] {
      RowWithinThresholdUnchanged(row[1..]);
    }
  }

  /** A difference frame with no sample above the threshold has no changed
      pixel. */
  lemma {:induction false} WithinThresholdUnchanged(d: GrayFrame)
    requires forall i, j :: 0 <= i < |d| && 0 <= j < |d[i]| ==> d[i][j] <= Threshold
    ensures ChangedCount(d) == 0
  {
    if d != [] {
      RowWithinThresholdUnchanged(d[0]);
      WithinThresholdUnchanged(d[1..]);
    }
  }

  /** A frame whose every pixel is within 30 of the reference is never a new
      slide; in particular a frame identical to the reference gives a zero
      mask. */
  lemma CloseFrameNotNewSlide(reference: GrayFrame, current: GrayFrame)
    requires SameShape(reference, current)
    requires forall i, j :: 0 <= i < |reference| && 0 <= j < |reference[i]| ==>
               PixelDiff(reference[i][j], current[i][j]) <= Threshold
    ensures !IsNewSlide(reference, current)
  {
    WithinThresholdUnchanged(AbsDiff(reference, current));
    MaskSumCountsChanged(AbsDiff(reference, current));
  }

  /** A frame identical to the reference is never a new slide. */
  lemma IdenticalNotNewSlide(g: GrayFrame)
    ensures !IsNewSlide(g, g)
  {
    CloseFrameNotNewSlide(g, g);
  }

  /** The rule does not depend on which of the two frames is the reference. */
  lemma NewSlideSymmetric(a: GrayFrame, b: GrayFrame)
    requires SameShape(a, b)
    ensures IsNewSlide(a, b) == IsNewSlide(b, a)
  {
    var d1, d2 := AbsDiff(a, b), AbsDiff(b, a);
    forall i | 0 <= i < |a|
      ensures d1[i] == d2[i]
    {
      assert |d1[i]| == |d2[i]|;
    }
    assert d1 == d2;
  }
}
