/** Decoded video frames as the detector sees them: colour frames of
    three-channel pixels and single-channel grayscale frames, both as grids
    (a sequence of rows). */
module Frames {

  /** One 8-bit sample. */
  type Byte = x: int | 0 <= x < 256

  /** A colour pixel, its three channels in memory order. The video decoder
      delivers them as blue, green, red. */
  datatype Pixel = Pixel(c0: Byte, c1: Byte, c2: Byte)

  type ColorFrame = seq<seq<Pixel>>
  type GrayFrame = seq<seq<Byte>>

  /** Two grids have the same number of rows and each row the same length. */
  predicate SameShape<A, B>(a: seq<seq<A>>, b: seq<seq<B>>)
  {
    |a| == |b| && forall i :: 0 <= i < |a| ==> |a[i]| == |b[i]|
  }

  /** Every frame of a video has the resolution of its first frame. */
  predicate Uniform(video: seq<ColorFrame>)
  {
    forall k :: 0 <= k < |video| ==> SameShape(video[k], video[0])
  }

  /** Number of pixels in a grid. */
  function PixelCount<A>(g: seq<seq<A>>): nat
  {
    if g == [] then 0 else |g[0]| + PixelCount(g[1..])
  }

  /** BGR to grayscale conversion, pixel by pixel. The luminance weights of
      the imaging library are not modelled: `luma` stands for them. */
  function Grayscale(f: ColorFrame, luma: Pixel -> Byte): (g: GrayFrame)
    ensures SameShape(g, f)
    ensures forall i, j :: 0 <= i < |f| && 0 <= j < |f[i]| ==> g[i][j] == luma(f[i][j])
  {
    seq(|f|, i requires 0 <= i < |f| => seq(|f[i]|, j requires 0 <= j < |f[i]| => luma(f[i][j])))
  }

  /** A pixel with its first and third channels exchanged (BGR to RGB). */
  function SwapRedBlue(p: Pixel): (q: Pixel)
    ensures q.c0 == p.c2 && q.c1 == p.c1 && q.c2 == p.c0
  {
    Pixel(p.c2, p.c1, p.c0)
  }

  /** A colour frame with the channel order of every pixel reversed. */
  function ReverseChannels(f: ColorFrame): (r: ColorFrame)
    ensures SameShape(r, f)
    ensures forall i, j :: 0 <= i < |f| && 0 <= j < |f[i]| ==> r[i][j] == SwapRedBlue(f[i][j])
  {
    seq(|f|, i requires 0 <= i < |f| => seq(|f[i]|, j requires 0 <= j < |f[i]| => SwapRedBlue(f[i][j])))
  }

  /** Reversing the channels twice gives back the decoded frame, so the image
      written after the swap loses no information. */
  lemma ReverseChannelsInvolutive(f: ColorFrame)
    ensures ReverseChannels(ReverseChannels(f)) == f
  {
    var r := ReverseChannels(ReverseChannels(f));
    assert |r| == |f|;
    forall i | 0 <= i < |f|
      ensures r[i] == f[i]
    {
      assert |r[i]| == |f[i]|;
      forall j | 0 <= j < |f[i]|
        ensures r[i][j] == f[i][j]
      {
      }
    }
  }

  /** A frame written exactly as decoded, without a channel swap. */
  function AsDecoded(f: ColorFrame): ColorFrame
  {
    f
  }
}
