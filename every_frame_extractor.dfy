/** The extractor of src/SlideSnatcher/main.py: after frame 0 it reads and
    compares every frame in turn. Accepted frames are saved as decoded,
    without a channel swap. */
module EveryFrameExtractor {
  import opened Frames
  import opened FrameDiff
  import opened SlideNames
  import opened Sampling
  import opened Detection

  /** The state of the loop with the cursor at frame c: the reference and
      the slides are those of the pass over frames 1 .. c - 1. */
  predicate Scanned(video: seq<ColorFrame>, luma: Pixel -> Byte, outputPath: string,
                    c: nat, reference: GrayFrame, slides: seq<Slide>)
  {
    1 <= c <= |video| && Examinable(video, AfterFirst(c)) &&
    reference == Run(video, luma, AfterFirst(c)).reference &&
    SavedSlides(video, AsDecoded, outputPath, Run(video, luma, AfterFirst(c)).accepted, slides)
  }

  /** Reading frame c keeps the loop state: an accepted frame is saved as the
      next slide and becomes the reference, a rejected one changes nothing. */
  lemma ScanStep(video: seq<ColorFrame>, luma: Pixel -> Byte, outputPath: string,
                 c: nat, reference: GrayFrame, slides: seq<Slide>, reference': GrayFrame, slides': seq<Slide>)
    requires Scanned(video, luma, outputPath, c, reference, slides)
    requires c < |video|
    requires var g := Gray(video, luma, c);
             SameShape(reference, g) &&
             if IsNewSlide(reference, g)
             then reference' == g &&
                  slides' == slides + [Slide(|slides| + 1, c, video[c], SlideFileName(outputPath, |slides| + 1))]
             else reference' == reference && slides' == slides
    ensures Scanned(video, luma, outputPath, c + 1, reference', slides')
  {
    var examined := AfterFirst(c);
    RunAppend(video, luma, examined, c);
    AfterFirstStep(c);
    var g := Gray(video, luma, c);
    if IsNewSlide(reference, g) {
      SavedSlidesAppend(video, AsDecoded, outputPath, Run(video, luma, examined).accepted, slides, c, slides'[|slides|]);
      assert slides' == slides + [slides'[|slides|]];
    }
  }

  /** One iteration of the loop of src/SlideSnatcher/main.py: read the frame
      at the cursor and compare it with the reference; an accepted frame is
      saved as the next slide and becomes the reference. */
  method Step(video: seq<ColorFrame>, luma: Pixel -> Byte, outputPath: string,
              cursor: nat, prevFrameGray: GrayFrame, slideNumber: nat, slides: seq<Slide>)
    returns (cursor': nat, prevFrameGray': GrayFrame, slideNumber': nat, slides': seq<Slide>)
    requires cursor < |video|
    requires Scanned(video, luma, outputPath, cursor, prevFrameGray, slides)
    requires slideNumber == |slides|
    ensures cursor' == cursor + 1
    ensures Scanned(video, luma, outputPath, cursor', prevFrameGray', slides')
    ensures slideNumber' == |slides'|
  {
    var index := cursor;
    var frame := video[index];
    cursor' := cursor + 1;
    var grayFrame := Gray(video, luma, index);
    prevFrameGray', slideNumber', slides' := prevFrameGray, slideNumber, slides;
    if IsNewSlide(prevFrameGray, grayFrame) {
      slideNumber' := slideNumber + 1;
      slides' := slides + [Slide(slideNumber', index, frame, SlideFileName(outputPath, slideNumber'))];
      prevFrameGray' := grayFrame;
    }
    ScanStep(video, luma, outputPath, cursor, prevFrameGray, slides, prevFrameGray', slides');
  }

  /** The module-level detection loop of src/SlideSnatcher/main.py over a
      decoded video. */
  method ExtractSlides(video: seq<ColorFrame>, luma: Pixel -> Byte, outputPath: string)
    returns (outcome: Outcome)
    requires Uniform(video)
    ensures outcome == ReadFailed <==> video == []
    ensures outcome.Finished? ==>
              var accepted := Run(video, luma, AfterFirst(|video|)).accepted;
              SavedSlides(video, AsDecoded, outputPath, accepted, outcome.slides)
  {
    if |video| == 0 {
      // The first read fails: the program exits before the loop.
      return ReadFailed;
    }
    var prevFrameGray := Grayscale(video[0], luma);
    var slideNumber := 0;
    var cursor := 1;
    var slides: seq<Slide> := [];
    while cursor < |video|
      invariant Scanned(video, luma, outputPath, cursor, prevFrameGray, slides)
      invariant slideNumber == |slides|
      decreases |video| - cursor
    {
      cursor, prevFrameGray, slideNumber, slides :=
        Step(video, luma, outputPath, cursor, prevFrameGray, slideNumber, slides);
    }
    outcome := Finished(slides);
  }

  /** What a completed run saves: slides numbered 1, 2, 3, ... in the order
      of their frames, none of them frame 0, each in a file of its own. */
  lemma SavedSlidesInOrder(video: seq<ColorFrame>, luma: Pixel -> Byte, outputPath: string, slides: seq<Slide>)
    requires Uniform(video) && |video| > 0
    requires SavedSlides(video, AsDecoded, outputPath, Run(video, luma, AfterFirst(|video|)).accepted, slides)
    ensures forall k :: 0 <= k < |slides| ==> slides[k].number == k + 1 && 1 <= slides[k].frame < |video|
    ensures forall a, b :: 0 <= a < b < |slides| ==>
              slides[a].frame < slides[b].frame && slides[a].fileName != slides[b].fileName
  {
    var xs := AfterFirst(|video|);
    AcceptedAtLeast(video, luma, xs, 1);
    AfterFirstIncreasing(|video|);
    AcceptedIncreasing(video, luma, xs);
    SlidesInOrder(video, AsDecoded, outputPath, Run(video, luma, xs).accepted, slides);
  }
}
