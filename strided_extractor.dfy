/** The extractor of main.py: after frame 0 it reads one frame, seeks ahead
    so that the next read is `skip` frames later, and compares the frame it
    read with the reference. Accepted frames are saved with their channels
    reversed (BGR to RGB). */
module StridedExtractor {
  import opened Frames
  import opened FrameDiff
  import opened SlideNames
  import opened Sampling
  import opened Detection

  /** The state of the loop after m iterations: the reference and the slides
      are those of the pass over the positions read so far. */
  predicate Scanned(video: seq<ColorFrame>, luma: Pixel -> Byte, skip: nat, outputDirectory: string,
                    m: nat, reference: GrayFrame, slides: seq<Slide>)
  {
    skip >= 1 && Examinable(video, Visited(skip, m)) &&
    reference == Run(video, luma, Visited(skip, m)).reference &&
    SavedSlides(video, ReverseChannels, outputDirectory, Run(video, luma, Visited(skip, m)).accepted, slides)
  }

  /** One iteration that reads a frame keeps the loop state: an accepted frame
      is saved as the next slide and becomes the reference, a rejected one
      changes nothing. */
  lemma ScanStep(video: seq<ColorFrame>, luma: Pixel -> Byte, skip: nat, outputDirectory: string,
                 m: nat, reference: GrayFrame, slides: seq<Slide>, reference': GrayFrame, slides': seq<Slide>)
    requires Scanned(video, luma, skip, outputDirectory, m, reference, slides)
    requires Cursor(skip, m) < |video|
    requires var i := Cursor(skip, m);
             var g := Gray(video, luma, i);
             SameShape(reference, g) &&
             if IsNewSlide(reference, g)
             then reference' == g &&
                  slides' == slides + [Slide(|slides| + 1, i, ReverseChannels(video[i]), SlideFileName(outputDirectory, |slides| + 1))]
             else reference' == reference && slides' == slides
    ensures Cursor(skip, m + 1) == Cursor(skip, m) + skip
    ensures Scanned(video, luma, skip, outputDirectory, m + 1, reference', slides')
  {
    var examined, i := Visited(skip, m), Cursor(skip, m);
    RunAppend(video, luma, examined, i);
    VisitedStep(skip, m);
    var g := Gray(video, luma, i);
    if IsNewSlide(reference, g) {
      SavedSlidesAppend(video, ReverseChannels, outputDirectory, Run(video, luma, examined).accepted, slides, i, slides'[|slides|]);
      assert slides' == slides + [slides'[|slides|]];
    }
  }

  /** Before the loop: frame 0 is the reference, nothing is saved, and the
      first read is at frame 1. */
  lemma ScanStart(video: seq<ColorFrame>, luma: Pixel -> Byte, skip: nat, outputDirectory: string)
    requires skip >= 1 && |video| > 0 && Uniform(video)
    ensures Cursor(skip, 0) == 1
    ensures Scanned(video, luma, skip, outputDirectory, 0, Grayscale(video[0], luma), [])
  {
  }

  /** When a read fails the loop has read exactly the stride pattern. */
  lemma ScanDone(video: seq<ColorFrame>, luma: Pixel -> Byte, skip: nat, outputDirectory: string,
                 m: nat, reference: GrayFrame, slides: seq<Slide>)
    requires Scanned(video, luma, skip, outputDirectory, m, reference, slides)
    requires Cursor(skip, m) >= |video|
    ensures SavedSlides(video, ReverseChannels, outputDirectory, Run(video, luma, StridedFrom(1, |video|, skip)).accepted, slides)
  {
    VisitedIsStrided(skip, |video|, m);
    assert StridedFrom(Cursor(skip, m), |video|, skip) == [];
    assert Visited(skip, m) + [] == Visited(skip, m);
  }

  /** One iteration of the loop of main.py: read the frame at the cursor,
      seek `skip - 1` frames ahead, and compare the frame with the
      reference; an accepted frame is saved as the next slide and becomes
      the reference. */
  method Step(video: seq<ColorFrame>, luma: Pixel -> Byte, skip: nat, outputDirectory: string, ghost m: nat,
              cursor: nat, prevFrameGray: GrayFrame, slideNumber: nat, slides: seq<Slide>)
    returns (cursor': nat, prevFrameGray': GrayFrame, slideNumber': nat, slides': seq<Slide>)
    requires cursor == Cursor(skip, m) < |video|
    requires Scanned(video, luma, skip, outputDirectory, m, prevFrameGray, slides)
    requires slideNumber == |slides|
    ensures cursor' == Cursor(skip, m + 1) && cursor' > cursor
    ensures Scanned(video, luma, skip, outputDirectory, m + 1, prevFrameGray', slides')
    ensures slideNumber' == |slides'|
  {
    var index := cursor;
    var frame := video[index];
    cursor' := SeekAfterRead(cursor + 1, skip);
    var grayFrame := Gray(video, luma, index);
    prevFrameGray', slideNumber', slides' := prevFrameGray, slideNumber, slides;
    if IsNewSlide(prevFrameGray, grayFrame) {
      slideNumber' := slideNumber + 1;
      slides' := slides + [Slide(slideNumber', index, ReverseChannels(frame), SlideFileName(outputDirectory, slideNumber'))];
      prevFrameGray' := grayFrame;
    }
    ScanStep(video, luma, skip, outputDirectory, m, prevFrameGray, slides, prevFrameGray', slides');
  }

  /** The loop of main.py from the second read on: it reads, seeks and
      compares until a read fails. */
  method Scan(video: seq<ColorFrame>, luma: Pixel -> Byte, skip: nat, outputDirectory: string)
    returns (prevFrameGray: GrayFrame, slides: seq<Slide>, ghost iterations: nat)
    requires skip >= 1 && |video| > 0 && Uniform(video)
    ensures Cursor(skip, iterations) >= |video|
    ensures Scanned(video, luma, skip, outputDirectory, iterations, prevFrameGray, slides)
  {
    ScanStart(video, luma, skip, outputDirectory);
    var slideNumber := 0;
    prevFrameGray := Grayscale(video[0], luma);
    var cursor := 1;
    slides := [];
    iterations := 0;
    while cursor < |video|
      invariant cursor == Cursor(skip, iterations)
      invariant Scanned(video, luma, skip, outputDirectory, iterations, prevFrameGray, slides)
      invariant slideNumber == |slides|
      decreases |video| - cursor
    {
      cursor, prevFrameGray, slideNumber, slides :=
        Step(video, luma, skip, outputDirectory, iterations, cursor, prevFrameGray, slideNumber, slides);
      iterations := iterations + 1;
    }
  }

  /** The detection loop of main.py over a decoded video. `frameRate` is the
      frame rate the decoder reports, truncated to an integer. */
  method ExtractSlides(video: seq<ColorFrame>, luma: Pixel -> Byte, frameRate: nat, outputDirectory: string)
    returns (outcome: Outcome)
    requires Uniform(video)
    ensures outcome == ReadFailed <==> video == []
    ensures outcome.Finished? ==>
              var accepted := Run(video, luma, StridedFrom(1, |video|, Stride(frameRate))).accepted;
              SavedSlides(video, ReverseChannels, outputDirectory, accepted, outcome.slides)
  {
    if |video| == 0 {
      // The first read fails: the program exits before the loop.
      return ReadFailed;
    }
    var skip := Stride(frameRate);
    var reference, slides, iterations := Scan(video, luma, skip, outputDirectory);
    ScanDone(video, luma, skip, outputDirectory, iterations, reference, slides);
    outcome := Finished(slides);
  }

  /** What a completed run saves: slides numbered 1, 2, 3, ... in the order
      of their frames, none of them frame 0, each in a file of its own. */
  lemma SavedSlidesInOrder(video: seq<ColorFrame>, luma: Pixel -> Byte, frameRate: nat,
                           outputDirectory: string, slides: seq<Slide>)
    requires Uniform(video) && |video| > 0
    requires SavedSlides(video, ReverseChannels, outputDirectory, Run(video, luma, StridedFrom(1, |video|, Stride(frameRate))).accepted, slides)
    ensures forall k :: 0 <= k < |slides| ==> slides[k].number == k + 1 && 1 <= slides[k].frame < |video|
    ensures forall a, b :: 0 <= a < b < |slides| ==>
              slides[a].frame < slides[b].frame && slides[a].fileName != slides[b].fileName
  {
    var xs := StridedFrom(1, |video|, Stride(frameRate));
    AcceptedAtLeast(video, luma, xs, 1);
    StridedIncreasing(1, |video|, Stride(frameRate));
    AcceptedIncreasing(video, luma, xs);
    SlidesInOrder(video, ReverseChannels, outputDirectory, Run(video, luma, xs).accepted, slides);
  }
}
