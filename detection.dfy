/** The detection pass both extractors run, as a function of the video and
    of the positions they examine. The pass keeps one reference grayscale
    frame, at first frame 0. Each examined frame is compared with it by the
    accept rule; an accepted frame becomes a slide and the new reference, a
    rejected one changes nothing. */
module Detection {
  import opened Frames
  import opened FrameDiff
  import opened SlideNames
  import opened Sampling

  /** A saved slide: its number, the position of its frame in the video, the
      image written and the file it is written to. */
  datatype Slide = Slide(number: nat, frame: nat, image: ColorFrame, fileName: string)

  /** How a run ends: the first read failed (the program exits without
      examining anything), or the pass ran until a read failed. */
  datatype Outcome = ReadFailed | Finished(slides: seq<Slide>)

  /** What the pass carries from one examined frame to the next: the
      reference and the positions of the frames accepted so far, whose
      number is the slide counter. */
  datatype ScanState = ScanState(reference: GrayFrame, accepted: seq<nat>)

  /** A non-empty video of one resolution, and positions inside it. */
  predicate Examinable(video: seq<ColorFrame>, xs: seq<nat>)
  {
    |video| > 0 && Uniform(video) && AllBelow(xs, |video|)
  }

  /** The grayscale image of frame i. */
  function Gray(video: seq<ColorFrame>, luma: Pixel -> Byte, i: nat): (g: GrayFrame)
    requires |video| > 0 && Uniform(video) && i < |video|
    ensures SameShape(g, video[0])
  {
    Grayscale(video[i], luma)
  }

  /** The grayscale image of the last of the accepted frames, or of frame 0
      when none has been accepted. */
  function LastAccepted(video: seq<ColorFrame>, luma: Pixel -> Byte, accepted: seq<nat>): (g: GrayFrame)
    requires Examinable(video, accepted)
    ensures SameShape(g, video[0])
  {
    Gray(video, luma, if accepted == [] then 0 else accepted[|accepted| - 1])
  }

  /** The pass over the examined positions xs, in order. The reference it
      ends with is the last accepted frame, never merely the last examined
      one, and every accepted position is an examined one. */
  function Run(video: seq<ColorFrame>, luma: Pixel -> Byte, xs: seq<nat>): (s: ScanState)
    requires Examinable(video, xs)
    ensures Examinable(video, s.accepted)
    ensures s.reference == LastAccepted(video, luma, s.accepted)
    ensures forall k :: 0 <= k < |s.accepted| ==> s.accepted[k] in xs
    ensures |s.accepted| <= |xs|
    decreases |xs|
  {
    if xs == [] then ScanState(Gray(video, luma, 0), [])
    else
      var s := Run(video, luma, xs[..|xs| - 1]);
      var i := xs[|xs| - 1];
      var g := Gray(video, luma, i);
      if IsNewSlide(s.reference, g) then ScanState(g, s.accepted + [i]) else s
  }

  /** Examining one more frame i: compared with the reference, it is either
      accepted (appended, and the new reference) or leaves the state as it
      was. */
  lemma RunAppend(video: seq<ColorFrame>, luma: Pixel -> Byte, xs: seq<nat>, i: nat)
    requires Examinable(video, xs) && i < |video|
    ensures Examinable(video, xs + [i])
    ensures var s := Run(video, luma, xs);
            var g := Gray(video, luma, i);
            Run(video, luma, xs + [i]) ==
              if IsNewSlide(s.reference, g) then ScanState(g, s.accepted + [i]) else s
  {
    assert (xs + [i])[..|xs|] == xs;
  }

  /** One more examined frame: it is compared with the last accepted frame
      (frame 0 if none); if it is a new slide it is appended to the accepted
      positions and becomes the reference, otherwise nothing changes. */
  lemma {:induction false} RunStep(video: seq<ColorFrame>, luma: Pixel -> Byte, xs: seq<nat>, p: nat)
    requires Examinable(video, xs) && p < |xs|
    ensures var before := Run(video, luma, xs[..p]).accepted;
            var g := Gray(video, luma, xs[p]);
            Run(video, luma, xs[..p + 1]) ==
              if IsNewSlide(LastAccepted(video, luma, before), g)
              then ScanState(g, before + [xs[p]])
              else ScanState(LastAccepted(video, luma, before), before)
  {
    assert xs[..p + 1][..p] == xs[..p];
  }

  /** A frame that is examined and not appended failed the accept rule
      against the last accepted frame (frame 0 if none). */
  lemma RejectedFrameFailsRule(video: seq<ColorFrame>, luma: Pixel -> Byte, xs: seq<nat>, p: nat)
    requires Examinable(video, xs) && p < |xs|
    requires |Run(video, luma, xs[..p + 1]).accepted| == |Run(video, luma, xs[..p]).accepted|
    ensures var before := Run(video, luma, xs[..p]).accepted;
            !IsNewSlide(LastAccepted(video, luma, before), Gray(video, luma, xs[p]))
  {
    RunStep(video, luma, xs, p);
  }

  /** Every slide is a new slide with respect to the slide before it, the
      first one with respect to frame 0. */
  lemma {:induction false} ConsecutiveSlidesDiffer(video: seq<ColorFrame>, luma: Pixel -> Byte, xs: seq<nat>, k: nat)
    requires Examinable(video, xs)
    requires k < |Run(video, luma, xs).accepted|
    ensures var acc := Run(video, luma, xs).accepted;
            IsNewSlide(LastAccepted(video, luma, acc[..k]), Gray(video, luma, acc[k]))
    decreases |xs|
  {
    var init := xs[..|xs| - 1];
    var s := Run(video, luma, init);
    var acc := Run(video, luma, xs).accepted;
    if k < |s.accepted| {
      ConsecutiveSlidesDiffer(video, luma, init, k);
      assert acc[..k] == s.accepted[..k];
    } else {
      assert acc[..k] == s.accepted;
    }
  }

  /** Frames never examined are never accepted: a pass that starts after
      position lo accepts nothing before it. */
  lemma AcceptedAtLeast(video: seq<ColorFrame>, luma: Pixel -> Byte, xs: seq<nat>, lo: nat)
    requires Examinable(video, xs) && AllAtLeast(xs, lo)
    ensures AllAtLeast(Run(video, luma, xs).accepted, lo)
  {
    var acc := Run(video, luma, xs).accepted;
    forall k | 0 <= k < |acc|
      ensures lo <= acc[k]
    {
      var q :| 0 <= q < |xs| && xs[q] == acc[k];
    }
  }

  /** The accepted positions keep the order of the examined ones. */
  lemma {:induction false} AcceptedIncreasing(video: seq<ColorFrame>, luma: Pixel -> Byte, xs: seq<nat>)
    requires Examinable(video, xs) && Increasing(xs)
    ensures Increasing(Run(video, luma, xs).accepted)
    decreases |xs|
  {
    if xs != [] {
      var init, last := xs[..|xs| - 1], xs[|xs| - 1];
      AcceptedIncreasing(video, luma, init);
      var prev := Run(video, luma, init).accepted;
      var acc := Run(video, luma, xs).accepted;
      if acc != prev {
        assert acc == prev + [last];
        forall a, b | 0 <= a < b < |acc|
          ensures acc[a] < acc[b]
        {
          assert acc[a] == prev[a];
          if b == |prev| {
            assert prev[a] in init;
            var q :| 0 <= q < |init| && init[q] == prev[a];
            assert xs[q] < xs[|xs| - 1];
          } else {
            assert acc[b] == prev[b];
          }
        }
      }
    }
  }

  /** A video whose examined frames all look like frame 0 in grayscale yields
      no slide. */
  lemma {:induction false} StillVideoHasNoSlides(video: seq<ColorFrame>, luma: Pixel -> Byte, xs: seq<nat>)
    requires Examinable(video, xs)
    requires forall k :: 0 <= k < |xs| ==> Gray(video, luma, xs[k]) == Gray(video, luma, 0)
    ensures Run(video, luma, xs).accepted == []
    decreases |xs|
  {
    if xs != [] {
      StillVideoHasNoSlides(video, luma, xs[..|xs| - 1]);
      IdenticalNotNewSlide(Gray(video, luma, 0));
    }
  }

  /** A video that shows one picture up to position p of the examined
      frames and another, different enough, from there on yields exactly one
      slide: the frame at position p. */
  lemma {:induction false} OneCutYieldsOneSlide(video: seq<ColorFrame>, luma: Pixel -> Byte, xs: seq<nat>, p: nat)
    requires Examinable(video, xs) && p < |xs|
    requires forall k :: 0 <= k < p ==> Gray(video, luma, xs[k]) == Gray(video, luma, 0)
    requires forall k :: p <= k < |xs| ==> Gray(video, luma, xs[k]) == Gray(video, luma, xs[p])
    requires IsNewSlide(Gray(video, luma, 0), Gray(video, luma, xs[p]))
    ensures Run(video, luma, xs).accepted == [xs[p]]
    decreases |xs|
  {
    var init := xs[..|xs| - 1];
    if |xs| - 1 == p {
      StillVideoHasNoSlides(video, luma, init);
    } else {
      OneCutYieldsOneSlide(video, luma, init, p);
      IdenticalNotNewSlide(Gray(video, luma, xs[p]));
    }
  }

  /** The slides a pass saves: slide k + 1 is the k-th accepted frame, as
      `save` converts it for writing, in the file `slide_{k + 1}.png` of the
      output directory. */
  predicate SavedSlides(video: seq<ColorFrame>, save: ColorFrame -> ColorFrame, directory: string,
                        accepted: seq<nat>, slides: seq<Slide>)
    requires AllBelow(accepted, |video|)
  {
    |slides| == |accepted| &&
    forall k :: 0 <= k < |slides| ==>
      slides[k] == Slide(k + 1, accepted[k], save(video[accepted[k]]), SlideFileName(directory, k + 1))
  }

  lemma SavedSlidesAppend(video: seq<ColorFrame>, save: ColorFrame -> ColorFrame, directory: string,
                          accepted: seq<nat>, slides: seq<Slide>, index: nat, slide: Slide)
    requires AllBelow(accepted, |video|) && index < |video|
    requires SavedSlides(video, save, directory, accepted, slides)
    requires slide == Slide(|slides| + 1, index, save(video[index]), SlideFileName(directory, |slides| + 1))
    ensures AllBelow(accepted + [index], |video|)
    ensures SavedSlides(video, save, directory, accepted + [index], slides + [slide])
  {
  }

  /** Slides saved for accepted positions that are increasing and never 0
      are numbered 1, 2, 3, ..., never come from frame 0, keep the order of
      the video and go to distinct files. */
  lemma SlidesInOrder(video: seq<ColorFrame>, save: ColorFrame -> ColorFrame, directory: string,
                      accepted: seq<nat>, slides: seq<Slide>)
    requires AllBelow(accepted, |video|) && AllAtLeast(accepted, 1) && Increasing(accepted)
    requires SavedSlides(video, save, directory, accepted, slides)
    ensures forall k :: 0 <= k < |slides| ==> slides[k].number == k + 1 && 1 <= slides[k].frame < |video|
    ensures forall a, b :: 0 <= a < b < |slides| ==>
              slides[a].frame < slides[b].frame && slides[a].fileName != slides[b].fileName
  {
    forall a, b | 0 <= a < b < |slides|
      ensures slides[a].fileName != slides[b].fileName
    {
      SlideFileNamesDistinct(directory, a + 1, b + 1);
    }
  }
}
