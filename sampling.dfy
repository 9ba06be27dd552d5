/** Which frames the extractors examine. Frame 0 is only read as the first
    reference. The strided extractor then reads one frame and seeks
    `skip - 1` frames ahead, so it examines frames 1, 1 + skip, 1 + 2*skip,
    ... until a read fails; the every-frame extractor examines 1, 2, 3, ... */
module Sampling {

  /** The positions start, start + skip, start + 2*skip, ... below n: the
      frames a strided pass reads before its first failing read. */
  function StridedFrom(start: nat, n: nat, skip: nat): (xs: seq<nat>)
    requires skip >= 1
    ensures xs == [] <==> start >= n
    ensures forall k :: 0 <= k < |xs| ==> start <= xs[k] < n
    ensures xs != [] ==> xs[0] == start && xs[|xs| - 1] + skip >= n
    decreases n - start
  {
    if start >= n then [] else [start] + StridedFrom(start + skip, n, skip)
  }

  /** The k-th examined position is start + k*skip. */
  lemma {:induction false} StridedAt(start: nat, n: nat, skip: nat, k: nat)
    requires skip >= 1
    requires k < |StridedFrom(start, n, skip)|
    ensures StridedFrom(start, n, skip)[k] == start + k * skip
    decreases k
  {
    if k > 0 {
      StridedAt(start + skip, n, skip, k - 1);
      assert start + k * skip == (start + skip) + (k - 1) * skip;
    }
  }

  /** No position of the stride pattern below n is skipped. */
  lemma {:induction false} StridedCovers(start: nat, n: nat, skip: nat, m: nat)
    requires skip >= 1
    requires start + m * skip < n
    ensures start + m * skip in StridedFrom(start, n, skip)
    decreases m
  {
    if m > 0 {
      assert start + m * skip == (start + skip) + (m - 1) * skip;
      StridedCovers(start + skip, n, skip, m - 1);
    }
  }

  /** Strictly increasing positions. */
  predicate Increasing(xs: seq<nat>)
  {
    forall a, b :: 0 <= a < b < |xs| ==> xs[a] < xs[b]
  }

  /** A strided pass reads forward only. */
  lemma {:induction false} StridedIncreasing(start: nat, n: nat, skip: nat)
    requires skip >= 1
    ensures Increasing(StridedFrom(start, n, skip))
    decreases n - start
  {
    if start < n {
      var xs, rest := StridedFrom(start, n, skip), StridedFrom(start + skip, n, skip);
      StridedIncreasing(start + skip, n, skip);
      assert xs == [start] + rest;
      forall a, b | 0 <= a < b < |xs|
        ensures xs[a] < xs[b]
      {
        assert xs[b] == rest[b - 1];
        if a > 0 {
          assert xs[a] == rest[a - 1];
        }
      }
    }
  }

  /** The frames after the first, in order: what the every-frame extractor
      examines in a video of n frames. */
  function AfterFirst(n: nat): (xs: seq<nat>)
    ensures |xs| == if n == 0 then 0 else n - 1
    ensures AllAtLeast(xs, 1) && AllBelow(xs, n)
  {
    if n <= 1 then [] else AfterFirst(n - 1) + [n - 1]
  }

  /** Examining frame c extends the every-frame pass by c. */
  lemma AfterFirstStep(c: nat)
    requires c >= 1
    ensures AfterFirst(c + 1) == AfterFirst(c) + [c]
  {
  }

  /** The k-th examined frame of the every-frame pass is frame k + 1. */
  lemma {:induction false} AfterFirstAt(n: nat, k: nat)
    requires k < |AfterFirst(n)|
    ensures AfterFirst(n)[k] == k + 1
  {
    if k < n - 2 {
      AfterFirstAt(n - 1, k);
    }
  }

  /** The every-frame pass reads forward only. */
  lemma AfterFirstIncreasing(n: nat)
    ensures Increasing(AfterFirst(n))
  {
    var xs := AfterFirst(n);
    forall a, b | 0 <= a < b < |xs|
      ensures xs[a] < xs[b]
    {
      AfterFirstAt(n, a);
      AfterFirstAt(n, b);
    }
  }

  /** Examining every frame is the strided pass with stride 1. */
  lemma AfterFirstIsStrideOne(n: nat)
    ensures AfterFirst(n) == StridedFrom(1, n, 1)
  {
    var xs, ys := AfterFirst(n), StridedFrom(1, n, 1);
    forall k | 0 <= k < |ys|
      ensures ys[k] == k + 1
    {
      StridedAt(1, n, 1, k);
    }
    forall k | 0 <= k < |xs|
      ensures xs[k] == k + 1
    {
      AfterFirstAt(n, k);
    }
    if ys != [] {
      assert |ys| == n - 1 by {
        assert ys[|ys| - 1] == |ys|;
      }
    }
  }

  /** The stride as main.py computes it: two seconds of video at the frame
      rate truncated to an integer. */
  function AsWrittenStride(frameRate: nat): (skip: nat)
    ensures skip % 2 == 0
    ensures skip == 0 <==> frameRate == 0
  {
    frameRate * 2
  }

  /** The stride used by this model: as written, except at least 1. */
  function Stride(frameRate: nat): (skip: nat)
    ensures skip >= 1
    ensures frameRate >= 1 ==> skip == AsWrittenStride(frameRate)
  {
    if frameRate == 0 then 1 else frameRate * 2
  }

  /** The cursor set after a read has left it at `next`: the current
      position plus skip - 1. */
  function SeekAfterRead(next: int, skip: int): (pos: int)
    ensures pos - (next - 1) == skip
  {
    next + skip - 1
  }

  /** The frame position read by the k-th loop iteration of the strided
      extractor: frame 0 has been read, so the first iteration reads frame 1,
      and each iteration reads one frame and then seeks. */
  function Cursor(skip: nat, k: nat): (pos: nat)
    ensures pos >= 1
    ensures skip >= 1 ==> pos >= k + 1
  {
    if k == 0 then 1 else SeekAfterRead(Cursor(skip, k - 1) + 1, skip)
  }

  /** The positions read by the first m iterations, in order. */
  function Visited(skip: nat, m: nat): (xs: seq<nat>)
    ensures |xs| == m
  {
    if m == 0 then [] else Visited(skip, m - 1) + [Cursor(skip, m - 1)]
  }

  /** One more iteration appends the position it reads and moves the cursor
      to the position after the seek. */
  lemma VisitedStep(skip: nat, m: nat)
    ensures Visited(skip, m + 1) == Visited(skip, m) + [Cursor(skip, m)]
    ensures Cursor(skip, m + 1) == SeekAfterRead(Cursor(skip, m) + 1, skip)
  {
  }

  /** Every position is at least lo. */
  predicate AllAtLeast(xs: seq<nat>, lo: nat)
  {
    forall k :: 0 <= k < |xs| ==> lo <= xs[k]
  }

  /** Every position is below n. */
  predicate AllBelow(xs: seq<nat>, n: nat)
  {
    forall k :: 0 <= k < |xs| ==> xs[k] < n
  }

  /** While every read succeeds, the positions read so far followed by the
      stride pattern from the cursor on are the whole pattern: the loop
      reads exactly StridedFrom(1, n, skip) when it stops. */
  lemma {:induction false} VisitedIsStrided(skip: nat, n: nat, m: nat)
    requires skip >= 1
    requires AllBelow(Visited(skip, m), n)
    ensures Visited(skip, m) + StridedFrom(Cursor(skip, m), n, skip) == StridedFrom(1, n, skip)
  {
    if m > 0 {
      var prev, c := Visited(skip, m - 1), Cursor(skip, m - 1);
      assert Visited(skip, m) == prev + [c];
      assert c < n by {
        assert Visited(skip, m)[m - 1] == c;
      }
      assert AllBelow(prev, n) by {
        forall k | 0 <= k < |prev|
          ensures prev[k] < n
        {
          assert prev[k] == Visited(skip, m)[k];
        }
      }
      VisitedIsStrided(skip, n, m - 1);
      StridedStep(prev, c, n, skip, StridedFrom(1, n, skip));
      assert Cursor(skip, m) == c + skip;
    }
  }

  /** Reading position c of a strided pass moves the rest of the pass on to
      c + skip. */
  lemma StridedStep(done: seq<nat>, c: nat, n: nat, skip: nat, whole: seq<nat>)
    requires skip >= 1 && c < n
    requires done + StridedFrom(c, n, skip) == whole
    ensures (done + [c]) + StridedFrom(c + skip, n, skip) == whole
  {
    var rest := StridedFrom(c + skip, n, skip);
    assert StridedFrom(c, n, skip) == [c] + rest;
    assert (done + [c]) + rest == done + ([c] + rest);
  }

  /** The k-th iteration reads frame 1 + k*skip. */
  lemma {:induction false} CursorAt(skip: nat, k: nat)
    ensures Cursor(skip, k) == 1 + k * skip
  {
    if k > 0 {
      CursorAt(skip, k - 1);
      assert 1 + k * skip == 1 + (k - 1) * skip + skip;
    }
  }

  /** As written, a frame rate that truncates to 0 gives stride 0, and every
      iteration reads frame 1 again: the loop never reaches the end of a
      video of two or more frames. */
  lemma {:induction false} ZeroFrameRateRereadsFrameOne(k: nat)
    ensures Cursor(AsWrittenStride(0), k) == 1
  {
    CursorAt(AsWrittenStride(0), k);
  }

  /** With the corrected stride the k-th iteration reads exactly the k-th
      position of the stride pattern, and the positions grow, so a video of n
      frames is done after at most n iterations. */
  lemma {:induction false} StrideCursorAdvances(frameRate: nat, n: nat, k: nat)
    requires k < |StridedFrom(1, n, Stride(frameRate))|
    ensures Cursor(Stride(frameRate), k) == StridedFrom(1, n, Stride(frameRate))[k]
    ensures Cursor(Stride(frameRate), k + 1) > Cursor(Stride(frameRate), k)
  {
    CursorAt(Stride(frameRate), k);
    CursorAt(Stride(frameRate), k + 1);
    StridedAt(1, n, Stride(frameRate), k);
  }
}
