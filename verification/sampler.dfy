/** The frame sampler of `video_file_to_frames`: nine evenly spaced target
    indices, each seeked and read once, unreadable ones skipped. */
module Sampler {
  import opened Wrappers

  /** The number of frames the sampler asks for. */
  const SampleCount: nat := 9

  /** An opened (or failed-to-open) capture as the sampler sees it:
      whether it opened, the frame count it reports, and what a seek to
      an index followed by a read yields (`None` when the read fails). */
  datatype Capture<F> = Capture(isOpened: bool, frameCount: int, read: nat -> Option<F>)

  datatype SamplerError = CouldNotOpen

  /** `max(1, total_frames // 9)`. The divisor is positive, so Dafny's
      Euclidean `/` agrees with Python's floor division even for the
      negative counts some backends report. */
  function Interval(totalFrames: int): (r: nat)
    ensures r >= 1
    ensures totalFrames < 2 * SampleCount ==> r == 1
    ensures totalFrames >= SampleCount ==>
      r * SampleCount <= totalFrames < (r + 1) * SampleCount
  {
    if totalFrames / SampleCount < 1 then 1 else totalFrames / SampleCount
  }

  predicate StrictlyIncreasing(s: seq<nat>) {
    forall i, j :: 0 <= i < j < |s| ==> s[i] < s[j]
  }

  /** `[i * interval for i in range(9)]`. */
  function TargetIndices(totalFrames: int): (r: seq<nat>)
    ensures |r| == SampleCount
    ensures r[0] == 0
    ensures forall i :: 0 <= i < |r| - 1 ==> r[i + 1] == r[i] + Interval(totalFrames)
    ensures StrictlyIncreasing(r)
  {
    var step := Interval(totalFrames);
    var r := seq(SampleCount, i requires 0 <= i => i * step);
    assert StrictlyIncreasing(r) by {
      forall i, j | 0 <= i < j < |r|
        ensures r[i] < r[j]
      {
        MulStrictlyMonotone(i, j, step);
      }
    }
    r
  }

  lemma MulStrictlyMonotone(a: nat, b: nat, c: nat)
    requires a < b && c >= 1
    ensures a * c < b * c
  {
    assert b * c == a * c + (b - a) * c;
  }

  /** When the video has at least nine frames every target index names a
      real frame, because 8 * (t / 9) < 9 * (t / 9) <= t. */
  lemma TargetIndicesInRange(totalFrames: int)
    requires totalFrames >= SampleCount
    ensures forall i :: 0 <= i < SampleCount ==> TargetIndices(totalFrames)[i] < totalFrames
  {
    var step := Interval(totalFrames);
    var r := TargetIndices(totalFrames);
    forall i | 0 <= i < SampleCount
      ensures r[i] < totalFrames
    {
      MulStrictlyMonotone(i, SampleCount, step);
    }
  }

  /** The indices whose read succeeded, in the order they were tried:
      the loop skips a failed index and puts nothing in its place. */
  function Kept<F>(indices: seq<nat>, read: nat -> Option<F>): (kept: seq<nat>)
    ensures |kept| <= |indices|
    ensures forall i :: i in kept <==> i in indices && read(i).Some?
  {
    if |indices| == 0 then []
    else
      var last := indices[|indices| - 1];
      var before := Kept(indices[..|indices| - 1], read);
      assert indices == indices[..|indices| - 1] + [last];
      if read(last).Some? then before + [last] else before
  }

  /** Keeping is a filter: it preserves the order of the tried indices. */
  lemma {:induction false} KeptIncreasing<F>(indices: seq<nat>, read: nat -> Option<F>)
    requires StrictlyIncreasing(indices)
    ensures StrictlyIncreasing(Kept(indices, read))
    decreases |indices|
  {
    if |indices| > 0 {
      var last := indices[|indices| - 1];
      var prefix := indices[..|indices| - 1];
      KeptIncreasing(prefix, read);
      var before := Kept(prefix, read);
      forall k | 0 <= k < |before|
        ensures before[k] < last
      {
        assert before[k] in prefix;
      }
    }
  }

  /** When every read succeeds nothing is dropped. */
  lemma {:induction false} KeptAllReadable<F>(indices: seq<nat>, read: nat -> Option<F>)
    requires forall k :: 0 <= k < |indices| ==> read(indices[k]).Some?
    ensures Kept(indices, read) == indices
    decreases |indices|
  {
    if |indices| > 0 {
      var prefix := indices[..|indices| - 1];
      KeptAllReadable(prefix, read);
      assert prefix + [indices[|indices| - 1]] == indices;
    }
  }

  /** Each index is kept or dropped on its own read alone: trying two runs
      of indices one after the other keeps what each run keeps, in order. */
  lemma {:induction false} KeptConcat<F>(a: seq<nat>, b: seq<nat>, read: nat -> Option<F>)
    ensures Kept(a + b, read) == Kept(a, read) + Kept(b, read)
    decreases |b|
  {
    if |b| == 0 {
      assert a + b == a;
    } else {
      var front := b[..|b| - 1];
      var last := b[|b| - 1];
      assert (a + b)[..|a + b| - 1] == a + front;
      assert (a + b)[|a + b| - 1] == last;
      KeptConcat(a, front, read);
    }
  }

  /** The frames a run over `indices` returns: one per kept index, each
      exactly what the read of that index produced. */
  ghost predicate ReadsOf<F>(frames: seq<F>, indices: seq<nat>, read: nat -> Option<F>) {
    var kept := Kept(indices, read);
    && |frames| == |kept|
    && forall k :: 0 <= k < |frames| ==> read(kept[k]) == Some(frames[k])
  }

  /** The frames a sampling run over `indices` returns. */
  function Sampled<F>(indices: seq<nat>, read: nat -> Option<F>): (frames: seq<F>)
    ensures ReadsOf(frames, indices, read)
  {
    var kept := Kept(indices, read);
    seq(|kept|, k requires 0 <= k < |kept| => read(kept[k]).value)
  }

  /** The reads determine the returned frames completely. */
  lemma ReadsOfDetermines<F>(frames: seq<F>, indices: seq<nat>, read: nat -> Option<F>)
    requires ReadsOf(frames, indices, read)
    ensures frames == Sampled(indices, read)
  {
  }

  /** A run returns no frame exactly when every tried read failed. */
  lemma NoneKeptIffAllFail<F>(indices: seq<nat>, read: nat -> Option<F>)
    ensures |Kept(indices, read)| == 0 <==> forall k :: 0 <= k < |indices| ==> read(indices[k]).None?
  {
    var kept := Kept(indices, read);
    if |kept| > 0 {
      assert kept[0] in indices;
    }
  }

  /** `video_file_to_frames`: fails before computing any index when the
      capture did not open; otherwise returns the successfully read frames
      among the nine target indices, in index order. */
  method VideoFileToFrames<F>(cap: Capture<F>) returns (r: Result<seq<F>, SamplerError>)
    ensures !cap.isOpened <==> r.Failure?
    ensures r.Success? ==> |r.value| <= SampleCount
    ensures r.Success? ==> ReadsOf(r.value, TargetIndices(cap.frameCount), cap.read)
    ensures r.Success? ==> StrictlyIncreasing(Kept(TargetIndices(cap.frameCount), cap.read))
  {
    if !cap.isOpened {
      return Failure(CouldNotOpen);
    }
    KeptIncreasing(TargetIndices(cap.frameCount), cap.read);
    var frames := ReadEach(TargetIndices(cap.frameCount), cap.read);
    return Success(frames);
  }

  /** The loop over the target indices: seek and read each one, keep the
      frame when the read succeeds and move on when it does not. */
  method ReadEach<F>(indices: seq<nat>, read: nat -> Option<F>) returns (frames: seq<F>)
    ensures |frames| <= |indices|
    ensures ReadsOf(frames, indices, read)
  {
    frames := [];
    ghost var kept: seq<nat> := [];
    var n := 0;
    while n < |indices|
      invariant 0 <= n <= |indices|
      invariant kept == Kept(indices[..n], read)
      invariant |frames| == |kept|
      invariant forall k :: 0 <= k < |frames| ==> read(kept[k]) == Some(frames[k])
    {
      var frame := read(indices[n]);
      KeptStep(indices, n, read);
      if frame.Some? {
        frames := frames + [frame.value];
        kept := kept + [indices[n]];
      }
      n := n + 1;
    }
    assert indices[..n] == indices;
  }

  /** Trying one more index appends it to the kept ones exactly when its
      read succeeds. */
  lemma KeptStep<F>(indices: seq<nat>, n: nat, read: nat -> Option<F>)
    requires n < |indices|
    ensures Kept(indices[..n + 1], read) ==
      Kept(indices[..n], read) + (if read(indices[n]).Some? then [indices[n]] else [])
  {
    assert indices[..n + 1][..n] == indices[..n];
  }

  /** A 270-frame video is sampled at 0, 30, ..., 240. */
  lemma TargetsOf270()
    ensures TargetIndices(270) == [0, 30, 60, 90, 120, 150, 180, 210, 240]
  {
    assert Interval(270) == 30;
  }

  /** If only index 240 of a 270-frame video fails to decode, the sampler
      keeps the other eight targets and nothing replaces the ninth. */
  lemma LastTargetUnreadable<F>(read: nat -> Option<F>)
    requires read(240).None?
    requires forall i :: 0 <= i < 240 ==> read(i).Some?
    ensures Kept(TargetIndices(270), read) == [0, 30, 60, 90, 120, 150, 180, 210]
  {
    TargetsOf270();
    var t := TargetIndices(270);
    assert t[..8] + [240] == t;
    KeptAllReadable(t[..8], read);
  }
}
