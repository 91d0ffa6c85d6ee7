/** The processing step that chains the sampler and the grid composer:
    `frames = video_file_to_frames(filename)` followed by
    `img_grid = image_grid(frames)`. */
module Pipeline {
  import opened Wrappers
  import opened Raster
  import Sampler
  import Grid

  /** The two `ValueError`s the step can raise. */
  datatype PipelineError = SourceNotOpened | NoFramesRead

  /** Every frame the decoder produces is a well-formed `w`-by-`h` image. */
  ghost predicate DecodesUniformly(read: nat -> Option<Image>, w: nat, h: nat) {
    forall i: nat :: read(i).Some? ==>
      read(i).value.Valid() && read(i).value.width == w && read(i).value.height == h
  }

  /** Sample a capture and compose the grid. An unopened capture fails
      first; a capture none of whose nine targets can be read fails in the
      composer; otherwise the grid is the one composed from exactly the
      frames that were read. */
  method FramesToGrid(cap: Sampler.Capture<Image>, layout: Grid.Layout, ghost w: nat, ghost h: nat)
    returns (r: Result<Image, PipelineError>)
    requires layout.Valid() && DecodesUniformly(cap.read, w, h)
    ensures r == Failure(SourceNotOpened) <==> !cap.isOpened
    ensures r == Failure(NoFramesRead) <==>
      cap.isOpened && forall k :: 0 <= k < Sampler.SampleCount ==>
        cap.read(Sampler.TargetIndices(cap.frameCount)[k]).None?
    ensures r.Success? ==>
      Grid.ImageGrid(Sampler.Sampled(Sampler.TargetIndices(cap.frameCount), cap.read), layout)
        == Success(r.value)
  {
    var sampled := Sampler.VideoFileToFrames(cap);
    if sampled.Failure? {
      return Failure(SourceNotOpened);
    }
    var indices := Sampler.TargetIndices(cap.frameCount);
    var frames := sampled.value;
    Sampler.ReadsOfDetermines(frames, indices, cap.read);
    Sampler.NoneKeptIffAllFail(indices, cap.read);
    UniformSample(indices, cap.read, w, h);
    var grid := Grid.ImageGrid(frames, layout);
    if grid.Failure? {
      return Failure(NoFramesRead);
    }
    return Success(grid.value);
  }

  /** Frames read from a uniformly decoding capture can be composed. */
  lemma UniformSample(indices: seq<nat>, read: nat -> Option<Image>, w: nat, h: nat)
    requires DecodesUniformly(read, w, h)
    ensures Grid.Uniform(Sampler.Sampled(indices, read))
    ensures forall k :: 0 <= k < |Sampler.Sampled(indices, read)| ==>
      Sampler.Sampled(indices, read)[k].width == w && Sampler.Sampled(indices, read)[k].height == h
  {
    var frames := Sampler.Sampled(indices, read);
    var kept := Sampler.Kept(indices, read);
    forall k | 0 <= k < |frames|
      ensures frames[k].Valid() && frames[k].width == w && frames[k].height == h
    {
      assert read(kept[k]) == Some(frames[k]);
    }
  }

  /** A 270-frame video whose only unreadable target is index 240 yields
      eight frames, and the ninth cell of a nine-cell grid, such as the
      default 3x3 one, stays white. */
  lemma LastTargetUnreadableLeavesNinthCellWhite(
    read: nat -> Option<Image>, w: nat, h: nat, layout: Grid.Layout, dx: nat, dy: nat)
    requires DecodesUniformly(read, w, h)
    requires read(240).None? && forall i :: 0 <= i < 240 ==> read(i).Some?
    requires layout.Valid() && layout.Cells() == 9
    requires dx < w && dy < h
    ensures var frames := Sampler.Sampled(Sampler.TargetIndices(270), read);
            && |frames| == 8
            && Grid.ImageGrid(frames, layout).Success?
            && var g := Grid.ImageGrid(frames, layout).value;
               var origin := Grid.CellOrigin(8, w, h, layout);
               && origin.0 + dx < g.width && origin.1 + dy < g.height
               && g.At(origin.0 + dx, origin.1 + dy) == White
  {
    var indices := Sampler.TargetIndices(270);
    var frames := Sampler.Sampled(indices, read);
    assert |frames| == 8 by {
      Sampler.LastTargetUnreadable(read);
    }
    assert Grid.Uniform(frames) && frames[0].width == w && frames[0].height == h by {
      UniformSample(indices, read, w, h);
    }
    Grid.EmptyCellWhite(frames, layout, 8, dx, dy);
  }
}
