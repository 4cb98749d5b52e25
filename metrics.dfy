/** Frames delivered by the video decoder and the pixel-difference energy
    the scene-change detectors compare against their threshold. */
module Metrics {

  /** A grayscale frame: its pixel grid flattened row by row. All frames of one
      video share one resolution, so they all have the same length. */
  type Frame = seq<int>

  /** Every sample is an 8-bit intensity. */
  predicate IsGrayFrame(f: Frame)
  {
    forall p :: 0 <= p < |f| ==> 0 <= f[p] <= 255
  }

  function AbsDiff(a: int, b: int): int
  {
    if a < b then b - a else a - b
  }

  /** The change score: per-pixel absolute difference, summed over the grid. */
  function DiffScore(a: Frame, b: Frame): (d: int)
    requires |a| == |b|
    ensures d >= 0
    decreases |a|
  {
    if a == [] then 0 else AbsDiff(a[0], b[0]) + DiffScore(a[1..], b[1..])
  }

  lemma {:induction false} DiffScoreSymmetric(a: Frame, b: Frame)
    requires |a| == |b|
    ensures DiffScore(a, b) == DiffScore(b, a)
    decreases |a|
  {
    if a != [] {
      DiffScoreSymmetric(a[1..], b[1..]);
    }
  }

  /** The score is zero exactly for identical frames. */
  lemma {:induction false} DiffScoreZeroIff(a: Frame, b: Frame)
    requires |a| == |b|
    ensures DiffScore(a, b) == 0 <==> a == b
    decreases |a|
  {
    if a != [] {
      DiffScoreZeroIff(a[1..], b[1..]);
      if DiffScore(a, b) == 0 {
        assert a == [a[0]] + a[1..] && b == [b[0]] + b[1..];
      }
    }
  }

  /** The score is not normalised: it grows with the resolution, up to 255 per pixel. */
  lemma {:induction false} DiffScoreBound(a: Frame, b: Frame)
    requires |a| == |b| && IsGrayFrame(a) && IsGrayFrame(b)
    ensures DiffScore(a, b) <= 255 * |a|
    decreases |a|
  {
    if a != [] {
      assert IsGrayFrame(a[1..]) && IsGrayFrame(b[1..]) by {
        forall p | 0 <= p < |a| - 1 ensures 0 <= a[1..][p] <= 255 && 0 <= b[1..][p] <= 255 {
          assert a[1..][p] == a[p + 1] && b[1..][p] == b[p + 1];
        }
      }
      DiffScoreBound(a[1..], b[1..]);
      assert 0 <= a[0] <= 255 && 0 <= b[0] <= 255;
    }
  }
}

/** What the decoder hands the detectors, and what they write. */
module Video {
  import opened Metrics

  datatype Option<T> = None | Some(value: T)

  /** One decoded frame: the colour image and its grayscale conversion. */
  datatype Decoded<C> = Decoded(color: C, gray: Frame)

  /** The result of opening a video file. */
  datatype Source<C> = CannotOpen | Opened(frames: seq<Decoded<C>>)

  /** A slide written to the output folder: file name, colour image, and the
      value of the frame counter when it was written. */
  datatype Slide<C> = Slide(name: string, image: C, frame: nat)

  /** What an extraction run produced. */
  datatype Extraction<C> =
    | VideoNotOpened
    | Extracted(written: seq<Slide<C>>, frameCount: nat, savedCount: nat)

  /** The decoder delivers frames of one resolution with 8-bit samples. */
  predicate ValidVideo<C>(v: seq<Decoded<C>>)
  {
    forall i :: 0 <= i < |v| ==> |v[i].gray| == |v[0].gray| && IsGrayFrame(v[i].gray)
  }

  /** The frame counter of the last save, or -minDistancia before the first. */
  function LastSaved(s: seq<nat>, minDistancia: int): int
  {
    if s == [] then -minDistancia else s[|s| - 1]
  }

  /** Frame numbers in increasing order, more than minDistancia apart. */
  predicate Spaced(s: seq<nat>, minDistancia: int)
  {
    forall k :: 0 < k < |s| ==> s[k - 1] < s[k] && s[k] - s[k - 1] > minDistancia
  }
}
