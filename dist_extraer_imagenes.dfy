/** dist/extraer_imagenes.py: the slide extractor with face, text and
    perceptual-hash filters, and its SSIM duplicate eliminator. */
module DistExtraerImagenes {
  import opened Metrics
  import opened Video
  import opened Texto
  import opened Names
  import opened KeepEarliest

  // ---------------------------------------------------------------------------
  // Frame selection with filters (extraer_diapositivas_mejorado)
  //
  // A candidate frame rejected by the face or text filter leaves the loop with
  // `continue`, before the previous frame and the frame counter are updated:
  // the next frame is compared with the frame before the rejected one, and the
  // counter does not count the rejected frame. `skipped` counts those frames.

  /** The loop's variables after some frames. */
  datatype Scan<C, H> = Scan(prevFrame: Option<Frame>, frameCount: nat, savedCount: nat,
                             lastSavedFrame: int, savedHashes: set<H>,
                             written: seq<Slide<C>>, skipped: nat)

  function Init<C, H>(minDistancia: int): Scan<C, H>
  {
    Scan(None, 0, 0, -minDistancia, {}, [], 0)
  }

  /** One pass of the loop body for the next decoded frame. */
  function Step<C, H(==)>(st: Scan<C, H>, frame: Decoded<C>, umbral: int, minDistancia: int,
                          hasFace: C -> bool, ocr: C -> string, phash: C -> H): Scan<C, H>
    requires st.prevFrame.Some? ==> |st.prevFrame.value| == |frame.gray|
  {
    var advanced := st.(prevFrame := Some(frame.gray), frameCount := st.frameCount + 1);
    if st.prevFrame.Some? && DiffScore(st.prevFrame.value, frame.gray) > umbral &&
       st.frameCount - st.lastSavedFrame > minDistancia then
      if hasFace(frame.color) || !ContieneTexto(ocr(frame.color)) then
        st.(skipped := st.skipped + 1)
      else if phash(frame.color) !in st.savedHashes then
        advanced.(written := st.written + [Slide(FileName(st.savedCount), frame.color, st.frameCount)],
                  savedHashes := st.savedHashes + {phash(frame.color)},
                  savedCount := st.savedCount + 1,
                  lastSavedFrame := st.frameCount)
      else advanced
    else advanced
  }

  /** The loop's variables after the first n frames of the video. */
  function Run<C, H(==)>(video: seq<Decoded<C>>, umbral: int, minDistancia: int,
                         hasFace: C -> bool, ocr: C -> string, phash: C -> H, n: nat): (st: Scan<C, H>)
    requires n <= |video| && ValidVideo(video)
    ensures st.prevFrame.Some? ==> 0 < n && |st.prevFrame.value| == |video[0].gray|
    decreases n
  {
    if n == 0 then Init(minDistancia)
    else Step(Run(video, umbral, minDistancia, hasFace, ocr, phash, n - 1), video[n - 1],
              umbral, minDistancia, hasFace, ocr, phash)
  }

  function SavedFrames<C>(written: seq<Slide<C>>): seq<nat>
  {
    seq(|written|, k requires 0 <= k < |written| => written[k].frame)
  }

  /** Slide k is written under the k-th file name. */
  predicate NamedByPosition<C>(w: seq<Slide<C>>)
  {
    forall k :: 0 <= k < |w| ==> w[k].name == FileName(k)
  }

  /** No written image shows a face and each carries text. */
  predicate PassedFilters<C>(w: seq<Slide<C>>, hasFace: C -> bool, ocr: C -> string)
  {
    forall k :: 0 <= k < |w| ==> !hasFace(w[k].image) && ContieneTexto(ocr(w[k].image))
  }

  /** The hashes of the written images. */
  ghost function HashesOf<C, H>(w: seq<Slide<C>>, phash: C -> H): set<H>
  {
    set k | 0 <= k < |w| :: phash(w[k].image)
  }

  /** No two written images share a hash. */
  ghost predicate HashesDistinct<C, H>(w: seq<Slide<C>>, phash: C -> H)
  {
    forall a, b :: 0 <= a < b < |w| ==> phash(w[a].image) != phash(w[b].image)
  }

  /** Every save happened at a counter value in [1, frameCount). */
  predicate FramesBelow<C>(w: seq<Slide<C>>, frameCount: nat)
  {
    forall k :: 0 <= k < |w| ==> 1 <= w[k].frame < frameCount
  }

  /** What the loop keeps true: one file per save, named by its position; no
      written image shows a face and each has text; the hash set holds exactly
      the hashes of the written images, which are pairwise different; the
      saves are spaced as the distance test demands and the last one is
      remembered; a previous frame exists once a frame has been counted. */
  ghost predicate ScanInvariant<C, H>(st: Scan<C, H>, minDistancia: int,
                                hasFace: C -> bool, ocr: C -> string, phash: C -> H)
  {
    st.savedCount == |st.written| &&
    NamedByPosition(st.written) &&
    PassedFilters(st.written, hasFace, ocr) &&
    st.savedHashes == HashesOf(st.written, phash) &&
    HashesDistinct(st.written, phash) &&
    Spaced(SavedFrames(st.written), minDistancia) &&
    st.lastSavedFrame == LastSaved(SavedFrames(st.written), minDistancia) &&
    FramesBelow(st.written, st.frameCount) &&
    (st.prevFrame.Some? <==> st.frameCount > 0)
  }

  lemma StepKeepsInvariant<C, H>(st: Scan<C, H>, frame: Decoded<C>, umbral: int, minDistancia: int,
                               hasFace: C -> bool, ocr: C -> string, phash: C -> H)
    requires st.prevFrame.Some? ==> |st.prevFrame.value| == |frame.gray|
    requires ScanInvariant(st, minDistancia, hasFace, ocr, phash)
    ensures var st' := Step(st, frame, umbral, minDistancia, hasFace, ocr, phash);
            ScanInvariant(st', minDistancia, hasFace, ocr, phash) &&
            st'.frameCount + st'.skipped == st.frameCount + st.skipped + 1
  {
    var st' := Step(st, frame, umbral, minDistancia, hasFace, ocr, phash);
    StepWritesIff(st, frame, umbral, minDistancia, hasFace, ocr, phash);
    if st'.written != st.written {
      SaveKeepsInvariant(st, frame.color, frame.gray, minDistancia, hasFace, ocr, phash);
    } else if st' == st.(skipped := st.skipped + 1) {
      SameSavesKeepInvariant(st, st', minDistancia, hasFace, ocr, phash);
    } else {
      assert st' == st.(prevFrame := Some(frame.gray), frameCount := st.frameCount + 1);
      SameSavesKeepInvariant(st, st', minDistancia, hasFace, ocr, phash);
    }
  }

  /** A step that writes nothing keeps the invariant: the saves stay as they
      were and the counter does not go back. */
  lemma SameSavesKeepInvariant<C, H>(st: Scan<C, H>, st': Scan<C, H>, minDistancia: int,
                                     hasFace: C -> bool, ocr: C -> string, phash: C -> H)
    requires ScanInvariant(st, minDistancia, hasFace, ocr, phash)
    requires st'.written == st.written && st'.savedCount == st.savedCount
    requires st'.savedHashes == st.savedHashes && st'.lastSavedFrame == st.lastSavedFrame
    requires st.frameCount <= st'.frameCount && (st'.prevFrame.Some? <==> st'.frameCount > 0)
    ensures ScanInvariant(st', minDistancia, hasFace, ocr, phash)
  {
  }

  /** The save branch: the written image passed both filters, its hash was
      new, and the distance test held. */
  lemma SaveKeepsInvariant<C, H>(st: Scan<C, H>, x: C, gray: Frame, minDistancia: int,
                                 hasFace: C -> bool, ocr: C -> string, phash: C -> H)
    requires ScanInvariant(st, minDistancia, hasFace, ocr, phash)
    requires st.frameCount > 0 && st.frameCount - st.lastSavedFrame > minDistancia
    requires !hasFace(x) && ContieneTexto(ocr(x)) && phash(x) !in st.savedHashes
    ensures var w' := st.written + [Slide(FileName(st.savedCount), x, st.frameCount)];
            ScanInvariant(Scan(Some(gray), st.frameCount + 1, st.savedCount + 1, st.frameCount,
                               st.savedHashes + {phash(x)}, w', st.skipped),
                          minDistancia, hasFace, ocr, phash)
  {
    var w := st.written;
    var slide := Slide(FileName(st.savedCount), x, st.frameCount);
    AppendKeepsNames(w, slide);
    AppendKeepsFilters(w, slide, hasFace, ocr);
    AppendKeepsBelow(w, slide);
    SavedFramesAppend(w, slide);
    SpacedAppend(SavedFrames(w), st.frameCount, minDistancia);
    HashesAppend(w, slide, phash);
  }

  lemma AppendKeepsNames<C>(w: seq<Slide<C>>, slide: Slide<C>)
    requires NamedByPosition(w) && slide.name == FileName(|w|)
    ensures NamedByPosition(w + [slide])
  {
    assert forall k :: 0 <= k < |w| ==> (w + [slide])[k] == w[k];
  }

  lemma AppendKeepsFilters<C>(w: seq<Slide<C>>, slide: Slide<C>, hasFace: C -> bool, ocr: C -> string)
    requires PassedFilters(w, hasFace, ocr)
    requires !hasFace(slide.image) && ContieneTexto(ocr(slide.image))
    ensures PassedFilters(w + [slide], hasFace, ocr)
  {
    assert forall k :: 0 <= k < |w| ==> (w + [slide])[k] == w[k];
  }

  /** A save made at a counter past every earlier save keeps every save
      below the next counter value. */
  lemma AppendKeepsBelow<C>(w: seq<Slide<C>>, slide: Slide<C>)
    requires FramesBelow(w, slide.frame) && 1 <= slide.frame
    ensures FramesBelow(w + [slide], slide.frame + 1)
    ensures forall k :: 0 <= k < |w| ==> SavedFrames(w)[k] < slide.frame
  {
    assert forall k :: 0 <= k < |w| ==> (w + [slide])[k] == w[k];
  }

  /** A save that passed the distance test, at a counter past every earlier
      save, keeps the saves spaced and becomes the last one. */
  lemma SpacedAppend(s: seq<nat>, f: nat, minDistancia: int)
    requires Spaced(s, minDistancia) && f - LastSaved(s, minDistancia) > minDistancia
    requires forall k :: 0 <= k < |s| ==> s[k] < f
    ensures Spaced(s + [f], minDistancia) && LastSaved(s + [f], minDistancia) == f
  {
    assert forall k :: 0 <= k < |s| ==> (s + [f])[k] == s[k];
  }

  lemma SavedFramesAppend<C>(w: seq<Slide<C>>, slide: Slide<C>)
    ensures SavedFrames(w + [slide]) == SavedFrames(w) + [slide.frame]
  {
    assert forall k :: 0 <= k < |w| ==> (w + [slide])[k] == w[k];
  }

  /** Appending a slide adds its hash; when the hash is new, the hashes stay
      pairwise different. */
  lemma HashesAppend<C, H>(w: seq<Slide<C>>, slide: Slide<C>, phash: C -> H)
    ensures HashesOf(w + [slide], phash) == HashesOf(w, phash) + {phash(slide.image)}
    ensures HashesDistinct(w, phash) && phash(slide.image) !in HashesOf(w, phash) ==>
              HashesDistinct(w + [slide], phash)
  {
    var w' := w + [slide];
    assert forall k :: 0 <= k < |w| ==> w'[k] == w[k];
    assert phash(w'[|w|].image) == phash(slide.image);
    if HashesDistinct(w, phash) && phash(slide.image) !in HashesOf(w, phash) {
      forall a, b | 0 <= a < b < |w'| ensures phash(w'[a].image) != phash(w'[b].image) {
        if b == |w| {
          assert phash(w[a].image) in HashesOf(w, phash);
        }
      }
    }
  }

  /** Every prefix of the run satisfies the invariant, and every frame read is
      either counted or skipped. */
  lemma {:induction false} RunKeepsInvariant<C, H>(video: seq<Decoded<C>>, umbral: int, minDistancia: int,
                                                      hasFace: C -> bool, ocr: C -> string, phash: C -> H, n: nat)
    requires n <= |video| && ValidVideo(video)
    ensures ScanInvariant(Run(video, umbral, minDistancia, hasFace, ocr, phash, n), minDistancia, hasFace, ocr, phash)
    ensures Run(video, umbral, minDistancia, hasFace, ocr, phash, n).frameCount +
            Run(video, umbral, minDistancia, hasFace, ocr, phash, n).skipped == n
    decreases n
  {
    if n == 0 {
      var st: Scan<C, H> := Init(minDistancia);
      assert HashesOf(st.written, phash) == {};
      assert ScanInvariant(st, minDistancia, hasFace, ocr, phash);
    } else {
      var prev := Run(video, umbral, minDistancia, hasFace, ocr, phash, n - 1);
      RunKeepsInvariant(video, umbral, minDistancia, hasFace, ocr, phash, n - 1);
      assert prev.prevFrame.Some? ==> |prev.prevFrame.value| == |video[n - 1].gray|;
      StepKeepsInvariant(prev, video[n - 1], umbral, minDistancia, hasFace, ocr, phash);
    }
  }

  // The detectors of the scenario below: image 1 shows a face, and every
  // image is its own hash. The OCR is left open; the scenario only asks that
  // image 2 carries text, as a title such as "Tema 1" does (TitleIsText).
  function FaceOnOne(c: int): bool { c == 1 }
  function Identity(c: int): int { c }

  function ScenarioVideo(): seq<Decoded<int>>
  {
    [Decoded(0, [0]), Decoded(1, [255]), Decoded(2, [255])]
  }

  /** After frames 0 and 1 only frame 0 counts: frame 1 was a candidate with a face. */
  lemma FaceSkipPrefix(ocr: int -> string)
    ensures ValidVideo(ScenarioVideo())
    ensures Run(ScenarioVideo(), 100, 0, FaceOnOne, ocr, Identity, 2) == Scan(Some([0]), 1, 0, 0, {}, [], 1)
  {
    assert DiffScore([0], [255]) == 255;
    assert Run(ScenarioVideo(), 100, 0, FaceOnOne, ocr, Identity, 1) == Scan(Some([0]), 1, 0, 0, {}, [], 0);
  }

  /** Frame 2 differs from frame 0, has text and no face, and is written. */
  lemma FaceSkipLastStep(ocr: int -> string)
    requires ContieneTexto(ocr(2))
    ensures Step(Scan(Some([0]), 1, 0, 0, {}, [], 1), Decoded(2, [255]), 100, 0, FaceOnOne, ocr, Identity) ==
            Scan(Some([255]), 2, 1, 1, {2}, [Slide(FileName(0), 2, 1)], 1)
  {
    assert DiffScore([0], [255]) == 255;
  }

  /** A rejected candidate does not become the previous frame: frame 1 shows a
      face and is skipped, so frame 2 is compared with frame 0, differs from
      it, and is written, although it is identical to frame 1. */
  lemma FaceSkipScenario(ocr: int -> string)
    requires ContieneTexto(ocr(2))
    ensures ValidVideo(ScenarioVideo())
    ensures var st := Run(ScenarioVideo(), 100, 0, FaceOnOne, ocr, Identity, 3);
            st.written == [Slide(FileName(0), 2, 1)] && st.frameCount == 2 && st.skipped == 1
  {
    FaceSkipPrefix(ocr);
    FaceSkipLastStep(ocr);
    assert ScenarioVideo()[2] == Decoded(2, [255]);
  }

  /** A frame whose hash was already written changes none of the saved
      state: no file, no new hash, and the spacing window keeps its start. */
  lemma SeenHashKeepsWindow<C, H>(st: Scan<C, H>, frame: Decoded<C>, umbral: int, minDistancia: int,
                                  hasFace: C -> bool, ocr: C -> string, phash: C -> H)
    requires st.prevFrame.Some? ==> |st.prevFrame.value| == |frame.gray|
    requires phash(frame.color) in st.savedHashes
    ensures var st' := Step(st, frame, umbral, minDistancia, hasFace, ocr, phash);
            st'.written == st.written && st'.savedHashes == st.savedHashes &&
            st'.savedCount == st.savedCount && st'.lastSavedFrame == st.lastSavedFrame
  {
  }

  /** The hash set changes only on a write, and then by the written image's hash. */
  lemma HashesGrowOnlyOnWrites<C, H>(st: Scan<C, H>, frame: Decoded<C>, umbral: int, minDistancia: int,
                                     hasFace: C -> bool, ocr: C -> string, phash: C -> H)
    requires st.prevFrame.Some? ==> |st.prevFrame.value| == |frame.gray|
    ensures var st' := Step(st, frame, umbral, minDistancia, hasFace, ocr, phash);
            (st'.savedHashes != st.savedHashes <==> |st'.written| == |st.written| + 1) &&
            (st'.savedHashes != st.savedHashes ==>
               st'.savedHashes == st.savedHashes + {phash(frame.color)} &&
               st'.written == st.written + [Slide(FileName(st.savedCount), frame.color, st.frameCount)])
  {
  }

  /** A candidate rejected by either filter leaves everything but the skip
      count as it was: the previous frame and the frame counter stay, so the
      next frame is compared with the same frame at the same count. */
  lemma RejectedCandidateKeepsBase<C, H>(st: Scan<C, H>, frame: Decoded<C>, umbral: int, minDistancia: int,
                                         hasFace: C -> bool, ocr: C -> string, phash: C -> H)
    requires st.prevFrame.Some? && |st.prevFrame.value| == |frame.gray|
    requires DiffScore(st.prevFrame.value, frame.gray) > umbral
    requires st.frameCount - st.lastSavedFrame > minDistancia
    requires hasFace(frame.color) || !ContieneTexto(ocr(frame.color))
    ensures Step(st, frame, umbral, minDistancia, hasFace, ocr, phash) == st.(skipped := st.skipped + 1)
  {
  }

  /** A frame is written exactly when it is a candidate (there is a previous
      frame, the difference exceeds umbral, the distance test holds), it
      shows no face, it carries text, and its hash was not seen before. */
  lemma StepWritesIff<C, H>(st: Scan<C, H>, frame: Decoded<C>, umbral: int, minDistancia: int,
                            hasFace: C -> bool, ocr: C -> string, phash: C -> H)
    requires st.prevFrame.Some? ==> |st.prevFrame.value| == |frame.gray|
    ensures Step(st, frame, umbral, minDistancia, hasFace, ocr, phash).written != st.written <==>
            st.prevFrame.Some? && DiffScore(st.prevFrame.value, frame.gray) > umbral &&
            st.frameCount - st.lastSavedFrame > minDistancia &&
            !hasFace(frame.color) && ContieneTexto(ocr(frame.color)) &&
            phash(frame.color) !in st.savedHashes
  {
    var st' := Step(st, frame, umbral, minDistancia, hasFace, ocr, phash);
    if st'.written != st.written {
      assert |st'.written| == |st.written| + 1;
    }
  }

  /** Every written image is the colour image of a frame p among the first n,
      whose difference from an earlier frame q exceeded umbral. */
  ghost predicate WrittenFromVideo<C>(w: seq<Slide<C>>, video: seq<Decoded<C>>, umbral: int, n: nat)
    requires n <= |video| && ValidVideo(video)
  {
    forall k :: 0 <= k < |w| ==>
      exists q, p :: 0 <= q < p < n && w[k].image == video[p].color &&
                     DiffScore(video[q].gray, video[p].gray) > umbral
  }

  /** The previous frame, once there is one, is a frame among the first n. */
  ghost predicate PrevFromVideo<C>(prevFrame: Option<Frame>, video: seq<Decoded<C>>, n: nat)
    requires n <= |video|
  {
    prevFrame.Some? ==> exists q :: 0 <= q < n && prevFrame.value == video[q].gray
  }

  /** Reading frame n keeps both relations to the video. */
  lemma StepFromVideo<C, H>(st: Scan<C, H>, video: seq<Decoded<C>>, umbral: int, minDistancia: int,
                            hasFace: C -> bool, ocr: C -> string, phash: C -> H, n: nat)
    requires n < |video| && ValidVideo(video)
    requires st.prevFrame.Some? ==> |st.prevFrame.value| == |video[n].gray|
    requires WrittenFromVideo(st.written, video, umbral, n) && PrevFromVideo(st.prevFrame, video, n)
    ensures var st' := Step(st, video[n], umbral, minDistancia, hasFace, ocr, phash);
            WrittenFromVideo(st'.written, video, umbral, n + 1) &&
            PrevFromVideo(st'.prevFrame, video, n + 1)
  {
    var st' := Step(st, video[n], umbral, minDistancia, hasFace, ocr, phash);
    var w := st.written;
    forall k | 0 <= k < |w|
      ensures exists q, p :: 0 <= q < p < n + 1 && w[k].image == video[p].color &&
                             DiffScore(video[q].gray, video[p].gray) > umbral
    {
      var q, p :| 0 <= q < p < n && w[k].image == video[p].color &&
                  DiffScore(video[q].gray, video[p].gray) > umbral;
    }
    if st'.written != w {
      StepWritesIff(st, video[n], umbral, minDistancia, hasFace, ocr, phash);
      var q :| 0 <= q < n && st.prevFrame.value == video[q].gray;
      var w' := st'.written;
      assert w' == w + [Slide(FileName(st.savedCount), video[n].color, st.frameCount)];
      forall k | 0 <= k < |w'|
        ensures exists q, p :: 0 <= q < p < n + 1 && w'[k].image == video[p].color &&
                               DiffScore(video[q].gray, video[p].gray) > umbral
      {
        if k < |w| {
          assert w'[k] == w[k];
        } else {
          assert w'[k].image == video[n].color;
        }
      }
    }
    if st'.prevFrame.Some? && st'.prevFrame != st.prevFrame {
      assert st'.prevFrame.value == video[n].gray;
    }
  }

  /** Every slide the run writes shows a frame of the video that differed from
      an earlier frame by more than umbral. */
  lemma {:induction false} RunWritesVideoFrames<C, H>(video: seq<Decoded<C>>, umbral: int, minDistancia: int,
                                                         hasFace: C -> bool, ocr: C -> string, phash: C -> H, n: nat)
    requires n <= |video| && ValidVideo(video)
    ensures WrittenFromVideo(Run(video, umbral, minDistancia, hasFace, ocr, phash, n).written, video, umbral, n)
    ensures PrevFromVideo(Run(video, umbral, minDistancia, hasFace, ocr, phash, n).prevFrame, video, n)
    decreases n
  {
    if n > 0 {
      var prev := Run(video, umbral, minDistancia, hasFace, ocr, phash, n - 1);
      RunWritesVideoFrames(video, umbral, minDistancia, hasFace, ocr, phash, n - 1);
      assert prev.prevFrame.Some? ==> |prev.prevFrame.value| == |video[n - 1].gray|;
      StepFromVideo(prev, video, umbral, minDistancia, hasFace, ocr, phash, n - 1);
    }
  }

  /** extraer_diapositivas_mejorado: open the video (or report that it cannot
      be opened and stop) and run the frame loop. The result is the loop's
      final state; what it promises about the written slides follows from the
      invariant the loop keeps and from the slides being frames of the video.
      Which frames are written is decided step by step as StepWritesIff
      states. */
  method ExtraerDiapositivasMejorado<C, H(==)>(source: Source<C>, umbral: int, minDistancia: int,
                                              hasFace: C -> bool, ocr: C -> string, phash: C -> H)
    returns (extraction: Extraction<C>)
    requires source.Opened? ==> ValidVideo(source.frames)
    ensures source.CannotOpen? ==> extraction == VideoNotOpened
    ensures source.Opened? ==>
              var st := Run(source.frames, umbral, minDistancia, hasFace, ocr, phash, |source.frames|);
              extraction == Extracted(st.written, st.frameCount, st.savedCount)
    ensures source.Opened? ==> WrittenFromVideo(extraction.written, source.frames, umbral, |source.frames|)
    ensures extraction.Extracted? ==>
              extraction.savedCount == |extraction.written| &&
              extraction.frameCount <= |source.frames| &&
              NamedByPosition(extraction.written) &&
              PassedFilters(extraction.written, hasFace, ocr) &&
              HashesDistinct(extraction.written, phash) &&
              Spaced(SavedFrames(extraction.written), minDistancia) &&
              FramesBelow(extraction.written, extraction.frameCount)
  {
    if source.CannotOpen? {
      // "Error al abrir el video."
      return VideoNotOpened;
    }
    var video := source.frames;
    var frameCount: nat := 0;
    var savedCount: nat := 0;
    var prevFrame: Option<Frame> := None;
    var lastSavedFrame := -minDistancia;
    var savedHashes: set<H> := {};
    var written: seq<Slide<C>> := [];
    ghost var skipped: nat := 0;
    var pos := 0;
    while pos < |video|
      invariant pos <= |video|
      invariant Run(video, umbral, minDistancia, hasFace, ocr, phash, pos) ==
                Scan(prevFrame, frameCount, savedCount, lastSavedFrame, savedHashes, written, skipped)
    {
      var frame := video[pos];
      pos := pos + 1;
      if prevFrame.Some? {
        var diffScore := DiffScore(prevFrame.value, frame.gray);
        if diffScore > umbral && frameCount - lastSavedFrame > minDistancia {
          if hasFace(frame.color) {
            skipped := skipped + 1;
            continue;
          }
          if !ContieneTexto(ocr(frame.color)) {
            skipped := skipped + 1;
            continue;
          }
          var frameHash := phash(frame.color);
          if frameHash !in savedHashes {
            written := written + [Slide(FileName(savedCount), frame.color, frameCount)];
            savedHashes := savedHashes + {frameHash};
            savedCount := savedCount + 1;
            lastSavedFrame := frameCount;
          }
        }
      }
      prevFrame := Some(frame.gray);
      frameCount := frameCount + 1;
    }
    RunKeepsInvariant(video, umbral, minDistancia, hasFace, ocr, phash, |video|);
    RunWritesVideoFrames(video, umbral, minDistancia, hasFace, ocr, phash, |video|);
    extraction := Extracted(written, frameCount, savedCount);
  }

  /** The script's settings: the change threshold, the spacing, and the
      sweep's default SSIM threshold. */
  const Umbral: int := 100000
  const MinDistancia: int := 30
  const Threshold: real := 0.95

  /** The script's two calls: extract into the output folder with its
      settings, then sweep the folder with the default threshold. The sweep
      runs even when the video could not be opened. */
  method Ejecutar<C, H(==)>(source: Source<C>, folder: set<string>,
                            hasFace: C -> bool, ocr: C -> string, phash: C -> H, score: Score)
    returns (extraction: Extraction<C>, listing: seq<string>, remaining: set<string>, result: SweepResult)
    requires source.Opened? ==> ValidVideo(source.frames)
    ensures source.CannotOpen? ==> extraction == VideoNotOpened && Folder(listing) == folder
    ensures source.Opened? ==>
              var st := Run(source.frames, Umbral, MinDistancia, hasFace, ocr, phash, |source.frames|);
              extraction == Extracted(st.written, st.frameCount, st.savedCount)
    ensures extraction.Extracted? ==> Folder(listing) == folder + SlideNames(extraction.savedCount)
    ensures Distinct(listing)
    ensures var imagenes := ImageList(listing, Suffixes);
            result.Completed? <==> forall r :: 0 <= r < |imagenes| ==> !Stale(imagenes, score, Threshold, r)
    ensures result.Completed? ==> remaining == PassResult(listing, Suffixes, score, Threshold)
  {
    extraction := ExtraerDiapositivasMejorado(source, Umbral, MinDistancia, hasFace, ocr, phash);
    var after := if extraction.Extracted? then folder + SlideNames(extraction.savedCount) else folder;
    listing := ListDir(after);
    remaining, result := EliminarImagenesRepetidas(listing, score, Threshold);
  }

  // ---------------------------------------------------------------------------
  // The SSIM sweep (eliminar_imagenes_repetidas)
  //
  // Later images that are gone are skipped, but the row's own image is read
  // without a check: when it is gone the read yields nothing, and the row fails
  // at its first comparison, that is, at the first later image still there.

  /** Only names ending in ".jpg" are listed. */
  const Suffixes: seq<string> := [Jpg]

  /** Row r fails: its image was deleted by an earlier row, and some later
      image is still there when the row starts. */
  predicate Stale(names: seq<string>, score: Score, t: real, r: nat)
  {
    r < |names| && !IsKept(names, score, t, r) &&
    exists j :: r < j < |names| && !Dominated(names, score, t, r, j)
  }

  /** The first row that fails. */
  predicate FirstStale(names: seq<string>, score: Score, t: real, r: nat)
  {
    Stale(names, score, t, r) && forall a :: 0 <= a < r ==> !Stale(names, score, t, a)
  }

  /** One row: image i against every later image still there. When image i
      itself is gone, the row fails at the first such later image. */
  method CompararFila(imagenes: seq<string>, score: Score, threshold: real, i: nat,
                      present0: set<string>, count0: nat)
    returns (present: set<string>, count: nat, ghost log: seq<string>, failed: bool)
    requires i < |imagenes|
    ensures failed <==> imagenes[i] !in present0 &&
                        exists j :: i < j < |imagenes| && imagenes[j] in present0
    ensures failed ==> present == present0
    ensures !failed && imagenes[i] in present0 ==>
              present == present0 - RowHits(imagenes, score, threshold, i, i + 1, |imagenes|)
    ensures !failed && imagenes[i] !in present0 ==> present == present0
    ensures Distinct(log) && Folder(log) == present0 - present
    ensures count == count0 + |log|
  {
    var img1Leida := imagenes[i] in present0;
    present, count := present0, count0;
    log := [];
    for j := i + 1 to |imagenes|
      invariant img1Leida ==> present == present0 - RowHits(imagenes, score, threshold, i, i + 1, j)
      invariant !img1Leida ==> present == present0 &&
                               forall b :: i < b < j ==> imagenes[b] !in present0
      invariant present <= present0
      invariant Distinct(log) && Folder(log) == present0 - present
      invariant count == count0 + |log|
    {
      if img1Leida {
        RowHitsStep(imagenes, score, threshold, i, i + 1, j);
        DeleteStep(present0, present, RowHits(imagenes, score, threshold, i, i + 1, j),
                   RowHits(imagenes, score, threshold, i, i + 1, j + 1),
                   imagenes[j], score(imagenes[i], imagenes[j]) > threshold);
      }
      if imagenes[j] !in present {
        continue;
      }
      if !img1Leida {
        // cv2.resize of the missing first image raises
        return present, count, log, true;
      }
      if score(imagenes[i], imagenes[j]) > threshold {
        LogDeletion(log, present0, present, imagenes[j]);
        present := present - {imagenes[j]};
        log := log + [imagenes[j]];
        count := count + 1;
      }
    }
    failed := false;
  }

  /** eliminar_imagenes_repetidas: list the ".jpg" files, sort them, sweep. */
  method EliminarImagenesRepetidas(listing: seq<string>, score: Score, threshold: real)
    returns (remaining: set<string>, result: SweepResult)
    requires Distinct(listing)
    ensures var imagenes := ImageList(listing, Suffixes);
            result.Completed? <==> forall r :: 0 <= r < |imagenes| ==> !Stale(imagenes, score, threshold, r)
    ensures result.Completed? ==>
              remaining == PassResult(listing, Suffixes, score, threshold) &&
              result.eliminadas == |Folder(listing) - remaining|
    ensures result.ReadFailed? ==>
              var imagenes := ImageList(listing, Suffixes);
              exists r: nat :: FirstStale(imagenes, score, threshold, r) &&
                               result.name == imagenes[r] &&
                               remaining == Folder(listing) - RemovedSoFar(imagenes, score, threshold, r, 0)
  {
    var imagenes := ImageList(listing, Suffixes);
    ImageListDistinct(listing, Suffixes);
    remaining, result := BarrerSsim(imagenes, Folder(listing), score, threshold);
  }

  /** When row i starts, its image is there exactly when it is kept, and the
      row fails exactly when it is stale. */
  lemma SsimRowStart(imagenes: seq<string>, score: Score, threshold: real, i: nat,
                     folder: set<string>, present: set<string>)
    requires Distinct(imagenes) && i < |imagenes|
    requires forall k :: 0 <= k < |imagenes| ==> imagenes[k] in folder
    requires present == folder - RemovedSoFar(imagenes, score, threshold, i, 0)
    ensures imagenes[i] in present <==> IsKept(imagenes, score, threshold, i)
    ensures (imagenes[i] !in present && exists j :: i < j < |imagenes| && imagenes[j] in present) <==>
            Stale(imagenes, score, threshold, i)
  {
    RowStartState(imagenes, score, threshold, i, folder, present);
  }

  /** A row that did not fail leaves the folder as the rows up to i delete. */
  lemma SsimRowEnd(imagenes: seq<string>, score: Score, threshold: real, i: nat,
                   folder: set<string>, before: set<string>, present: set<string>)
    requires Distinct(imagenes) && i < |imagenes|
    requires before == folder - RemovedSoFar(imagenes, score, threshold, i, 0)
    requires imagenes[i] in before <==> IsKept(imagenes, score, threshold, i)
    requires imagenes[i] in before ==> present == before - RowHits(imagenes, score, threshold, i, i + 1, |imagenes|)
    requires imagenes[i] !in before ==> present == before
    ensures present == folder - RemovedSoFar(imagenes, score, threshold, i + 1, 0)
  {
    if imagenes[i] in before {
      RowStart(imagenes, score, threshold, i);
      KeptRow(imagenes, score, threshold, i);
    } else {
      GoneRowRemovesNothing(imagenes, score, threshold, i, |imagenes|);
    }
    RowEnd(imagenes, score, threshold, i);
  }

  /** The last row has no later image to compare with, so it is never stale. */
  lemma LastRowNotStale(imagenes: seq<string>, score: Score, threshold: real, i: nat)
    requires |imagenes| <= i + 1
    requires forall a :: 0 <= a < i ==> !Stale(imagenes, score, threshold, a)
    ensures forall r :: 0 <= r < |imagenes| ==> !Stale(imagenes, score, threshold, r)
  {
  }

  /** The sweep proper: rows 0 .. |imagenes| - 2. It runs to the end exactly
      when no row is stale, and then leaves the folder as the image-by-image
      rule does; otherwise it fails in the first stale row, whose image it
      could not read, with the folder as the earlier rows left it. */
  method BarrerSsim(imagenes: seq<string>, folder: set<string>, score: Score, threshold: real)
    returns (remaining: set<string>, result: SweepResult)
    requires Distinct(imagenes)
    requires forall k :: 0 <= k < |imagenes| ==> imagenes[k] in folder
    ensures result.Completed? <==> forall r :: 0 <= r < |imagenes| ==> !Stale(imagenes, score, threshold, r)
    ensures result.Completed? ==>
              remaining == folder - Removed(imagenes, score, threshold) &&
              result.eliminadas == |folder - remaining|
    ensures result.ReadFailed? ==>
              exists r: nat :: FirstStale(imagenes, score, threshold, r) &&
                               result.name == imagenes[r] &&
                               remaining == folder - RemovedSoFar(imagenes, score, threshold, r, 0)
  {
    var present := folder;
    var eliminadas := 0;
    ghost var log: seq<string> := [];
    var i := 0;
    while i + 1 < |imagenes|
      invariant i <= |imagenes| && (i > 0 ==> i < |imagenes|)
      invariant present == folder - RemovedSoFar(imagenes, score, threshold, i, 0)
      invariant forall a :: 0 <= a < i ==> !Stale(imagenes, score, threshold, a)
      invariant present <= folder
      invariant Distinct(log) && Folder(log) == folder - present
      invariant eliminadas == |log|
    {
      SsimRowStart(imagenes, score, threshold, i, folder, present);
      ghost var before := present;
      ghost var rowLog;
      var failed;
      present, eliminadas, rowLog, failed := CompararFila(imagenes, score, threshold, i, present, eliminadas);
      if failed {
        assert FirstStale(imagenes, score, threshold, i);
        return present, ReadFailed(imagenes[i]);
      }
      assert !Stale(imagenes, score, threshold, i);
      SsimRowEnd(imagenes, score, threshold, i, folder, before, present);
      AppendLog(log, rowLog, folder, before, present);
      log := log + rowLog;
      i := i + 1;
    }
    AfterLastRow(imagenes, score, threshold, i);
    LastRowNotStale(imagenes, score, threshold, i);
    DistinctCard(log);
    remaining := present;
    result := Completed(eliminadas);
  }
}
