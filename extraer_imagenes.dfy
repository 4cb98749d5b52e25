/** extraer_imagenes.py: the scene-change slide extractor and the histogram
    duplicate eliminator it calls afterwards. */
module ExtraerImagenes {
  import opened Names
  import opened KeepEarliest
  import opened Metrics
  import opened Video

  // ---------------------------------------------------------------------------
  // Frame selection (extraer_diapositivas_mejorado)

  /** The frames saved among the first n: frame f (from the second on) is saved
      when it differs from frame f - 1 by more than umbral and lies more than
      minDistancia frames after the last save. */
  function Saves<C>(video: seq<Decoded<C>>, umbral: int, minDistancia: int, n: nat): (s: seq<nat>)
    requires n <= |video| && ValidVideo(video)
    ensures forall k :: 0 <= k < |s| ==> 1 <= s[k] < n
    decreases n
  {
    if n <= 1 then []
    else
      var s := Saves(video, umbral, minDistancia, n - 1);
      if DiffScore(video[n - 2].gray, video[n - 1].gray) > umbral &&
         (n - 1) - LastSaved(s, minDistancia) > minDistancia
      then s + [n - 1]
      else s
  }

  /** Later frames never change an earlier decision: the saves among the first
      m frames begin the saves among the first n. */
  lemma {:induction false} SavesPrefix<C>(video: seq<Decoded<C>>, umbral: int, minDistancia: int, m: nat, n: nat)
    requires m <= n <= |video| && ValidVideo(video)
    ensures var sm := Saves(video, umbral, minDistancia, m);
            var sn := Saves(video, umbral, minDistancia, n);
            |sm| <= |sn| && sn[..|sm|] == sm
    decreases n
  {
    if m < n {
      SavesPrefix(video, umbral, minDistancia, m, n - 1);
      var sm := Saves(video, umbral, minDistancia, m);
      var sp := Saves(video, umbral, minDistancia, n - 1);
      var sn := Saves(video, umbral, minDistancia, n);
      assert sn[..|sp|] == sp;
      assert sn[..|sm|] == sp[..|sm|];
    }
  }

  /** Saves are in increasing frame order and more than minDistancia frames apart. */
  lemma {:induction false} SavesSpacing<C>(video: seq<Decoded<C>>, umbral: int, minDistancia: int, n: nat)
    requires n <= |video| && ValidVideo(video)
    ensures Spaced(Saves(video, umbral, minDistancia, n), minDistancia)
    decreases n
  {
    if n > 1 {
      SavesSpacing(video, umbral, minDistancia, n - 1);
      var sp := Saves(video, umbral, minDistancia, n - 1);
      var sn := Saves(video, umbral, minDistancia, n);
      if DiffScore(video[n - 2].gray, video[n - 1].gray) > umbral &&
         (n - 1) - LastSaved(sp, minDistancia) > minDistancia {
        assert sn == sp + [n - 1];
        forall k | 0 < k < |sn| ensures sn[k - 1] < sn[k] && sn[k] - sn[k - 1] > minDistancia {
          if k < |sp| {
            assert sn[k - 1] == sp[k - 1] && sn[k] == sp[k];
          } else {
            assert sn[k - 1] == LastSaved(sp, minDistancia) && sn[k] == n - 1;
          }
        }
      } else {
        assert sn == sp;
      }
    }
  }

  /** Frame f is saved exactly when it is not the first, it differs from the
      frame before it by more than umbral, and it lies more than minDistancia
      frames after the last save before it. */
  lemma {:induction false} SavedIff<C>(video: seq<Decoded<C>>, umbral: int, minDistancia: int, n: nat, f: nat)
    requires f < n <= |video| && ValidVideo(video)
    ensures f in Saves(video, umbral, minDistancia, n) <==>
            1 <= f &&
            DiffScore(video[f - 1].gray, video[f].gray) > umbral &&
            f - LastSaved(Saves(video, umbral, minDistancia, f), minDistancia) > minDistancia
    decreases n
  {
    var sp := Saves(video, umbral, minDistancia, n - 1);
    if f < n - 1 {
      SavedIff(video, umbral, minDistancia, n - 1, f);
      assert f in Saves(video, umbral, minDistancia, n) <==> f in sp;
    } else {
      assert f !in sp;
    }
  }

  /** A frame identical to the one before it is never saved. */
  lemma UnchangedFrameNotSaved<C>(video: seq<Decoded<C>>, umbral: int, minDistancia: int, n: nat, f: nat)
    requires f < n <= |video| && ValidVideo(video) && umbral >= 0
    requires 1 <= f && video[f - 1].gray == video[f].gray
    ensures f !in Saves(video, umbral, minDistancia, n)
  {
    SavedIff(video, umbral, minDistancia, n, f);
    DiffScoreZeroIff(video[f - 1].gray, video[f].gray);
  }

  /** With a non-negative minimum distance, at most one slide is saved in every
      minDistancia + 1 consecutive frames: the k-th save is at frame
      1 + k * (minDistancia + 1) or later. */
  lemma SavesLowerBound<C>(video: seq<Decoded<C>>, umbral: int, minDistancia: int, n: nat)
    requires n <= |video| && ValidVideo(video) && minDistancia >= 0
    ensures var s := Saves(video, umbral, minDistancia, n);
            forall k :: 0 <= k < |s| ==> s[k] >= 1 + k * (minDistancia + 1)
  {
    var s := Saves(video, umbral, minDistancia, n);
    SavesSpacing(video, umbral, minDistancia, n);
    for k := 0 to |s|
      invariant forall a :: 0 <= a < k ==> s[a] >= 1 + a * (minDistancia + 1)
    {
      if k > 0 {
        assert s[k] >= s[k - 1] + minDistancia + 1;
        assert s[k - 1] >= 1 + (k - 1) * (minDistancia + 1);
        assert k * (minDistancia + 1) == (k - 1) * (minDistancia + 1) + minDistancia + 1;
      }
    }
  }

  /** Before any save the minimum distance is met at once, whatever its
      value: the second frame is saved exactly when it differs from the first
      by more than umbral. */
  lemma SecondFrameEligible<C>(video: seq<Decoded<C>>, umbral: int, minDistancia: int, n: nat)
    requires 2 <= n <= |video| && ValidVideo(video)
    ensures 1 in Saves(video, umbral, minDistancia, n) <==>
            DiffScore(video[0].gray, video[1].gray) > umbral
  {
    SavedIff(video, umbral, minDistancia, n, 1);
    assert Saves(video, umbral, minDistancia, 1) == [];
  }

  /** A video flickering between black and white every frame, with umbral 100
      and minimum distance 1: every change is large, but only every other frame
      is far enough from the last save. */
  lemma FlickerScenario()
    ensures ValidVideo(Flicker()) && Saves(Flicker(), 100, 1, 6) == [1, 3, 5]
  {
    FlickerPrefix();
    var v := Flicker();
    assert v[2].gray == [0] && v[3].gray == [255] && v[4].gray == [0] && v[5].gray == [255];
    assert DiffScore([0], [255]) == 255 && DiffScore([255], [0]) == 255;
    assert Saves(v, 100, 1, 4) == [1, 3];
    assert Saves(v, 100, 1, 5) == [1, 3];
  }

  /** Six frames alternating between black and white. */
  function Flicker(): seq<Decoded<int>>
  {
    [Decoded(0, [0]), Decoded(1, [255]), Decoded(2, [0]),
     Decoded(3, [255]), Decoded(4, [0]), Decoded(5, [255])]
  }

  /** Frame 1 is saved; frame 2 is too close to it. */
  lemma FlickerPrefix()
    ensures ValidVideo(Flicker()) && Saves(Flicker(), 100, 1, 3) == [1]
  {
    var v := Flicker();
    assert v[0].gray == [0] && v[1].gray == [255] && v[2].gray == [0];
    assert DiffScore([0], [255]) == 255 && DiffScore([255], [0]) == 255;
    assert Saves(v, 100, 1, 1) == [];
    assert Saves(v, 100, 1, 2) == [1];
  }

  /** The slides written for the saved frames s, in order. */
  function SlidesOf<C>(video: seq<Decoded<C>>, s: seq<nat>): seq<Slide<C>>
    requires forall k :: 0 <= k < |s| ==> s[k] < |video|
  {
    seq(|s|, k requires 0 <= k < |s| => Slide(FileName(k), video[s[k]].color, s[k]))
  }

  lemma SlidesOfAppend<C>(video: seq<Decoded<C>>, s: seq<nat>, f: nat)
    requires forall k :: 0 <= k < |s| ==> s[k] < |video|
    requires f < |video|
    ensures SlidesOf(video, s + [f]) == SlidesOf(video, s) + [Slide(FileName(|s|), video[f].color, f)]
  {
  }

  /** The selection loop of extraer_diapositivas_mejorado: read every frame,
      compare it with the previous one, and write a slide when the change and
      the distance from the last save are both large enough. */
  method SeleccionarDiapositivas<C>(video: seq<Decoded<C>>, umbral: int, minDistancia: int)
    returns (written: seq<Slide<C>>, frameCount: nat, savedCount: nat)
    requires ValidVideo(video)
    ensures frameCount == |video|
    ensures written == SlidesOf(video, Saves(video, umbral, minDistancia, |video|))
    ensures savedCount == |written|
  {
    frameCount := 0;
    savedCount := 0;
    var prevFrame: Option<Frame> := None;
    var lastSavedFrame := -minDistancia;
    written := [];
    var pos := 0;
    while pos < |video|
      invariant pos <= |video| && frameCount == pos
      invariant prevFrame == if pos == 0 then None else Some(video[pos - 1].gray)
      invariant lastSavedFrame == LastSaved(Saves(video, umbral, minDistancia, pos), minDistancia)
      invariant written == SlidesOf(video, Saves(video, umbral, minDistancia, pos))
      invariant savedCount == |written|
    {
      var frame := video[pos];
      ghost var s := Saves(video, umbral, minDistancia, pos);
      if prevFrame.Some? {
        var diffScore := DiffScore(prevFrame.value, frame.gray);
        if diffScore > umbral && frameCount - lastSavedFrame > minDistancia {
          SlidesOfAppend(video, s, pos);
          written := written + [Slide(FileName(savedCount), frame.color, frameCount)];
          savedCount := savedCount + 1;
          lastSavedFrame := frameCount;
        }
      }
      prevFrame := Some(frame.gray);
      frameCount := frameCount + 1;
      pos := pos + 1;
    }
  }

  /** Every slide written is among the images the duplicate eliminator sweeps. */
  lemma SlidesAreSwept(listing: seq<string>, n: nat)
    requires Distinct(listing) && SlideNames(n) <= Folder(listing)
    ensures forall k :: 0 <= k < n ==> FileName(k) in ImageList(listing, Suffixes)
  {
    ImageListSpec(listing, Suffixes);
    forall k | 0 <= k < n ensures FileName(k) in ImageList(listing, Suffixes) {
      FileNameIsJpg(k);
      assert FileName(k) in SlideNames(n);
      assert HasSuffixIn(FileName(k), Suffixes) by { assert EndsWith(FileName(k), Suffixes[0]); }
    }
  }

  /** extraer_diapositivas_mejorado: open the video (or report that it cannot be
      opened and stop), write the selected slides into the output folder, list
      the folder, and run the histogram duplicate eliminator over it. */
  method ExtraerDiapositivasMejorado<C>(source: Source<C>, folder: set<string>, umbral: int, minDistancia: int,
                                        score: Score)
    returns (extraction: Extraction<C>, listing: seq<string>, remaining: set<string>, sweep: Option<SweepResult>)
    requires source.Opened? ==> ValidVideo(source.frames)
    ensures source.CannotOpen? ==> extraction == VideoNotOpened && remaining == folder && sweep == None
    ensures source.Opened? ==>
              var s := Saves(source.frames, umbral, minDistancia, |source.frames|);
              extraction == Extracted(SlidesOf(source.frames, s), |source.frames|, |s|) &&
              Distinct(listing) && Folder(listing) == folder + SlideNames(|s|) &&
              sweep.Some? &&
              (sweep.value.Completed? <==> NoEarlyMatch(ImageList(listing, Suffixes), score, Threshold)) &&
              (sweep.value.Completed? ==> remaining == PassResult(listing, Suffixes, score, Threshold))
  {
    if source.CannotOpen? {
      // "Error al abrir el video."
      return VideoNotOpened, [], folder, None;
    }
    var written, frameCount, savedCount := SeleccionarDiapositivas(source.frames, umbral, minDistancia);
    extraction := Extracted(written, frameCount, savedCount);
    var after := folder + SlideNames(savedCount);
    listing := ListDir(after);
    var result;
    remaining, result := EliminarImagenesRepetidas(listing, score, Threshold);
    sweep := Some(result);
  }

  // ---------------------------------------------------------------------------
  // The histogram sweep (eliminar_imagenes_repetidas)
  //
  // This sweep never checks that a file is still there before reading it. A
  // file it deleted in row r is read again in row r + 1 (either as that row's
  // own image or as one of its later images), and the read fails.

  /** Only names ending in ".jpg" are listed. */
  const Suffixes: seq<string> := [Jpg]

  /** The correlation above which a later image is a duplicate; the pipeline
      calls the sweep with this default. */
  const Threshold: real := 0.9

  /** No later image scores above the threshold against image a. */
  predicate RowClean(names: seq<string>, score: Score, t: real, a: nat)
  {
    forall b :: a < b < |names| ==> score(names[a], names[b]) <= t
  }

  /** Rows 0 .. r - 1 delete nothing. */
  predicate CleanBefore(names: seq<string>, score: Score, t: real, r: int)
  {
    forall a :: 0 <= a < r ==> RowClean(names, score, t, a)
  }

  /** Every row except the last (the one of image |names| - 2) deletes nothing:
      the sweep reads only files that are still there. */
  predicate NoEarlyMatch(names: seq<string>, score: Score, t: real)
  {
    forall a :: 0 <= a && a + 2 < |names| ==> RowClean(names, score, t, a)
  }

  /** Row r is the first row that deletes, m is the first image it deletes, and
      a row follows it: that row reads images[m] and fails. */
  predicate HistCrash(names: seq<string>, score: Score, t: real, r: nat, m: nat)
  {
    r + 2 < |names| && r < m < |names| &&
    CleanBefore(names, score, t, r) &&
    score(names[r], names[m]) > t &&
    forall b :: r < b < m ==> score(names[r], names[b]) <= t
  }

  /** The sweep fails exactly when some row other than the last deletes, and
      then at one place only. */
  lemma HistCrashIff(names: seq<string>, score: Score, t: real)
    ensures !NoEarlyMatch(names, score, t) <==> exists r: nat, m: nat :: HistCrash(names, score, t, r, m)
  {
    if !NoEarlyMatch(names, score, t) {
      var r0 :| 0 <= r0 && r0 + 2 < |names| && !RowClean(names, score, t, r0);
      var r := FirstDirtyRow(names, score, t, r0);
      var m := FirstHit(names, score, t, r, r + 1);
      assert HistCrash(names, score, t, r, m);
    }
    if exists r: nat, m: nat :: HistCrash(names, score, t, r, m) {
      var r: nat, m: nat :| HistCrash(names, score, t, r, m);
      assert !RowClean(names, score, t, r);
    }
  }

  /** The earliest row at or before r0 that deletes. */
  lemma {:induction false} FirstDirtyRow(names: seq<string>, score: Score, t: real, r0: nat)
    returns (r: nat)
    requires r0 < |names| && !RowClean(names, score, t, r0)
    ensures r <= r0 && !RowClean(names, score, t, r) && CleanBefore(names, score, t, r)
    decreases r0
  {
    if CleanBefore(names, score, t, r0) {
      r := r0;
    } else {
      var a :| 0 <= a < r0 && !RowClean(names, score, t, a);
      r := FirstDirtyRow(names, score, t, a);
    }
  }

  /** The earliest image from lo on that row r deletes. */
  lemma {:induction false} FirstHit(names: seq<string>, score: Score, t: real, r: nat, lo: nat)
    returns (m: nat)
    requires r < lo <= |names| && !RowClean(names, score, t, r)
    requires forall b :: r < b < lo ==> score(names[r], names[b]) <= t
    ensures lo <= m < |names| && score(names[r], names[m]) > t
    ensures forall b :: r < b < m ==> score(names[r], names[b]) <= t
    decreases |names| - lo
  {
    var w :| r < w < |names| && score(names[r], names[w]) > t;
    if score(names[r], names[lo]) > t {
      m := lo;
    } else {
      m := FirstHit(names, score, t, r, lo + 1);
    }
  }

  /** When the sweep runs to the end, it deletes what the image-by-image rule
      deletes: at most the last image, when it matches the one before it. */
  lemma HistPassRemoves(names: seq<string>, score: Score, t: real)
    requires Distinct(names) && NoEarlyMatch(names, score, t)
    ensures Removed(names, score, t) ==
            if |names| < 2 then {} else RowHits(names, score, t, |names| - 2, |names| - 1, |names|)
  {
    var n := |names|;
    forall k | 0 <= k < n && (k == 0 || k + 1 < n) ensures IsKept(names, score, t, k) {
      forall a | 0 <= a < k ensures score(names[a], names[k]) <= t {
        assert RowClean(names, score, t, a);
      }
      KeptIff(names, score, t, k);
    }
    var gone := Removed(names, score, t);
    if n < 2 {
      assert gone == {};
    } else {
      var h := RowHits(names, score, t, n - 2, n - 1, n);
      KeptIff(names, score, t, n - 1);
      forall x | x in gone ensures x in h {
        var k :| 0 <= k < n && names[k] == x && !IsKept(names, score, t, k);
        assert k == n - 1;
        var a :| 0 <= a < n - 1 && IsKept(names, score, t, a) && score(names[a], names[n - 1]) > t;
        assert !RowClean(names, score, t, a);
        assert a == n - 2;
      }
      forall x | x in h ensures x in gone {
        var k :| n - 1 <= k < n && names[k] == x && score(names[n - 2], names[k]) > t;
        InRemoved(names, score, t, k);
      }
    }
  }

  /** A row that found all its files still there shows that the row before it
      deleted nothing. */
  lemma CleanRowBefore(names: seq<string>, score: Score, t: real, i: nat, folder: set<string>, before: set<string>)
    requires Distinct(names) && i < |names|
    requires i > 0 ==> before == folder - RowHits(names, score, t, i - 1, i, |names|)
    requires forall b :: i <= b < |names| ==> names[b] in before
    requires CleanBefore(names, score, t, i - 1)
    ensures CleanBefore(names, score, t, i)
  {
    if i > 0 {
      forall b | i - 1 < b < |names| ensures score(names[i - 1], names[b]) <= t {
        InRowHits(names, score, t, i - 1, i, |names|, b);
      }
    }
  }

  /** A row whose own image the previous row deleted fails at once: the
      previous row is the first that deletes and this row's image is its
      first hit. */
  lemma OwnImageGone(names: seq<string>, score: Score, t: real, i: nat, folder: set<string>, present: set<string>)
    requires Distinct(names) && i + 1 < |names|
    requires forall k :: 0 <= k < |names| ==> names[k] in folder
    requires i == 0 ==> present == folder
    requires i > 0 ==> present == folder - RowHits(names, score, t, i - 1, i, |names|)
    requires CleanBefore(names, score, t, i - 1)
    requires names[i] !in present
    ensures i > 0 && HistCrash(names, score, t, i - 1, i) && !NoEarlyMatch(names, score, t)
    ensures present == folder - RowHits(names, score, t, i - 1, i, |names|) - RowHits(names, score, t, i, i + 1, i)
  {
    InRowHits(names, score, t, i - 1, i, |names|, i);
    assert HistCrash(names, score, t, i - 1, i);
    assert RowHits(names, score, t, i, i + 1, i) == {};
    HistCrashIff(names, score, t);
  }

  /** A row that meets a file that is gone meets the first file the row before
      it deleted. */
  lemma CrashInRow(names: seq<string>, score: Score, t: real, i: nat, m: nat, folder: set<string>, before: set<string>)
    requires Distinct(names) && i + 1 < |names| && i < m < |names|
    requires forall k :: 0 <= k < |names| ==> names[k] in folder
    requires i == 0 ==> before == folder
    requires i > 0 ==> before == folder - RowHits(names, score, t, i - 1, i, |names|)
    requires CleanBefore(names, score, t, i - 1)
    requires names[m] !in before
    requires forall b :: i <= b < m ==> names[b] in before
    ensures i > 0 && HistCrash(names, score, t, i - 1, m)
  {
    if i > 0 {
      InRowHits(names, score, t, i - 1, i, |names|, m);
      forall b | i - 1 < b < m ensures score(names[i - 1], names[b]) <= t {
        InRowHits(names, score, t, i - 1, i, |names|, b);
      }
    }
  }

  /** One row of the histogram sweep: image i against every later image, each
      read without a check; the row stops at the first image that is gone. */
  method CompararHistogramas(imagenes: seq<string>, score: Score, threshold: real, i: nat,
                             present0: set<string>, count0: nat)
    returns (present: set<string>, count: nat, ghost log: seq<string>, missing: Option<nat>)
    requires Distinct(imagenes) && i < |imagenes|
    ensures missing.None? ==>
              (forall b :: i < b < |imagenes| ==> imagenes[b] in present0) &&
              present == present0 - RowHits(imagenes, score, threshold, i, i + 1, |imagenes|)
    ensures missing.Some? ==>
              i < missing.value < |imagenes| && imagenes[missing.value] !in present0 &&
              (forall b :: i < b < missing.value ==> imagenes[b] in present0) &&
              present == present0 - RowHits(imagenes, score, threshold, i, i + 1, missing.value)
    ensures Distinct(log) && Folder(log) == present0 - present
    ensures count == count0 + |log|
  {
    present, count := present0, count0;
    log := [];
    for j := i + 1 to |imagenes|
      invariant present == present0 - RowHits(imagenes, score, threshold, i, i + 1, j)
      invariant forall b :: i < b < j ==> imagenes[b] in present0
      invariant present <= present0
      invariant Distinct(log) && Folder(log) == present0 - present
      invariant count == count0 + |log|
    {
      InRowHits(imagenes, score, threshold, i, i + 1, j, j);
      if imagenes[j] !in present {
        // cv2.imread returns None and calcHist raises
        return present, count, log, Some(j);
      }
      RowHitsStep(imagenes, score, threshold, i, i + 1, j);
      DeleteStep(present0, present, RowHits(imagenes, score, threshold, i, i + 1, j),
                 RowHits(imagenes, score, threshold, i, i + 1, j + 1),
                 imagenes[j], score(imagenes[i], imagenes[j]) > threshold);
      if score(imagenes[i], imagenes[j]) > threshold {
        LogDeletion(log, present0, present, imagenes[j]);
        present := present - {imagenes[j]};
        log := log + [imagenes[j]];
        count := count + 1;
      }
    }
    missing := None;
  }

  /** eliminar_imagenes_repetidas: list the ".jpg" files, sort them, sweep. */
  method EliminarImagenesRepetidas(listing: seq<string>, score: Score, threshold: real)
    returns (remaining: set<string>, result: SweepResult)
    requires Distinct(listing)
    ensures result.Completed? <==> NoEarlyMatch(ImageList(listing, Suffixes), score, threshold)
    ensures result.Completed? ==>
              remaining == PassResult(listing, Suffixes, score, threshold) &&
              result.eliminadas == |Folder(listing) - remaining|
    ensures result.ReadFailed? ==>
              var imagenes := ImageList(listing, Suffixes);
              exists r: nat, m: nat :: HistCrash(imagenes, score, threshold, r, m) &&
                             result.name == imagenes[m] &&
                             remaining == Folder(listing)
                                          - RowHits(imagenes, score, threshold, r, r + 1, |imagenes|)
                                          - RowHits(imagenes, score, threshold, r + 1, r + 2, m)
  {
    var imagenes := ImageList(listing, Suffixes);
    ImageListDistinct(listing, Suffixes);
    remaining, result := BarrerHistogramas(imagenes, Folder(listing), score, threshold);
  }

  /** The sweep proper: rows 0 .. |imagenes| - 2, each comparing its image
      against every later one and deleting those whose histogram correlation
      exceeds the threshold. It runs to the end exactly when no row but the
      last deletes anything, and then leaves the folder as the image-by-image
      rule does; otherwise it fails reading the first image the first deleting
      row removed, with the folder as the rows so far left it. */
  method BarrerHistogramas(imagenes: seq<string>, folder: set<string>, score: Score, threshold: real)
    returns (remaining: set<string>, result: SweepResult)
    requires Distinct(imagenes)
    requires forall k :: 0 <= k < |imagenes| ==> imagenes[k] in folder
    ensures result.Completed? <==> NoEarlyMatch(imagenes, score, threshold)
    ensures result.Completed? ==>
              remaining == folder - Removed(imagenes, score, threshold) &&
              result.eliminadas == |folder - remaining|
    ensures result.ReadFailed? ==>
              exists r: nat, m: nat :: HistCrash(imagenes, score, threshold, r, m) &&
                             result.name == imagenes[m] &&
                             remaining == folder
                                          - RowHits(imagenes, score, threshold, r, r + 1, |imagenes|)
                                          - RowHits(imagenes, score, threshold, r + 1, r + 2, m)
  {
    var present := folder;
    var eliminadas := 0;
    ghost var log: seq<string> := [];
    var i := 0;
    while i + 1 < |imagenes|
      invariant i <= |imagenes| && (i > 0 ==> i < |imagenes|)
      invariant CleanBefore(imagenes, score, threshold, i - 1)
      invariant i == 0 ==> present == folder
      invariant i > 0 ==> present == folder - RowHits(imagenes, score, threshold, i - 1, i, |imagenes|)
      invariant present <= folder
      invariant Distinct(log) && Folder(log) == folder - present
      invariant eliminadas == |log|
    {
      if imagenes[i] !in present {
        // cv2.imread of the row's own image returns None and calcHist raises
        OwnImageGone(imagenes, score, threshold, i, folder, present);
        return present, ReadFailed(imagenes[i]);
      }
      ghost var before := present;
      ghost var rowLog;
      var missing;
      present, eliminadas, rowLog, missing := CompararHistogramas(imagenes, score, threshold, i, present, eliminadas);
      if missing.Some? {
        var m := missing.value;
        CrashInRow(imagenes, score, threshold, i, m, folder, before);
        HistCrashIff(imagenes, score, threshold);
        return present, ReadFailed(imagenes[m]);
      }
      CleanRowBefore(imagenes, score, threshold, i, folder, before);
      AppendLog(log, rowLog, folder, before, present);
      log := log + rowLog;
      i := i + 1;
    }
    HistPassRemoves(imagenes, score, threshold);
    assert present == folder - Removed(imagenes, score, threshold) by {
      if i == 0 {
        assert |imagenes| < 2;
      } else {
        assert i == |imagenes| - 1;
      }
    }
    DistinctCard(log);
    remaining := present;
    result := Completed(eliminadas);
  }
}
