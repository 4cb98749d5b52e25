/** eliminar_repetidas.py: the SSIM duplicate eliminator that checks, before
    each read, that the file is still there. */
module EliminarRepetidas {
  import opened Names
  import opened KeepEarliest

  /** Names ending in ".jpg" or ".png" are images. */
  const Suffixes: seq<string> := [".jpg", ".png"]

  /** One pass over the folder: for each image i still present, delete every
      later image j still present whose score against i exceeds the threshold. */
  method EliminarImagenesRepetidas(listing: seq<string>, score: Score, threshold: real)
    returns (remaining: set<string>, totalEliminadas: nat)
    requires Distinct(listing)
    ensures remaining == PassResult(listing, Suffixes, score, threshold)
    ensures totalEliminadas == |Folder(listing) - remaining|
  {
    var imagenes := ImageList(listing, Suffixes);
    ImageListDistinct(listing, Suffixes);
    var folder := Folder(listing);
    var present := folder;
    totalEliminadas := 0;
    ghost var log: seq<string> := [];
    for i := 0 to |imagenes|
      invariant present == folder - RemovedSoFar(imagenes, score, threshold, i, 0)
      invariant present <= folder
      invariant Distinct(log) && Folder(log) == folder - present
      invariant totalEliminadas == |log|
    {
      InRemovedSoFar(imagenes, score, threshold, i, 0, i);
      RowEnd(imagenes, score, threshold, i);
      if imagenes[i] !in present {
        // already deleted by an earlier image
        GoneRowRemovesNothing(imagenes, score, threshold, i, |imagenes|);
        continue;
      }
      RowStart(imagenes, score, threshold, i);
      ghost var before := present;
      ghost var rowLog;
      present, totalEliminadas, rowLog := CompararFila(imagenes, score, threshold, i, present, totalEliminadas);
      KeptRow(imagenes, score, threshold, i);
      AppendLog(log, rowLog, folder, before, present);
      log := log + rowLog;
    }
    AfterLastRow(imagenes, score, threshold, |imagenes|);
    DistinctCard(log);
    remaining := present;
  }

  /** The inner loop of one row: image i against every later image; a later
      image already deleted is skipped, and one scoring above the threshold is
      deleted and counted. */
  method CompararFila(imagenes: seq<string>, score: Score, threshold: real, i: nat,
                      present0: set<string>, count0: nat)
    returns (present: set<string>, count: nat, ghost log: seq<string>)
    requires i < |imagenes|
    ensures present == present0 - RowHits(imagenes, score, threshold, i, i + 1, |imagenes|)
    ensures Distinct(log) && Folder(log) == present0 - present
    ensures count == count0 + |log|
  {
    present, count := present0, count0;
    log := [];
    for j := i + 1 to |imagenes|
      invariant present == present0 - RowHits(imagenes, score, threshold, i, i + 1, j)
      invariant present <= present0
      invariant Distinct(log) && Folder(log) == present0 - present
      invariant count == count0 + |log|
    {
      RowHitsStep(imagenes, score, threshold, i, i + 1, j);
      DeleteStep(present0, present, RowHits(imagenes, score, threshold, i, i + 1, j),
                 RowHits(imagenes, score, threshold, i, i + 1, j + 1),
                 imagenes[j], score(imagenes[i], imagenes[j]) > threshold);
      if imagenes[j] !in present {
        continue;
      }
      if score(imagenes[i], imagenes[j]) > threshold {
        LogDeletion(log, present0, present, imagenes[j]);
        present := present - {imagenes[j]};
        log := log + [imagenes[j]];
        count := count + 1;
      }
    }
  }
}
