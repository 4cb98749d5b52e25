/** The rule the pairwise duplicate eliminators implement, stated image by image:
    walking the sorted image list, an image is kept unless some earlier KEPT
    image scores above the threshold against it. The sweeps themselves go row
    by row (outer image i, inner image j); RemovedSoFar describes the folder
    part way through that sweep. */
module KeepEarliest {
  import opened Names

  /** The similarity of two stored images (histogram correlation or SSIM),
      a function of the two files' contents, which do not change during a pass. */
  type Score = (string, string) -> real

  /** How a sweep ended: it ran to the end, having deleted `eliminadas` files,
      or it tried to read a file that was no longer there and raised. */
  datatype SweepResult = Completed(eliminadas: nat) | ReadFailed(name: string)

  function Min(a: nat, b: nat): nat
  {
    if a < b then a else b
  }

  /** Image k survives the pass. */
  predicate IsKept(names: seq<string>, score: Score, t: real, k: nat)
    requires k < |names|
    decreases k, 1
  {
    !Dominated(names, score, t, k, k)
  }

  /** Some kept image among the first i scores above t against image k. */
  predicate Dominated(names: seq<string>, score: Score, t: real, i: nat, k: nat)
    requires i <= k < |names|
    decreases i, 0
  {
    i > 0 &&
    (Dominated(names, score, t, i - 1, k) ||
     (IsKept(names, score, t, i - 1) && score(names[i - 1], names[k]) > t))
  }

  lemma {:induction false} DominatedWitness(names: seq<string>, score: Score, t: real, i: nat, k: nat)
    requires i <= k < |names|
    ensures Dominated(names, score, t, i, k) <==>
            exists a :: 0 <= a < i && IsKept(names, score, t, a) && score(names[a], names[k]) > t
    decreases i
  {
    if i > 0 {
      DominatedWitness(names, score, t, i - 1, k);
      if IsKept(names, score, t, i - 1) && score(names[i - 1], names[k]) > t {
        assert 0 <= i - 1 < i && IsKept(names, score, t, i - 1) && score(names[i - 1], names[k]) > t;
      }
    }
  }

  /** Earliest wins: an image is deleted exactly when an earlier surviving image
      is too similar to it. */
  lemma KeptIff(names: seq<string>, score: Score, t: real, k: nat)
    requires k < |names|
    ensures !IsKept(names, score, t, k) <==>
            exists a :: 0 <= a < k && IsKept(names, score, t, a) && score(names[a], names[k]) > t
  {
    DominatedWitness(names, score, t, k, k);
  }

  /** No two survivors are too similar. */
  lemma KeptPairsDissimilar(names: seq<string>, score: Score, t: real, a: nat, b: nat)
    requires a < b < |names|
    requires IsKept(names, score, t, a) && IsKept(names, score, t, b)
    ensures score(names[a], names[b]) <= t
  {
    KeptIff(names, score, t, b);
  }

  /** If no pair is too similar, every image survives. */
  lemma AllKept(names: seq<string>, score: Score, t: real)
    requires forall a, b :: 0 <= a < b < |names| ==> score(names[a], names[b]) <= t
    ensures forall k :: 0 <= k < |names| ==> IsKept(names, score, t, k)
  {
    forall k | 0 <= k < |names| ensures IsKept(names, score, t, k) {
      KeptIff(names, score, t, k);
    }
  }

  // ---------------------------------------------------------------------------
  // The folder during and after a sweep

  /** The images deleted once rows 0..i-1 are done and row i has reached column j. */
  function RemovedSoFar(names: seq<string>, score: Score, t: real, i: nat, j: nat): set<string>
  {
    set k | 0 <= k < |names| &&
            (Dominated(names, score, t, Min(i, k), k) ||
             (i < k < j && IsKept(names, score, t, i) && score(names[i], names[k]) > t))
          :: names[k]
  }

  /** The images deleted by a whole pass. */
  function Removed(names: seq<string>, score: Score, t: real): set<string>
  {
    set k | 0 <= k < |names| && !IsKept(names, score, t, k) :: names[k]
  }

  /** The folder after a complete pass over the images of `listing` with these suffixes. */
  function PassResult(listing: seq<string>, suffixes: seq<string>, score: Score, t: real): set<string>
  {
    Folder(listing) - Removed(ImageList(listing, suffixes), score, t)
  }

  /** What a pass leaves: files without an image suffix are untouched, and an
      image remains exactly when it is kept; the first image always remains. */
  lemma PassResultSpec(listing: seq<string>, suffixes: seq<string>, score: Score, t: real)
    requires Distinct(listing)
    ensures PassResult(listing, suffixes, score, t) <= Folder(listing)
    ensures forall x :: x in listing && !HasSuffixIn(x, suffixes) ==> x in PassResult(listing, suffixes, score, t)
    ensures var names := ImageList(listing, suffixes);
            forall k :: 0 <= k < |names| ==>
              (names[k] in PassResult(listing, suffixes, score, t) <==> IsKept(names, score, t, k))
    ensures var names := ImageList(listing, suffixes);
            |names| > 0 ==> names[0] in PassResult(listing, suffixes, score, t)
  {
    var names := ImageList(listing, suffixes);
    ImageListSpec(listing, suffixes);
    SortedDistinct(names);
    forall x | x in listing && !HasSuffixIn(x, suffixes)
      ensures x in PassResult(listing, suffixes, score, t)
    {
      assert x !in names;
    }
    forall k | 0 <= k < |names|
      ensures names[k] in PassResult(listing, suffixes, score, t) <==> IsKept(names, score, t, k)
    {
      InRemoved(names, score, t, k);
    }
  }

  lemma InRemovedSoFar(names: seq<string>, score: Score, t: real, i: nat, j: nat, k: nat)
    requires Distinct(names) && k < |names|
    ensures names[k] in RemovedSoFar(names, score, t, i, j) <==>
            (Dominated(names, score, t, Min(i, k), k) ||
             (i < k < j && IsKept(names, score, t, i) && score(names[i], names[k]) > t))
  {
  }

  lemma InRemoved(names: seq<string>, score: Score, t: real, k: nat)
    requires Distinct(names) && k < |names|
    ensures names[k] in Removed(names, score, t) <==> !IsKept(names, score, t, k)
  {
  }

  /** When row i starts, its own image is there exactly when it is kept, and a
      later image is there exactly when no kept image before row i matches it. */
  lemma RowStartState(names: seq<string>, score: Score, t: real, i: nat, folder: set<string>, present: set<string>)
    requires Distinct(names) && i < |names|
    requires forall k :: 0 <= k < |names| ==> names[k] in folder
    requires present == folder - RemovedSoFar(names, score, t, i, 0)
    ensures names[i] in present <==> IsKept(names, score, t, i)
    ensures forall j :: i < j < |names| ==> (names[j] in present <==> !Dominated(names, score, t, i, j))
  {
    InRemovedSoFar(names, score, t, i, 0, i);
    forall j | i < j < |names| ensures names[j] in present <==> !Dominated(names, score, t, i, j) {
      InRemovedSoFar(names, score, t, i, 0, j);
    }
  }

  /** Before row i compares anything, the folder is as rows 0..i-1 left it. */
  lemma RowStart(names: seq<string>, score: Score, t: real, i: nat)
    ensures RemovedSoFar(names, score, t, i, i + 1) == RemovedSoFar(names, score, t, i, 0)
  {
  }

  /** One inner step: image j is deleted when row i's image is kept and too similar to it. */
  lemma ColumnStep(names: seq<string>, score: Score, t: real, i: nat, j: nat)
    requires i < j < |names|
    ensures RemovedSoFar(names, score, t, i, j + 1) ==
            if IsKept(names, score, t, i) && score(names[i], names[j]) > t
            then RemovedSoFar(names, score, t, i, j) + {names[j]}
            else RemovedSoFar(names, score, t, i, j)
  {
    var a := RemovedSoFar(names, score, t, i, j + 1);
    var b := RemovedSoFar(names, score, t, i, j);
    if IsKept(names, score, t, i) && score(names[i], names[j]) > t {
      assert names[j] in a;
      assert a == b + {names[j]};
    } else {
      assert a == b;
    }
  }

  /** The later images, from position lo up to hi, that score above the
      threshold against image a. */
  function RowHits(names: seq<string>, score: Score, t: real, a: nat, lo: nat, hi: nat): set<string>
    requires a < |names|
  {
    set b | lo <= b < hi && b < |names| && score(names[a], names[b]) > t :: names[b]
  }

  lemma RowHitsStep(names: seq<string>, score: Score, t: real, a: nat, lo: nat, j: nat)
    requires a < |names| && lo <= j < |names|
    ensures RowHits(names, score, t, a, lo, j + 1) ==
            if score(names[a], names[j]) > t then RowHits(names, score, t, a, lo, j) + {names[j]}
            else RowHits(names, score, t, a, lo, j)
  {
    var r := RowHits(names, score, t, a, lo, j + 1);
    if score(names[a], names[j]) > t {
      assert names[j] in r;
    }
  }

  lemma InRowHits(names: seq<string>, score: Score, t: real, a: nat, lo: nat, hi: nat, k: nat)
    requires Distinct(names) && a < |names| && k < |names|
    ensures names[k] in RowHits(names, score, t, a, lo, hi) <==> lo <= k < hi && score(names[a], names[k]) > t
  {
  }

  /** The row of a kept image deletes, on top of what the earlier rows
      deleted, exactly the later images too similar to it. */
  lemma KeptRow(names: seq<string>, score: Score, t: real, i: nat)
    requires Distinct(names) && i < |names| && IsKept(names, score, t, i)
    ensures RemovedSoFar(names, score, t, i, |names|) ==
            RemovedSoFar(names, score, t, i, i + 1) + RowHits(names, score, t, i, i + 1, |names|)
  {
    var a := RemovedSoFar(names, score, t, i, |names|);
    var b := RemovedSoFar(names, score, t, i, i + 1);
    var h := RowHits(names, score, t, i, i + 1, |names|);
    forall x | x in a ensures x in b + h {
      var k :| 0 <= k < |names| && x == names[k] &&
               (Dominated(names, score, t, Min(i, k), k) ||
                (i < k < |names| && IsKept(names, score, t, i) && score(names[i], names[k]) > t));
      if !Dominated(names, score, t, Min(i, k), k) {
        assert x in h;
      }
    }
    forall x | x in b + h ensures x in a {
      if x in h {
        var k :| i + 1 <= k < |names| && score(names[i], names[k]) > t && x == names[k];
      }
    }
  }

  // ---------------------------------------------------------------------------
  // Set bookkeeping for the loops that delete files

  /** One inner step: the compared file is deleted exactly when it is still
      there and the step marks it. */
  lemma DeleteStep(base: set<string>, present: set<string>, gone: set<string>, next: set<string>,
                   x: string, hit: bool)
    requires present == base - gone
    requires next == if hit then gone + {x} else gone
    ensures x in present && hit ==> present - {x} == base - next
    ensures !(x in present && hit) ==> present == base - next
  {
  }

  /** A log of deletions without repeats. */
  lemma LogDeletion(log: seq<string>, base: set<string>, present: set<string>, x: string)
    requires Distinct(log) && Folder(log) == base - present
    requires x in present && present <= base
    ensures Distinct(log + [x]) && Folder(log + [x]) == base - (present - {x})
  {
    assert Folder(log + [x]) == Folder(log) + {x};
  }

  lemma DistinctCard(s: seq<string>)
    requires Distinct(s)
    ensures |Folder(s)| == |s|
  {
    if s != [] {
      var t := s[..|s| - 1];
      assert Distinct(t);
      DistinctCard(t);
      assert Folder(s) == Folder(t) + {s[|s| - 1]};
    }
  }

  /** Deletion logs add up: what a row deletes comes after what was deleted before it. */
  lemma AppendLog(log: seq<string>, more: seq<string>, folder: set<string>, mid: set<string>, after: set<string>)
    requires Distinct(log) && Folder(log) == folder - mid
    requires Distinct(more) && Folder(more) == mid - after
    requires after <= mid <= folder
    ensures Distinct(log + more) && Folder(log + more) == folder - after
  {
    var s := log + more;
    forall a, b | 0 <= a < b < |s| ensures s[a] != s[b] {
      if a < |log| <= b {
        assert s[a] in Folder(log) && s[b] == more[b - |log|] && more[b - |log|] in Folder(more);
      }
    }
    assert Folder(s) == Folder(log) + Folder(more);
  }

  /** A row whose image is already gone deletes nothing. */
  lemma GoneRowRemovesNothing(names: seq<string>, score: Score, t: real, i: nat, j: nat)
    requires !(i < |names| && IsKept(names, score, t, i))
    ensures RemovedSoFar(names, score, t, i, j) == RemovedSoFar(names, score, t, i, 0)
  {
  }

  /** Finishing row i is starting row i + 1. */
  lemma RowEnd(names: seq<string>, score: Score, t: real, i: nat)
    requires i < |names|
    ensures RemovedSoFar(names, score, t, i, |names|) == RemovedSoFar(names, score, t, i + 1, 0)
  {
    var a := RemovedSoFar(names, score, t, i, |names|);
    var b := RemovedSoFar(names, score, t, i + 1, 0);
    forall x | x in a ensures x in b {
      var k :| 0 <= k < |names| && x == names[k] &&
               (Dominated(names, score, t, Min(i, k), k) ||
                (i < k < |names| && IsKept(names, score, t, i) && score(names[i], names[k]) > t));
      assert Dominated(names, score, t, Min(i + 1, k), k);
    }
    forall x | x in b ensures x in a {
      var k :| 0 <= k < |names| && x == names[k] && Dominated(names, score, t, Min(i + 1, k), k);
      if i < k {
        assert Dominated(names, score, t, i, k) ||
               (IsKept(names, score, t, i) && score(names[i], names[k]) > t);
      }
    }
  }

  /** Rows past the second-to-last image delete nothing more. */
  lemma AfterLastRow(names: seq<string>, score: Score, t: real, i: nat)
    requires |names| <= i + 1
    ensures RemovedSoFar(names, score, t, i, 0) == Removed(names, score, t)
  {
    var a := RemovedSoFar(names, score, t, i, 0);
    var b := Removed(names, score, t);
    forall x | x in a ensures x in b {
      var k :| 0 <= k < |names| && x == names[k] && Dominated(names, score, t, Min(i, k), k);
      assert Min(i, k) == k;
    }
    forall x | x in b ensures x in a {
      var k :| 0 <= k < |names| && x == names[k] && !IsKept(names, score, t, k);
      assert Min(i, k) == k;
    }
  }

  // ---------------------------------------------------------------------------
  // A second pass over the survivors

  /** The survivors among the first m images, in their sorted order. */
  function Survivors(names: seq<string>, score: Score, t: real, m: nat): seq<string>
    requires m <= |names|
    decreases m
  {
    if m == 0 then []
    else Survivors(names, score, t, m - 1) +
         (if IsKept(names, score, t, m - 1) then [names[m - 1]] else [])
  }

  lemma {:induction false} SurvivorsSpec(names: seq<string>, score: Score, t: real, m: nat)
    requires m <= |names| && StrictlySorted(names)
    ensures forall x :: x in Survivors(names, score, t, m) <==>
                        exists k :: 0 <= k < m && names[k] == x && IsKept(names, score, t, k)
    ensures StrictlySorted(Survivors(names, score, t, m))
    decreases m
  {
    if m > 0 {
      SurvivorsSpec(names, score, t, m - 1);
      var s := Survivors(names, score, t, m - 1);
      forall x ensures x in Survivors(names, score, t, m) <==>
                       exists k :: 0 <= k < m && names[k] == x && IsKept(names, score, t, k) {
        if x in Survivors(names, score, t, m) && x !in s {
          assert names[m - 1] == x && IsKept(names, score, t, m - 1);
        }
      }
      if IsKept(names, score, t, m - 1) {
        forall a | 0 <= a < |s| ensures Less(s[a], names[m - 1]) {
          assert s[a] in s;
          var k :| 0 <= k < m - 1 && names[k] == s[a] && IsKept(names, score, t, k);
        }
      }
    }
  }

  /** The survivors of a pass are pairwise no more similar than the threshold. */
  lemma SurvivorsDissimilar(names: seq<string>, score: Score, t: real)
    requires StrictlySorted(names)
    ensures var s := Survivors(names, score, t, |names|);
            forall a, b :: 0 <= a < b < |s| ==> score(s[a], s[b]) <= t
  {
    var s := Survivors(names, score, t, |names|);
    SurvivorsSpec(names, score, t, |names|);
    forall a, b | 0 <= a < b < |s| ensures score(s[a], s[b]) <= t {
      assert s[a] in s && s[b] in s;
      var ka :| 0 <= ka < |names| && names[ka] == s[a] && IsKept(names, score, t, ka);
      var kb :| 0 <= kb < |names| && names[kb] == s[b] && IsKept(names, score, t, kb);
      if ka == kb {
        LessIrreflexive(s[a]);
      } else if kb < ka {
        LessAsymmetric(names[kb], names[ka]);
      } else {
        KeptPairsDissimilar(names, score, t, ka, kb);
      }
    }
  }

  /** The next listing of the folder a pass left behind holds exactly the
      survivors, in their original relative order. */
  lemma NextListingIsSurvivors(listing: seq<string>, next: seq<string>, suffixes: seq<string>, score: Score, t: real)
    requires Distinct(listing) && Distinct(next)
    requires Folder(next) == PassResult(listing, suffixes, score, t)
    ensures var names := ImageList(listing, suffixes);
            ImageList(next, suffixes) == Survivors(names, score, t, |names|)
  {
    var names := ImageList(listing, suffixes);
    var s := Survivors(names, score, t, |names|);
    ImageListSpec(listing, suffixes);
    ImageListSpec(next, suffixes);
    SortedDistinct(names);
    SurvivorsSpec(names, score, t, |names|);
    forall x ensures x in ImageList(next, suffixes) <==> x in s {
      if x in ImageList(next, suffixes) {
        assert x in Folder(next);
        assert x in names;
        var k :| 0 <= k < |names| && names[k] == x;
        InRemoved(names, score, t, k);
      }
      if x in s {
        var k :| 0 <= k < |names| && names[k] == x && IsKept(names, score, t, k);
        InRemoved(names, score, t, k);
        assert x in listing;
        assert x in Folder(next);
      }
    }
    SortedUnique(ImageList(next, suffixes), s);
  }

  /** Running the pass again over its own output deletes nothing. */
  lemma PassIdempotent(listing: seq<string>, next: seq<string>, suffixes: seq<string>, score: Score, t: real)
    requires Distinct(listing) && Distinct(next)
    requires Folder(next) == PassResult(listing, suffixes, score, t)
    ensures PassResult(next, suffixes, score, t) == Folder(next)
  {
    var names := ImageList(listing, suffixes);
    ImageListSpec(listing, suffixes);
    NextListingIsSurvivors(listing, next, suffixes, score, t);
    SurvivorsDissimilar(names, score, t);
    var again := ImageList(next, suffixes);
    AllKept(again, score, t);
    assert Removed(again, score, t) == {};
  }
}
