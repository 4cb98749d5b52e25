/** Output file names, Python's string order, and the sorted image listing the
    duplicate eliminators walk. */
module Names {

  predicate Distinct(s: seq<string>)
  {
    forall i, j :: 0 <= i < j < |s| ==> s[i] != s[j]
  }

  /** The set of names in a directory listing. */
  function Folder(listing: seq<string>): set<string>
  {
    set x | x in listing
  }

  // ---------------------------------------------------------------------------
  // Decimal numerals and slide file names

  function DigitChar(d: nat): char
    requires d < 10
  {
    ('0' as int + d) as char
  }

  predicate IsDigit(c: char)
  {
    '0' <= c <= '9'
  }

  /** Python's str() of a non-negative int. */
  function NatToString(n: nat): (s: string)
    ensures |s| >= 1
    ensures forall i :: 0 <= i < |s| ==> IsDigit(s[i])
    decreases n
  {
    if n < 10 then [DigitChar(n)] else NatToString(n / 10) + [DigitChar(n % 10)]
  }

  /** The value of a string of decimal digits. */
  function DigitsValue(s: string): nat
    requires forall i :: 0 <= i < |s| ==> IsDigit(s[i])
    decreases |s|
  {
    if s == [] then 0
    else
      assert IsDigit(s[|s| - 1]);
      DigitsValue(s[..|s| - 1]) * 10 + (s[|s| - 1] as int - '0' as int)
  }

  lemma {:induction false} NatToStringRoundTrip(n: nat)
    ensures DigitsValue(NatToString(n)) == n
    decreases n
  {
    if n >= 10 {
      var s := NatToString(n);
      assert s[..|s| - 1] == NatToString(n / 10);
      NatToStringRoundTrip(n / 10);
    }
  }

  const Prefix: string := "diapositiva_"
  const Jpg: string := ".jpg"

  /** The name under which the k-th saved slide is written. */
  function FileName(k: nat): string
  {
    Prefix + NatToString(k) + Jpg
  }

  /** Distinct save counts give distinct files: no slide overwrites another. */
  lemma FileNameInjective(a: nat, b: nat)
    ensures FileName(a) == FileName(b) ==> a == b
  {
    if FileName(a) == FileName(b) {
      var fa, fb := FileName(a), FileName(b);
      assert fa[|Prefix|..|fa| - |Jpg|] == NatToString(a);
      assert fb[|Prefix|..|fb| - |Jpg|] == NatToString(b);
      NatToStringRoundTrip(a);
      NatToStringRoundTrip(b);
    }
  }

  predicate EndsWith(s: string, suffix: string)
  {
    |suffix| <= |s| && s[|s| - |suffix|..] == suffix
  }

  /** Every slide name is picked up by the ".jpg" listing filters. */
  lemma FileNameIsJpg(k: nat)
    ensures EndsWith(FileName(k), Jpg)
  {
    var f := FileName(k);
    assert f[|f| - |Jpg|..] == Jpg;
  }

  // ---------------------------------------------------------------------------
  // Python's string order: lexicographic by code point

  predicate Less(a: string, b: string)
    decreases |a|
  {
    if a == [] then b != []
    else if b == [] then false
    else if a[0] != b[0] then a[0] < b[0]
    else Less(a[1..], b[1..])
  }

  lemma {:induction false} LessIrreflexive(a: string)
    ensures !Less(a, a)
    decreases |a|
  {
    if a != [] {
      LessIrreflexive(a[1..]);
    }
  }

  lemma {:induction false} LessAsymmetric(a: string, b: string)
    ensures Less(a, b) ==> !Less(b, a)
    decreases |a|
  {
    if a != [] && b != [] && a[0] == b[0] {
      LessAsymmetric(a[1..], b[1..]);
    }
  }

  lemma {:induction false} LessTransitive(a: string, b: string, c: string)
    requires Less(a, b) && Less(b, c)
    ensures Less(a, c)
    decreases |a|
  {
    if a != [] && a[0] == b[0] && b[0] == c[0] {
      LessTransitive(a[1..], b[1..], c[1..]);
    }
  }

  lemma {:induction false} LessTotal(a: string, b: string)
    requires a != b
    ensures Less(a, b) || Less(b, a)
    decreases |a|
  {
    if a != [] && b != [] && a[0] == b[0] {
      assert a == [a[0]] + a[1..] && b == [b[0]] + b[1..];
      LessTotal(a[1..], b[1..]);
    }
  }

  /** Joining a common folder path in front of every name keeps their order. */
  lemma {:induction false} LessCommonPrefix(p: string, a: string, b: string)
    ensures Less(p + a, p + b) == Less(a, b)
    decreases |p|
  {
    if p != [] {
      assert (p + a)[0] == p[0] == (p + b)[0];
      assert (p + a)[1..] == p[1..] + a && (p + b)[1..] == p[1..] + b;
      assert Less(p + a, p + b) == Less(p[1..] + a, p[1..] + b);
      LessCommonPrefix(p[1..], a, b);
    } else {
      assert p + a == a && p + b == b;
    }
  }

  /** Sorting the names as strings does not follow the capture order:
      slide 10 sorts before slide 2 (slides counted from 0). */
  lemma TenthListedBeforeSecond()
    ensures Less(FileName(10), FileName(2))
  {
    assert NatToString(10) == "10";
    assert NatToString(2) == "2";
    assert FileName(10) == Prefix + ("10" + Jpg);
    assert FileName(2) == Prefix + ("2" + Jpg);
    LessCommonPrefix(Prefix, "10" + Jpg, "2" + Jpg);
  }

  // ---------------------------------------------------------------------------
  // Sorting (Python's list.sort on strings)

  predicate StrictlySorted(s: seq<string>)
  {
    forall i, j :: 0 <= i < j < |s| ==> Less(s[i], s[j])
  }

  function Insert(x: string, s: seq<string>): (r: seq<string>)
    ensures multiset(r) == multiset(s) + multiset{x}
    decreases |s|
  {
    if s == [] then [x]
    else if Less(s[0], x) then
      assert s == [s[0]] + s[1..];
      [s[0]] + Insert(x, s[1..])
    else [x] + s
  }

  function SortNames(s: seq<string>): (r: seq<string>)
    ensures multiset(r) == multiset(s)
    decreases |s|
  {
    if s == [] then []
    else
      assert s == [s[0]] + s[1..];
      Insert(s[0], SortNames(s[1..]))
  }

  lemma {:induction false} InsertSorted(x: string, s: seq<string>)
    requires StrictlySorted(s) && x !in s
    ensures StrictlySorted(Insert(x, s))
    decreases |s|
  {
    if s != [] {
      if Less(s[0], x) {
        InsertSorted(x, s[1..]);
        var r := Insert(x, s[1..]);
        forall k | 0 <= k < |r| ensures Less(s[0], r[k]) {
          assert r[k] in multiset(r);
          if r[k] != x {
            assert r[k] in s[1..];
            var m :| 1 <= m < |s| && s[m] == r[k];
          }
        }
      } else {
        LessTotal(x, s[0]);
        forall k | 1 <= k < |s| ensures Less(x, s[k]) {
          LessTransitive(x, s[0], s[k]);
        }
      }
    }
  }

  /** A listing without repeated names sorts into strictly increasing order. */
  lemma {:induction false} SortNamesSorted(s: seq<string>)
    requires Distinct(s)
    ensures StrictlySorted(SortNames(s))
    decreases |s|
  {
    if s != [] {
      SortNamesSorted(s[1..]);
      assert s[0] !in multiset(s[1..]);
      assert s[0] !in SortNames(s[1..]);
      InsertSorted(s[0], SortNames(s[1..]));
    }
  }

  /** Two strictly sorted sequences with the same elements are equal: the sorted
      listing of a folder does not depend on the order the directory returned. */
  lemma {:induction false} SortedUnique(a: seq<string>, b: seq<string>)
    requires StrictlySorted(a) && StrictlySorted(b)
    requires forall x :: x in a <==> x in b
    ensures a == b
    decreases |a| + |b|, if a == [] then 1 else 0
  {
    if a != [] {
      assert b != [] by { assert a[0] in a; }
      if a[0] != b[0] {
        assert b[0] in b && a[0] in a;
        var ka :| 0 <= ka < |a| && a[ka] == b[0];
        var kb :| 0 <= kb < |b| && b[kb] == a[0];
        assert ka > 0 && kb > 0;
        LessAsymmetric(a[0], b[0]);
      }
      assert a[0] == b[0];
      forall x ensures x in a[1..] <==> x in b[1..] {
        if x in a[1..] {
          var k :| 1 <= k < |a| && a[k] == x;
          assert x != a[0] by { LessIrreflexive(x); }
          assert x in a;
          var m :| 0 <= m < |b| && b[m] == x;
          assert b[1..][m - 1] == x;
        }
        if x in b[1..] {
          var k :| 1 <= k < |b| && b[k] == x;
          assert x != b[0] by { LessIrreflexive(x); }
          assert x in b;
          var m :| 0 <= m < |a| && a[m] == x;
          assert a[1..][m - 1] == x;
        }
      }
      SortedUnique(a[1..], b[1..]);
      assert a == [a[0]] + a[1..] && b == [b[0]] + b[1..];
    } else if b != [] {
      SortedUnique(b, a);
    }
  }

  // ---------------------------------------------------------------------------
  // The image listing: names with an accepted suffix, sorted

  predicate HasSuffixIn(name: string, suffixes: seq<string>)
  {
    exists k :: 0 <= k < |suffixes| && EndsWith(name, suffixes[k])
  }

  function FilterImages(listing: seq<string>, suffixes: seq<string>): (r: seq<string>)
    ensures forall x :: x in r <==> x in listing && HasSuffixIn(x, suffixes)
    decreases |listing|
  {
    if listing == [] then []
    else if HasSuffixIn(listing[0], suffixes) then [listing[0]] + FilterImages(listing[1..], suffixes)
    else FilterImages(listing[1..], suffixes)
  }

  lemma {:induction false} FilterImagesDistinct(listing: seq<string>, suffixes: seq<string>)
    requires Distinct(listing)
    ensures Distinct(FilterImages(listing, suffixes))
    decreases |listing|
  {
    if listing != [] {
      FilterImagesDistinct(listing[1..], suffixes);
      assert listing[0] !in listing[1..];
    }
  }

  /** The images the duplicate eliminators process, in processing order. */
  function ImageList(listing: seq<string>, suffixes: seq<string>): (r: seq<string>)
  {
    SortNames(FilterImages(listing, suffixes))
  }

  /** The processing order holds exactly the listed names with an accepted
      suffix, each once, in increasing string order. */
  lemma ImageListSpec(listing: seq<string>, suffixes: seq<string>)
    requires Distinct(listing)
    ensures forall x :: x in ImageList(listing, suffixes) <==> x in listing && HasSuffixIn(x, suffixes)
    ensures StrictlySorted(ImageList(listing, suffixes))
  {
    var f := FilterImages(listing, suffixes);
    FilterImagesDistinct(listing, suffixes);
    SortNamesSorted(f);
    forall x ensures x in SortNames(f) <==> x in f {
      assert x in SortNames(f) <==> x in multiset(SortNames(f));
    }
  }

  lemma SortedDistinct(s: seq<string>)
    requires StrictlySorted(s)
    ensures Distinct(s)
  {
    forall i, j | 0 <= i < j < |s| ensures s[i] != s[j] {
      if s[i] == s[j] {
        LessIrreflexive(s[i]);
      }
    }
  }

  lemma ImageListDistinct(listing: seq<string>, suffixes: seq<string>)
    requires Distinct(listing)
    ensures Distinct(ImageList(listing, suffixes))
    ensures forall k :: 0 <= k < |ImageList(listing, suffixes)| ==> ImageList(listing, suffixes)[k] in Folder(listing)
  {
    ImageListSpec(listing, suffixes);
    SortedDistinct(ImageList(listing, suffixes));
  }

  /** os.listdir: the folder's names, each once, in some order. */
  method ListDir(folder: set<string>) returns (listing: seq<string>)
    ensures Distinct(listing)
    ensures Folder(listing) == folder
  {
    listing := [];
    var rest := folder;
    while rest != {}
      invariant rest <= folder
      invariant Distinct(listing)
      invariant forall x :: x in listing <==> x in folder && x !in rest
      decreases |rest|
    {
      var x :| x in rest;
      listing := listing + [x];
      rest := rest - {x};
    }
  }

  /** The file names of the first n slides. */
  function SlideNames(n: nat): set<string>
  {
    set k | 0 <= k < n :: FileName(k)
  }

  /** Distinct slides get distinct files: n slides add n names. */
  lemma {:induction false} SlideNamesCount(n: nat)
    ensures |SlideNames(n)| == n
  {
    if n > 0 {
      assert SlideNames(n) == SlideNames(n - 1) + {FileName(n - 1)};
      forall k | 0 <= k < n - 1 ensures FileName(k) != FileName(n - 1) {
        FileNameInjective(k, n - 1);
      }
      SlideNamesCount(n - 1);
    }
  }
}
