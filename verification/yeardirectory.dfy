/** The non-recursive image search in one year folder
    (`find_matching_files_in_year` in linking.py).

    The file system is a parameter: a map from the path of every directory to
    its listing, in the arbitrary order `os.listdir` returns. A directory is
    present in the map exactly when `os.path.isdir` holds for its path, and
    each entry records whether `os.path.isfile` holds for it. */
module YearDirectory {
  import opened Strings
  import opened Paths
  import opened LexOrder
  import Seqs

  datatype Entry = Entry(name: string, isFile: bool)

  type FileSystem = map<string, seq<Entry>>

  /** Extensions, in lower case, of the files the linker accepts as images. */
  const AllowedExts: set<string> := {".jpg", ".jpeg", ".png", ".tif", ".tiff", ".bmp"}

  /** What `os.path.join(a, b)` puts in front of a relative `b`. */
  function DirPrefix(a: string): (r: string)
    ensures r == "" || r[|r| - 1] == '/'
    ensures StartsWith(r, a)
  {
    if a == "" || a[|a| - 1] == '/' then a else a + "/"
  }

  /** `os.path.join(a, b)` on POSIX: an absolute `b` replaces `a`; otherwise
      `b` follows `a`, with a `/` in between unless `a` is empty or already
      ends with one. */
  function JoinPath(a: string, b: string): (r: string)
    ensures EndsWith(r, b)
    ensures |b| > 0 && b[0] == '/' ==> r == b
    ensures !(|b| > 0 && b[0] == '/') ==> StartsWith(r, a) && |r| <= |a| + 1 + |b|
    ensures !(|b| > 0 && b[0] == '/') && a != "" && a[|a| - 1] != '/' ==> r == a + "/" + b
    ensures !(|b| > 0 && b[0] == '/') && (a == "" || a[|a| - 1] == '/') ==> r == a + b
  {
    if |b| > 0 && b[0] == '/' then b
    else
      var r := DirPrefix(a) + b;
      assert r[|r| - |b|..] == b;
      r
  }

  /** A name `os.listdir` can return: non-empty and without `/`. */
  predicate ValidName(n: string)
  {
    n != "" && '/' !in n
  }

  predicate ValidListing(listing: seq<Entry>)
  {
    forall k :: 0 <= k < |listing| ==> ValidName(listing[k].name)
  }

  /** The three tests the loop applies to one directory entry: it is a file,
      its extension (lower-cased) is an allowed one, and its lower-cased name
      starts with the lower-cased prefix. */
  predicate Qualifies(e: Entry, baseLower: string)
  {
    e.isFile && Lower(Ext(e.name)) in AllowedExts && StartsWith(Lower(e.name), baseLower)
  }

  /** The names of the qualifying entries, in listing order. */
  function QualifyingNames(listing: seq<Entry>, baseLower: string): (r: seq<string>)
    ensures |r| <= |listing|
    ensures forall n :: n in r <==> exists e :: e in listing && Qualifies(e, baseLower) && e.name == n
  {
    if |listing| == 0 then []
    else
      var rest := QualifyingNames(listing[1..], baseLower);
      assert forall e :: e in listing <==> e == listing[0] || e in listing[1..];
      if Qualifies(listing[0], baseLower) then [listing[0].name] + rest else rest
  }

  /** The paths the loop collects in `out`, in listing order. */
  function CandidatePaths(dir: string, listing: seq<Entry>, baseLower: string): (r: seq<string>)
    ensures |r| <= |listing|
    ensures forall p :: p in r <==>
      exists e :: e in listing && Qualifies(e, baseLower) && p == JoinPath(dir, e.name)
  {
    if |listing| == 0 then []
    else
      var rest := CandidatePaths(dir, listing[1..], baseLower);
      assert forall e :: e in listing <==> e == listing[0] || e in listing[1..];
      if Qualifies(listing[0], baseLower) then [JoinPath(dir, listing[0].name)] + rest else rest
  }

  /** `find_matching_files_in_year(images_root, year, base_prefix)`: no result
      when the year folder is not a directory; otherwise the sorted paths of
      the qualifying files directly inside it. */
  function FindMatchingFilesInYear(fs: FileSystem, imagesRoot: string, year: string, basePrefix: string)
    : (r: seq<string>)
    ensures JoinPath(imagesRoot, year) !in fs ==> r == []
    ensures Sorted(r)
    ensures forall p :: p in r <==>
      JoinPath(imagesRoot, year) in fs &&
      exists e :: e in fs[JoinPath(imagesRoot, year)] && Qualifies(e, Lower(basePrefix)) &&
        p == JoinPath(JoinPath(imagesRoot, year), e.name)
  {
    var yearDir := JoinPath(imagesRoot, year);
    if yearDir !in fs then []
    else
      var out := CandidatePaths(yearDir, fs[yearDir], Lower(basePrefix));
      var r := Sort(out);
      assert forall p :: p in r <==> p in out by {
        forall p ensures p in r <==> p in out {
          assert p in r <==> p in multiset(r);
          assert p in out <==> p in multiset(out);
        }
      }
      r
  }

  /** The collected paths, in listing order, are the qualifying names with
      the directory in front. */
  lemma {:induction false} CandidatesArePrefixedNames(dir: string, listing: seq<Entry>, baseLower: string)
    requires ValidListing(listing)
    ensures CandidatePaths(dir, listing, baseLower) == Prefixed(DirPrefix(dir), QualifyingNames(listing, baseLower))
  {
    if |listing| > 0 {
      CandidatesArePrefixedNames(dir, listing[1..], baseLower);
      var rest := QualifyingNames(listing[1..], baseLower);
      if Qualifies(listing[0], baseLower) {
        assert listing[0].name[0] != '/';
        PrefixedCons(DirPrefix(dir), listing[0].name, rest);
      }
    }
  }

  /** Filtering commutes with reordering: a permuted listing gives a
      permuted set of qualifying names. */
  lemma {:induction false} QualifyingNamesPermute(a: seq<Entry>, b: seq<Entry>, baseLower: string)
    requires multiset(a) == multiset(b)
    ensures multiset(QualifyingNames(a, baseLower)) == multiset(QualifyingNames(b, baseLower))
    decreases |a|
  {
    if |a| > 0 {
      var x := a[0];
      assert x in multiset(b);
      var i :| 0 <= i < |b| && b[i] == x;
      Seqs.MultisetRemoveAt(a, 0);
      assert a[..0] + a[1..] == a[1..];
      Seqs.MultisetRemoveAt(b, i);
      QualifyingNamesPermute(a[1..], b[..i] + b[i + 1..], baseLower);
      QualifyingNamesTakeAt(a, 0, baseLower);
      QualifyingNamesTakeAt(b, i, baseLower);
    } else {
      assert multiset(b) == multiset{};
      assert b == [];
    }
  }

  /** The qualifying names of a listing are those of its entry at `i` and
      those of the rest, as a multiset. */
  lemma QualifyingNamesTakeAt(xs: seq<Entry>, i: nat, baseLower: string)
    requires i < |xs|
    ensures multiset(QualifyingNames(xs, baseLower))
      == multiset(QualifyingNames([xs[i]], baseLower)) + multiset(QualifyingNames(xs[..i] + xs[i + 1..], baseLower))
  {
    assert xs == xs[..i] + [xs[i]] + xs[i + 1..];
    QualifyingNamesSplit(xs[..i], xs[i], xs[i + 1..], baseLower);
  }

  lemma {:induction false} QualifyingNamesAppend(a: seq<Entry>, b: seq<Entry>, baseLower: string)
    ensures QualifyingNames(a + b, baseLower) == QualifyingNames(a, baseLower) + QualifyingNames(b, baseLower)
    decreases |a|
  {
    if |a| > 0 {
      assert (a + b)[1..] == a[1..] + b;
      QualifyingNamesAppend(a[1..], b, baseLower);
    } else {
      assert a + b == b;
    }
  }

  lemma QualifyingNamesSplit(l: seq<Entry>, x: Entry, r: seq<Entry>, baseLower: string)
    ensures multiset(QualifyingNames(l + [x] + r, baseLower))
      == multiset(QualifyingNames([x], baseLower)) + multiset(QualifyingNames(l + r, baseLower))
  {
    QualifyingNamesAppend(l + [x], r, baseLower);
    QualifyingNamesAppend(l, [x], baseLower);
    QualifyingNamesAppend(l, r, baseLower);
  }

  /** The result does not depend on the order `os.listdir` happens to return
      the entries in. */
  lemma ListingOrderIrrelevant(fs1: FileSystem, fs2: FileSystem, imagesRoot: string, year: string, basePrefix: string)
    requires var d := JoinPath(imagesRoot, year);
      (d in fs1 <==> d in fs2) && (d in fs1 ==> multiset(fs1[d]) == multiset(fs2[d]))
    requires var d := JoinPath(imagesRoot, year);
      d in fs1 ==> ValidListing(fs1[d]) && ValidListing(fs2[d])
    ensures FindMatchingFilesInYear(fs1, imagesRoot, year, basePrefix)
      == FindMatchingFilesInYear(fs2, imagesRoot, year, basePrefix)
  {
    var d := JoinPath(imagesRoot, year);
    if d in fs1 {
      var bl := Lower(basePrefix);
      CandidatesArePrefixedNames(d, fs1[d], bl);
      CandidatesArePrefixedNames(d, fs2[d], bl);
      var n1 := QualifyingNames(fs1[d], bl);
      var n2 := QualifyingNames(fs2[d], bl);
      QualifyingNamesPermute(fs1[d], fs2[d], bl);
      SortPrefixed(DirPrefix(d), n1);
      SortPrefixed(DirPrefix(d), n2);
      SortIgnoresInputOrder(n1, n2);
    }
  }

  /** `os.path.basename` undoes `os.path.join` with a name without `/`:
      the base name of a path in a directory is the entry's name. */
  lemma BasenameOfJoin(dir: string, name: string)
    requires '/' !in name
    ensures Basename(JoinPath(dir, name)) == name
  {
    if name != "" {
      assert name[0] != '/';
    }
    BasenameOfDirAndName(DirPrefix(dir), name);
  }

  /** Every qualifying name, in whatever order, came from the listing. */
  lemma SortedNamesValid(listing: seq<Entry>, baseLower: string)
    requires ValidListing(listing)
    ensures forall n :: n in Sort(QualifyingNames(listing, baseLower)) ==> ValidName(n)
  {
    var names := QualifyingNames(listing, baseLower);
    forall n | n in Sort(names) ensures ValidName(n) {
      assert n in multiset(Sort(names));
      assert n in names;
      var e :| e in listing && Qualifies(e, baseLower) && e.name == n;
      var j :| 0 <= j < |listing| && listing[j] == e;
    }
  }

  lemma BasenamesOfPrefixed(dir: string, names: seq<string>)
    requires forall n :: n in names ==> ValidName(n)
    ensures Basenames(Prefixed(DirPrefix(dir), names)) == names
  {
    var r := Prefixed(DirPrefix(dir), names);
    forall k | 0 <= k < |r| ensures Basename(r[k]) == names[k] {
      assert names[k] in names;
      BasenameOfJoin(dir, names[k]);
    }
  }

  /** The basenames of the matches (what the linker stores as `images`) are
      the qualifying names in ascending order. */
  lemma MatchedBasenames(fs: FileSystem, imagesRoot: string, year: string, basePrefix: string)
    requires var d := JoinPath(imagesRoot, year); d in fs ==> ValidListing(fs[d])
    ensures var d := JoinPath(imagesRoot, year);
      Basenames(FindMatchingFilesInYear(fs, imagesRoot, year, basePrefix))
        == if d in fs then Sort(QualifyingNames(fs[d], Lower(basePrefix))) else []
  {
    var d := JoinPath(imagesRoot, year);
    if d in fs {
      var names := QualifyingNames(fs[d], Lower(basePrefix));
      CandidatesArePrefixedNames(d, fs[d], Lower(basePrefix));
      SortPrefixed(DirPrefix(d), names);
      SortedNamesValid(fs[d], Lower(basePrefix));
      BasenamesOfPrefixed(d, Sort(names));
    }
  }

  /** Which names qualify, stated directly: a file whose name is a stem with
      a non-dot character after its last `/`, followed by an allowed
      extension in any letter case, qualifies exactly when the lower-cased
      name starts with the lower-cased prefix. */
  lemma QualifyingShape(stem: string, ext: string, baseLower: string)
    requires |ext| > 0 && ext[0] == '.' && '.' !in ext[1..] && '/' !in ext
    requires Lower(ext) in AllowedExts
    requires HasNonDot(stem, LastIndexOf(stem, '/') + 1, |stem|)
    ensures Qualifies(Entry(stem + ext, true), baseLower) <==> StartsWith(Lower(stem + ext), baseLower)
  {
    ExtOfStemAndSuffix(stem, ext);
  }

  /** A name that is only a dot and letters (`.jpg`) has no extension in
      `os.path.splitext`'s sense, so it never qualifies. */
  lemma DotNameDoesNotQualify(ext: string, baseLower: string)
    requires |ext| > 0 && ext[0] == '.' && '.' !in ext[1..] && '/' !in ext
    ensures !Qualifies(Entry(ext, true), baseLower)
  {
    assert LastIndexOf(ext, '.') == 0;
    assert Ext(ext) == "";
    assert Lower("") == "";
  }
}
