/** The pure helpers of the image indexer (fatih-test.py): the normalised
    matching key `_norm`, the object id taken from a file name
    (`_extract_id` with `ID_REGEX`), the column-name cleaner `_strip_parens`,
    and the `.jpg`/`.jpeg` filter that `scan_images` applies to the files of
    one directory. */
module ImageIndex {
  import opened Strings
  import opened Paths
  import opened Parens
  import Catalog
  import YearDirectory

  /* ---------------- `_norm` ---------------- */

  /** The characters `_norm` keeps: alphanumerics, `-` and `_`. */
  predicate KeyChar(c: char) { IsAlnum(c) || c == '-' || c == '_' }

  /** The characters of a normalised key: lower-case letters, digits, `-`
      and `_`. */
  predicate LowerKeyChar(c: char) { IsLowerCase(c) || IsDigit(c) || c == '-' || c == '_' }

  /** The characters of `s` that `_norm` keeps, in order. */
  function KeyChars(s: string): (r: string)
    ensures |r| <= |s|
    ensures forall k :: 0 <= k < |r| ==> KeyChar(r[k])
  {
    if s == "" then ""
    else (if KeyChar(s[0]) then [s[0]] else "") + KeyChars(s[1..])
  }

  /** Filtering distributes over concatenation. */
  lemma {:induction false} KeyCharsAppend(a: string, b: string)
    ensures KeyChars(a + b) == KeyChars(a) + KeyChars(b)
    decreases |a|
  {
    if a == "" {
      assert a + b == b;
    } else {
      assert (a + b)[1..] == a[1..] + b;
      KeyCharsAppend(a[1..], b);
    }
  }

  /** Filtering keeps a text exactly when all its characters are kept. */
  lemma {:induction false} KeyCharsIdentity(s: string)
    ensures KeyChars(s) == s <==> forall k :: 0 <= k < |s| ==> KeyChar(s[k])
    decreases |s|
  {
    if s != "" {
      KeyCharsIdentity(s[1..]);
      if forall k :: 0 <= k < |s| ==> KeyChar(s[k]) {
        assert forall k :: 0 <= k < |s[1..]| ==> KeyChar(s[1..][k]) by {
          forall k | 0 <= k < |s[1..]| ensures KeyChar(s[1..][k]) {
            assert s[1..][k] == s[k + 1];
          }
        }
        assert s == [s[0]] + s[1..];
      } else if KeyChar(s[0]) {
        var k :| 0 <= k < |s| && !KeyChar(s[k]);
        assert s[1..][k - 1] == s[k];
      }
    }
  }

  /** Text with no kept character filters to nothing. */
  lemma {:induction false} KeyCharsOfNone(w: string)
    requires forall k :: 0 <= k < |w| ==> !KeyChar(w[k])
    ensures KeyChars(w) == ""
    decreases |w|
  {
    if w != "" {
      assert forall k :: 0 <= k < |w[1..]| ==> !KeyChar(w[1..][k]) by {
        forall k | 0 <= k < |w[1..]| ensures !KeyChar(w[1..][k]) {
          assert w[1..][k] == w[k + 1];
        }
      }
      KeyCharsOfNone(w[1..]);
    }
  }

  /** Lower-casing and filtering commute: `LowerChar` keeps the kept
      characters and only those. */
  lemma {:induction false} KeyCharsLower(s: string)
    ensures Lower(KeyChars(s)) == KeyChars(Lower(s))
    decreases |s|
  {
    if s != "" {
      assert Lower(s)[1..] == Lower(s[1..]);
      assert Lower(s)[0] == LowerChar(s[0]);
      KeyCharsLower(s[1..]);
      var head := if KeyChar(s[0]) then [s[0]] else "";
      LowerAppend(head, KeyChars(s[1..]));
    }
  }

  /** `_norm(s)`: `None` gives `""`; anything else is turned into text,
      trimmed, and reduced to its alphanumerics, `-` and `_`, lower-cased.
      The key only holds lower-case letters, digits, `-` and `_`. */
  function Norm(v: Catalog.Value): (r: string)
    ensures v.NoneValue? ==> r == ""
    ensures forall k :: 0 <= k < |r| ==> LowerKeyChar(r[k])
    ensures |r| <= |Catalog.Show(v)|
  {
    if v.NoneValue? then ""
    else
      var s := Catalog.Show(v);
      var kept := KeyChars(Trim(s));
      assert |Trim(s)| <= |s|;
      Lower(kept)
  }

  /** Trimming is immaterial to the filter: the whitespace it removes would
      be dropped anyway. */
  lemma KeyCharsOfTrim(s: string)
    ensures KeyChars(Trim(s)) == KeyChars(s)
  {
    var lo := StripLo(Space, s);
    var t := Trim(s);
    StripSplits(Space, s);
    KeyCharsOfPadded(s[..lo], t, s[lo + |t|..]);
  }

  /** Whitespace around a text adds nothing to its key characters. */
  lemma KeyCharsOfPadded(front: string, t: string, back: string)
    requires AllIs(Space, front, 0, |front|) && AllIs(Space, back, 0, |back|)
    ensures KeyChars(front + t + back) == KeyChars(t)
  {
    forall k | 0 <= k < |front| ensures !KeyChar(front[k]) {
      assert Is(Space, front[k]);
    }
    forall k | 0 <= k < |back| ensures !KeyChar(back[k]) {
      assert Is(Space, back[k]);
    }
    KeyCharsOfNone(front);
    KeyCharsOfNone(back);
    KeyCharsAppend(front + t, back);
    KeyCharsAppend(front, t);
  }

  /** `_norm` is the lower-cased text with everything but alphanumerics,
      `-` and `_` removed; trimming first makes no difference. */
  lemma NormIsFilter(v: Catalog.Value)
    requires !v.NoneValue?
    ensures Norm(v) == KeyChars(Lower(Catalog.Show(v)))
  {
    KeyCharsOfTrim(Catalog.Show(v));
    KeyCharsLower(Catalog.Show(v));
  }

  /** Two texts that agree up to case get the same key. */
  lemma NormIgnoresCase(a: string, b: string)
    requires Lower(a) == Lower(b)
    ensures Norm(Catalog.TextValue(a)) == Norm(Catalog.TextValue(b))
  {
    NormIsFilter(Catalog.TextValue(a));
    NormIsFilter(Catalog.TextValue(b));
  }

  /** Whitespace and punctuation other than `-` and `_` anywhere in the text
      do not change the key: `"AB 12/3"` and `"ab123"` match. */
  lemma NormDropsPunctuation(a: string, w: string, b: string)
    requires forall k :: 0 <= k < |w| ==> !KeyChar(w[k])
    ensures Norm(Catalog.TextValue(a + w + b)) == Norm(Catalog.TextValue(a + b))
  {
    NormIsFilter(Catalog.TextValue(a + w + b));
    NormIsFilter(Catalog.TextValue(a + b));
    LowerAppend(a + w, b);
    LowerAppend(a, w);
    LowerAppend(a, b);
    var lw := Lower(w);
    forall k | 0 <= k < |lw| ensures !KeyChar(lw[k]) {
      assert lw[k] == LowerChar(w[k]);
    }
    KeyCharsOfNone(lw);
    KeyCharsAppend(Lower(a) + lw, Lower(b));
    KeyCharsAppend(Lower(a), lw);
    KeyCharsAppend(Lower(a), Lower(b));
  }

  /** Text of key characters is unchanged by lower-casing and by the
      filter. */
  lemma KeyTextFixed(r: string)
    requires forall k :: 0 <= k < |r| ==> LowerKeyChar(r[k])
    ensures Lower(r) == r && KeyChars(r) == r
  {
    assert forall k :: 0 <= k < |r| ==> Lower(r)[k] == LowerChar(r[k]);
    KeyCharsIdentity(r);
  }

  /** A key is its own key: normalising twice is normalising once. */
  lemma NormIdempotent(v: Catalog.Value)
    ensures Norm(Catalog.TextValue(Norm(v))) == Norm(v)
  {
    var r := Norm(v);
    KeyTextFixed(r);
    NormIsFilter(Catalog.TextValue(r));
  }

  /* ---------------- `_extract_id` ---------------- */

  /** `[^/\\]`: a character of the id group. */
  predicate IdChar(c: char) { c != '/' && c != '\\' }

  /** Text of one or more `[A-Za-z0-9]`. */
  predicate AlnumText(t: string) { |t| > 0 && forall k :: 0 <= k < |t| ==> IsAlnum(t[k]) }

  /** What Python's `$` accepts as the rest of the text: nothing, or a
      single final newline. */
  predicate AtEnd(t: string) { t == "" || t == "\n" }

  /** `(?:\.[A-Za-z0-9]+)?$` matches all of `t`. */
  predicate ExtTail(t: string)
  {
    AtEnd(t) ||
    (|t| >= 2 && t[0] == '.' && AlnumText(t[1..])) ||
    (|t| >= 3 && t[0] == '.' && t[|t| - 1] == '\n' && AlnumText(t[1..|t| - 1]))
  }

  /** `ID_REGEX` matches at `i` with the id group on `[i, j)`. */
  predicate IdMatch(s: string, i: nat, j: nat)
  {
    i < j <= |s| && (forall k :: i <= k < j ==> IdChar(s[k])) && ExtTail(s[j..])
  }

  /** The position of the last `/` or `\`, or `-1`. */
  function LastSep(s: string): (k: int)
    ensures -1 <= k < |s|
    ensures k >= 0 ==> !IdChar(s[k])
    ensures forall j :: k < j < |s| ==> IdChar(s[j])
  {
    if |s| == 0 then -1
    else if !IdChar(s[|s| - 1]) then |s| - 1
    else LastSep(s[..|s| - 1])
  }

  /** The first `m >= j` where the rest of the text is an extension tail;
      `m == |s|` always qualifies. */
  function FirstTail(s: string, j: nat): (m: nat)
    requires j <= |s|
    ensures j <= m <= |s| && ExtTail(s[m..])
    ensures forall m' :: j <= m' < m ==> !ExtTail(s[m'..])
    decreases |s| - j
  {
    if j == |s| then j
    else if ExtTail(s[j..]) then j
    else FirstTail(s, j + 1)
  }

  /** A tail holds no separator. */
  lemma ExtTailHasNoSep(t: string)
    ensures ExtTail(t) ==> forall k :: 0 <= k < |t| ==> IdChar(t[k])
  {
    if ExtTail(t) && !AtEnd(t) {
      forall k | 0 <= k < |t| ensures IdChar(t[k]) {
        if 0 < k < |t| - 1 {
          assert t[1..|t| - 1][k - 1] == t[k];
        }
        if 0 < k {
          assert t[1..][k - 1] == t[k];
        }
      }
    }
  }

  /** Every match starts after the last separator. */
  lemma MatchAfterLastSep(s: string, i: nat, j: nat)
    ensures IdMatch(s, i, j) ==> LastSep(s) < i
  {
    if IdMatch(s, i, j) {
      ExtTailHasNoSep(s[j..]);
      forall k | j <= k < |s| ensures IdChar(s[k]) {
        assert s[j..][k - j] == s[k];
      }
    }
  }

  /** `ID_REGEX.search(s)`: the span of the id group of the first match.
      The search takes the leftmost start, and the lazy `+?` the shortest
      id there that lets the rest of the pattern match. */
  function IdSpan(s: string): (r: Option<(nat, nat)>)
    ensures r.Some? ==> IdMatch(s, r.value.0, r.value.1)
    ensures r.Some? ==> forall i, j :: IdMatch(s, i, j) ==>
      r.value.0 < i || (r.value.0 == i && r.value.1 <= j)
    ensures r.None? ==> forall i, j :: !IdMatch(s, i, j)
  {
    var start := LastSep(s) + 1;
    if start < |s| then
      var stop := FirstTail(s, start + 1);
      assert forall i, j :: IdMatch(s, i, j) ==> start <= i by {
        forall i, j ensures IdMatch(s, i, j) ==> start <= i {
          MatchAfterLastSep(s, i, j);
        }
      }
      Some((start, stop))
    else
      assert forall i, j :: !IdMatch(s, i, j) by {
        forall i, j ensures !IdMatch(s, i, j) {
          MatchAfterLastSep(s, i, j);
        }
      }
      None
  }

  /** The id group of `ID_REGEX` on a base name: never empty, without `/`
      or `\`, and missing exactly when the name is empty or ends in `\`. */
  function IdOfBase(b: string): (r: Option<string>)
    requires '/' !in b
    ensures r.Some? ==> r.value != "" && '/' !in r.value && '\\' !in r.value
    ensures r.None? <==> (b == "" || b[|b| - 1] == '\\')
  {
    LastCharMatches(b);
    match IdSpan(b)
    case None =>
      None
    case Some(span) =>
      var id := b[span.0..span.1];
      assert forall k :: 0 <= k < |id| ==> IdChar(id[k]) by {
        forall k | 0 <= k < |id| ensures IdChar(id[k]) {
          assert id[k] == b[span.0 + k];
        }
      }
      Some(id)
  }

  /** `_extract_id(fname)`: the id group of `ID_REGEX` on the base name, or
      `None` when it does not match. The id is never empty and holds no
      `/` or `\`; there is none exactly when the base name is empty or ends
      in `\`. */
  function ExtractId(fname: string): (r: Option<string>)
    ensures r.Some? ==> r.value != "" && '/' !in r.value && '\\' !in r.value
    ensures r.None? <==> (Basename(fname) == "" || Basename(fname)[|Basename(fname)| - 1] == '\\')
  {
    IdOfBase(Basename(fname))
  }

  /** A last character other than a separator is a match by itself. */
  lemma LastCharMatches(b: string)
    requires '/' !in b
    ensures b != "" && b[|b| - 1] != '\\' ==> IdMatch(b, |b| - 1, |b|)
  {
    if b != "" && b[|b| - 1] != '\\' {
      assert b[|b| - 1] != '/';
      assert b[|b|..] == "";
    }
  }

  /** A base name without `/` is its own base name. */
  lemma BasenameOfName(p: string)
    requires '/' !in p
    ensures Basename(p) == p
  {
    assert LastIndexOf(p, '/') == -1;
  }

  /** A `.` strictly inside the text, not at its last position, rules out an
      extension tail. */
  lemma InnerDotIsNoTail(t: string, d: nat)
    requires 1 <= d <= |t| - 2 && t[d] == '.'
    ensures !ExtTail(t)
  {
    assert t[1..][d - 1] == '.';
    assert t[1..|t| - 1][d - 1] == '.';
  }

  /** The first tail from `j` on is the one at `m` when there is none
      between. */
  lemma FirstTailIs(s: string, j: nat, m: nat)
    requires j <= m <= |s| && ExtTail(s[m..])
    requires forall m' :: j <= m' < m ==> !ExtTail(s[m'..])
    ensures FirstTail(s, j) == m
  {
  }

  /** A name without separators is matched from its first character, with
      the id ending at the first extension tail after it. */
  lemma ExtractIdOfName(s: string)
    requires s != "" && forall k :: 0 <= k < |s| ==> IdChar(s[k])
    ensures ExtractId(s) == Some(s[..FirstTail(s, 1)])
  {
    assert '/' !in s by {
      forall k | 0 <= k < |s| ensures s[k] != '/' {
        assert IdChar(s[k]);
      }
    }
    BasenameOfName(s);
    assert LastSep(s) == -1;
  }

  /** `x + "." + e` has no separator when neither part has one. */
  lemma DottedNameHasNoSep(x: string, e: string)
    requires '/' !in x && '\\' !in x && AlnumText(e)
    ensures forall k :: 0 <= k < |x + "." + e| ==> IdChar((x + "." + e)[k])
  {
    var s := x + "." + e;
    forall k | 0 <= k < |s| ensures IdChar(s[k]) {
      if k < |x| {
        assert s[k] == x[k];
      } else if k > |x| {
        assert s[k] == e[k - |x| - 1];
      }
    }
  }

  lemma TailAtDot(x: string, e: string)
    requires AlnumText(e)
    ensures ExtTail((x + "." + e)[|x|..])
  {
    var tail := (x + "." + e)[|x|..];
    assert tail == "." + e;
    assert tail[1..] == e;
  }

  lemma NoTailBeforeDot(x: string, e: string, m: nat)
    requires 1 <= m < |x| && |e| > 0
    ensures !ExtTail((x + "." + e)[m..])
  {
    var t := (x + "." + e)[m..];
    assert t[|x| - m] == '.';
    InnerDotIsNoTail(t, |x| - m);
  }

  /** One trailing `.` + alphanumeric extension is removed, and only one:
      `"a.b.jpg"` gives `"a.b"`. */
  lemma ExtractIdDropsExtension(x: string, e: string)
    requires x != "" && '/' !in x && '\\' !in x
    requires AlnumText(e)
    ensures ExtractId(x + "." + e) == Some(x)
  {
    var s := x + "." + e;
    assert s[..|x|] == x;
    DottedNameHasNoSep(x, e);
    ExtractIdOfName(s);
    TailAtDot(x, e);
    forall m | 1 <= m < |x| ensures !ExtTail(s[m..]) {
      NoTailBeforeDot(x, e, m);
    }
    FirstTailIs(s, 1, |x|);
  }

  /** A name without a dot, separator or newline is its own id. */
  lemma {:induction false} ExtractIdKeepsPlainName(x: string)
    requires x != "" && '/' !in x && '\\' !in x && '.' !in x && '\n' !in x
    ensures ExtractId(x) == Some(x)
  {
    BasenameOfName(x);
    assert LastSep(x) == -1;
    forall m | 1 <= m < |x| ensures !ExtTail(x[m..]) {
      var t := x[m..];
      assert t[0] == x[m];
      assert t != "\n";
    }
    assert x[|x|..] == "";
    assert FirstTail(x, 1) == |x|;
    assert x[0..|x|] == x;
  }

  /** `_extract_id` looks only at the last path component. */
  lemma ExtractIdIgnoresDirectory(dir: string, name: string)
    requires '/' !in name
    ensures ExtractId(dir + "/" + name) == ExtractId(name)
  {
    var p := dir + "/" + name;
    assert p[|dir|] == '/';
    assert forall j :: |dir| < j < |p| ==> p[j] == name[j - |dir| - 1];
    assert LastIndexOf(p, '/') == |dir|;
    assert p[|dir| + 1..] == name;
    BasenameOfName(name);
  }

  /* ---------------- `_strip_parens` ---------------- */

  /** `_strip_parens(colname)`: every parenthesised remark, with the
      whitespace in front of it, removed from the column name; then
      trimmed. The result has no surrounding whitespace and no `(` followed
      by `)`; a name without `(` is only trimmed. */
  function StripParensColumn(colname: string): (r: string)
    ensures Trim(r) == r
    ensures NoParenPair(r)
    ensures '(' !in colname ==> r == Trim(colname)
  {
    var removed := RemoveGroups(colname);
    TrimIdempotent(removed);
    TrimKeepsNoParenPair(removed);
    RemoveGroupsNoOpen(colname);
    Trim(removed)
  }

  /** Cleaning a cleaned name changes nothing. */
  lemma StripParensColumnIdempotent(colname: string)
    ensures StripParensColumn(StripParensColumn(colname)) == StripParensColumn(colname)
  {
    RemoveGroupsIdentity(StripParensColumn(colname));
  }

  /** A remark in parentheses at the end of a column name is dropped:
      `"Standort-Beschreibung (eigener Name)"` becomes
      `"Standort-Beschreibung"`. */
  lemma StripParensColumnDropsRemark(a: string, w: string, b: string)
    requires |a| > 0 && '(' !in a && !IsSpace(a[0]) && !IsSpace(a[|a| - 1])
    requires AllSpace(w) && ')' !in b
    ensures StripParensColumn(a + w + "(" + b + ")") == a
  {
    var s := a + w + "(" + b + ")";
    Catalog.RemarkRemoved(a, w, b);
    assert a + (w + "(" + b + ")") == s;
    StripUnbounded(Space, a);
  }

  /* ---------------- the image filter of `scan_images` ---------------- */

  const ImageExts: set<string> := {".jpg", ".jpeg"}

  /** `os.path.splitext(f)[1].lower() in IMG_EXTS`. */
  predicate IsImage(f: string)
  {
    Lower(Ext(f)) in ImageExts
  }

  /** Every file the indexer takes as an image has an extension the linker
      also accepts. */
  lemma ImageExtsAreAllowed(f: string)
    ensures IsImage(f) ==> Lower(Ext(f)) in YearDirectory.AllowedExts
  {
  }

  /** For a name with a proper stem, the filter looks at the extension
      only, in any letter case: `"X.JPG"` passes, `"X.png"` does not. */
  lemma IsImageOfStemAndExt(stem: string, e: string)
    requires |e| > 0 && e[0] == '.' && '.' !in e[1..] && '/' !in e
    requires HasNonDot(stem, LastIndexOf(stem, '/') + 1, |stem|)
    ensures IsImage(stem + e) <==> Lower(e) in ImageExts
  {
    ExtOfStemAndSuffix(stem, e);
    assert Ext(stem + e) == e;
  }

  /** A name that is only an extension, such as `".jpg"`, has no extension
      and is not taken. */
  lemma DotNameIsNoImage(e: string)
    requires |e| > 0 && e[0] == '.' && '.' !in e[1..] && '/' !in e
    ensures !IsImage(e)
  {
    assert LastIndexOf(e, '.') == 0;
    assert LastIndexOf(e, '/') == -1;
    assert Ext(e) == "";
    assert Lower("") == "";
  }

  /** One row of `scan_images`: the directory the file was found in and
      its name. The other columns are computed from these two: `file_path`
      is `FilePath`, `obj_id_raw` is `ObjIdRaw` and `obj_id_norm` is
      `ObjIdNorm` of the row. */
  datatype ImageRow = ImageRow(dir: string, fileName: string)

  /** `os.path.join(root, f)`. */
  function FilePath(row: ImageRow): (p: string)
    ensures EndsWith(p, row.fileName)
  {
    YearDirectory.JoinPath(row.dir, row.fileName)
  }

  /** `_extract_id(f)`. */
  function ObjIdRaw(row: ImageRow): Option<string>
  {
    ExtractId(row.fileName)
  }

  /** The `file_path` and `obj_id_raw` columns agree: the base name of the
      full path is the listed name, and extracting the id from the full path
      gives the row's id. */
  lemma RowColumnsAgree(row: ImageRow)
    requires '/' !in row.fileName
    ensures Basename(FilePath(row)) == row.fileName
    ensures ExtractId(FilePath(row)) == ObjIdRaw(row)
  {
    YearDirectory.BasenameOfJoin(row.dir, row.fileName);
    BasenameOfName(row.fileName);
  }

  /** The value `_norm` receives for an extracted id. */
  function IdValue(oid: Option<string>): Catalog.Value
  {
    match oid
    case None => Catalog.NoneValue
    case Some(t) => Catalog.TextValue(t)
  }

  /** `_norm(oid) if oid else ""`. The guard never decides anything: an id
      is never empty, and `_norm(None)` is `""` too, so the key is always
      the normalised id. */
  function ObjIdNorm(row: ImageRow): (r: string)
    ensures r == Norm(IdValue(ObjIdRaw(row)))
  {
    var oid := ObjIdRaw(row);
    if oid.Some? && oid.value != "" then Norm(IdValue(oid)) else ""
  }

  /** The files of one directory that the filter takes, in listing order. */
  function ImageFiles(files: seq<string>): (r: seq<string>)
    ensures |r| <= |files|
    ensures forall f :: f in r <==> f in files && IsImage(f)
  {
    if files == [] then []
    else (if IsImage(files[0]) then [files[0]] else []) + ImageFiles(files[1..])
  }

  lemma {:induction false} ImageFilesAppend(a: seq<string>, b: seq<string>)
    ensures ImageFiles(a + b) == ImageFiles(a) + ImageFiles(b)
    decreases |a|
  {
    if a == [] {
      assert a + b == b;
    } else {
      assert (a + b)[1..] == a[1..] + b;
      ImageFilesAppend(a[1..], b);
    }
  }

  lemma ImageFilesSnoc(a: seq<string>, f: string)
    ensures ImageFiles(a + [f]) == ImageFiles(a) + (if IsImage(f) then [f] else [])
  {
    ImageFilesAppend(a, [f]);
    assert [f][1..] == [];
  }

  /** The rows of the image files of `files`, each in directory `root`. */
  predicate RowsFor(root: string, files: seq<string>, rows: seq<ImageRow>)
  {
    |rows| == |ImageFiles(files)| &&
    forall k :: 0 <= k < |rows| ==> rows[k] == ImageRow(root, ImageFiles(files)[k])
  }

  lemma ScanStep(root: string, files: seq<string>, f: string, rows: seq<ImageRow>)
    requires RowsFor(root, files, rows)
    ensures RowsFor(root, files + [f], if IsImage(f) then rows + [ImageRow(root, f)] else rows)
  {
    ImageFilesSnoc(files, f);
  }

  /** One more file of the listing keeps the rows in step with the files
      taken so far. */
  lemma ScanStepAt(root: string, files: seq<string>, i: nat, rows: seq<ImageRow>)
    requires i < |files| && RowsFor(root, files[..i], rows)
    ensures RowsFor(root, files[..i + 1], if IsImage(files[i]) then rows + [ImageRow(root, files[i])] else rows)
  {
    assert files[..i + 1] == files[..i] + [files[i]];
    ScanStep(root, files[..i], files[i], rows);
  }

  /** Rows for the image files name every image file and nothing else. */
  lemma RowsForCoverImages(root: string, files: seq<string>, rows: seq<ImageRow>)
    requires RowsFor(root, files, rows)
    ensures forall f :: f in files && IsImage(f) <==> ImageRow(root, f) in rows
  {
    var names := ImageFiles(files);
    forall f ensures f in names <==> ImageRow(root, f) in rows {
      if f in names {
        var k :| 0 <= k < |names| && names[k] == f;
        assert rows[k] == ImageRow(root, f);
      }
    }
  }

  /** The rows `scan_images` produces for the files of one directory: the
      row of each file the filter takes, in the order the directory lists
      them, and a row for each. */
  method ScanDirectory(root: string, files: seq<string>) returns (rows: seq<ImageRow>)
    ensures |rows| == |ImageFiles(files)|
    ensures forall k :: 0 <= k < |rows| ==> rows[k] == ImageRow(root, ImageFiles(files)[k])
    ensures forall f :: f in files && IsImage(f) <==> ImageRow(root, f) in rows
  {
    rows := [];
    var i := 0;
    while i < |files|
      invariant 0 <= i <= |files|
      invariant RowsFor(root, files[..i], rows)
    {
      ScanStepAt(root, files, i, rows);
      if IsImage(files[i]) {
        rows := rows + [ImageRow(root, files[i])];
      }
      i := i + 1;
    }
    assert files[..i] == files;
    RowsForCoverImages(root, files, rows);
  }
}
