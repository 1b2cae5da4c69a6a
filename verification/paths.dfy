/** POSIX path helpers the scripts call: `os.path.splitext` and
    `os.path.basename`. */
module Paths {
  import opened Strings

  /** Index of the last `c` in `s`, or -1 when there is none
      (`str.rfind`). */
  function LastIndexOf(s: string, c: char): (k: int)
    ensures -1 <= k < |s|
    ensures k >= 0 ==> s[k] == c
    ensures forall j :: k < j < |s| ==> s[j] != c
  {
    if |s| == 0 then -1
    else if s[|s| - 1] == c then |s| - 1
    else LastIndexOf(s[..|s| - 1], c)
  }

  /** `s[lo..hi]` holds a character other than `.`. */
  predicate HasNonDot(s: string, lo: int, hi: int)
    requires 0 <= lo && hi <= |s|
  {
    exists k | lo <= k < hi :: s[k] != '.'
  }

  /** `os.path.splitext(p)`: the extension starts at the last dot of the last
      path component, provided that component has a non-dot character before
      that dot (leading dots do not start an extension); otherwise the
      extension is empty. */
  function SplitExt(p: string): (r: (string, string))
    ensures r.0 + r.1 == p
    ensures r.1 != "" ==> r.1[0] == '.' && '.' !in r.1[1..] && '/' !in r.1
    ensures r.1 != "" ==> HasNonDot(r.0, LastIndexOf(r.0, '/') + 1, |r.0|)
  {
    var sep := LastIndexOf(p, '/');
    var dot := LastIndexOf(p, '.');
    if dot > sep && HasNonDot(p, sep + 1, dot) then
      var root := p[..dot];
      assert p == root + p[dot..];
      assert LastIndexOf(root, '/') == sep by { LastIndexOfPrefix(p, dot, '/'); }
      assert forall k :: sep + 1 <= k < dot ==> root[k] == p[k];
      (root, p[dot..])
    else
      (p, "")
  }

  lemma {:induction false} LastIndexOfPrefix(s: string, n: nat, c: char)
    requires n <= |s|
    requires forall j :: n <= j < |s| ==> s[j] != c
    ensures LastIndexOf(s[..n], c) == LastIndexOf(s, c)
    decreases |s| - n
  {
    if n < |s| {
      assert s[..|s| - 1][..n] == s[..n];
      LastIndexOfPrefix(s[..|s| - 1], n, c);
    } else {
      assert s[..n] == s;
    }
  }

  function Ext(p: string): string
  {
    SplitExt(p).1
  }

  /** The converse of `SplitExt`'s promise: a stem whose last component has a
      non-dot character, followed by a dot and dot-free, slash-free text,
      splits back into exactly that stem and extension. */
  lemma ExtOfStemAndSuffix(stem: string, e: string)
    requires |e| > 0 && e[0] == '.' && '.' !in e[1..] && '/' !in e
    requires HasNonDot(stem, LastIndexOf(stem, '/') + 1, |stem|)
    ensures SplitExt(stem + e) == (stem, e)
  {
    var p := stem + e;
    assert forall j :: |stem| < j < |p| ==> p[j] == e[j - |stem|];
    assert p[|stem|] == '.';
    assert LastIndexOf(p, '.') == |stem|;
    assert p[..|stem|] == stem;
    LastIndexOfPrefix(p, |stem|, '/');
    var sep := LastIndexOf(p, '/');
    assert sep == LastIndexOf(stem, '/');
    var k :| sep + 1 <= k < |stem| && stem[k] != '.';
    assert p[k] != '.';
  }

  /** `os.path.basename(p)`: the text after the last `/`. The path is a
      directory part, empty or ending in `/`, followed by the result. */
  function Basename(p: string): (r: string)
    ensures '/' !in r
    ensures EndsWith(p, r)
    ensures |r| == |p| || p[|p| - |r| - 1] == '/'
  {
    var k := LastIndexOf(p, '/');
    assert forall j :: k + 1 <= j < |p| ==> p[k + 1..][j - k - 1] == p[j];
    p[k + 1..]
  }

  /** The converse of `Basename`'s promise: a directory part that is empty
      or ends in `/`, followed by a name without `/`, has that name as its
      base name. */
  lemma BasenameOfDirAndName(dir: string, name: string)
    requires dir == "" || dir[|dir| - 1] == '/'
    requires '/' !in name
    ensures Basename(dir + name) == name
  {
    var p := dir + name;
    assert forall j :: |dir| <= j < |p| ==> p[j] == name[j - |dir|];
    var k := LastIndexOf(p, '/');
    if dir != "" {
      assert p[|dir| - 1] == '/';
    }
    assert k == |dir| - 1;
    assert p[k + 1..] == name;
  }

  /** `[os.path.basename(p) for p in ps]`. */
  function Basenames(ps: seq<string>): (r: seq<string>)
    ensures |r| == |ps|
    ensures forall k :: 0 <= k < |ps| ==> r[k] == Basename(ps[k])
  {
    seq(|ps|, k requires 0 <= k < |ps| => Basename(ps[k]))
  }
}
