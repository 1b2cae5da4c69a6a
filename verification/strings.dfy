/** ASCII text primitives shared by every script of the image-linking tools.

    Python's `\d`, `\s`, `\w`, `str.isalnum`, `str.strip()` and `str.lower()`
    are Unicode-aware; this model restricts all of them to their ASCII part.
    Whitespace is what `str.isspace()` accepts in ASCII: code points 9..13,
    28..31 and the space character; `re`'s `\s` on a `str` pattern uses the
    same table. */
module Strings {

  datatype Option<T> = None | Some(value: T)

  /** The character classes the scripts' regular expressions use. */
  datatype CharClass = Digit | Space | Alnum | Word | QuoteOrBracket

  predicate IsDigit(c: char) { '0' <= c <= '9' }

  predicate IsSpace(c: char) { c == ' ' || 9 <= c as int <= 13 || 28 <= c as int <= 31 }

  predicate IsUpper(c: char) { 'A' <= c <= 'Z' }

  predicate IsLowerCase(c: char) { 'a' <= c <= 'z' }

  predicate IsAlnum(c: char) { IsUpper(c) || IsLowerCase(c) || IsDigit(c) }

  predicate IsWord(c: char) { IsAlnum(c) || c == '_' }

  predicate IsAscii(c: char) { c as int < 128 }

  predicate Is(cls: CharClass, c: char)
  {
    match cls
    case Digit => IsDigit(c)
    case Space => IsSpace(c)
    case Alnum => IsAlnum(c)
    case Word => IsWord(c)
    case QuoteOrBracket => c == '\'' || c == '"' || c == '[' || c == ']'
  }

  /** Every character of `s[lo..hi]` is in class `cls`. */
  predicate AllIs(cls: CharClass, s: string, lo: int, hi: int)
    requires 0 <= lo && hi <= |s|
  {
    forall k :: lo <= k < hi ==> Is(cls, s[k])
  }

  predicate AllDigits(s: string) { AllIs(Digit, s, 0, |s|) }

  predicate AllSpace(s: string) { AllIs(Space, s, 0, |s|) }

  predicate AllAscii(s: string) { forall k :: 0 <= k < |s| ==> IsAscii(s[k]) }

  /** A class test on a slice is the same test on the original positions. */
  lemma AllIsSlice(cls: CharClass, s: string, lo: nat, hi: nat, x: nat, y: nat)
    requires lo <= hi <= |s| && y <= hi - lo
    ensures AllIs(cls, s[lo..hi], x, y) <==> AllIs(cls, s, lo + x, lo + y)
  {
    assert forall k :: x <= k < y ==> s[lo..hi][k] == s[lo + k];
    if AllIs(cls, s, lo + x, lo + y) {
      forall k | x <= k < y
        ensures Is(cls, s[lo..hi][k])
      {
        assert Is(cls, s[lo + k]);
      }
    }
  }

  /** The end of the longest run of class `cls` starting at `p`: what a greedy
      `\d*`, `\s*` or `[A-Za-z0-9]*` consumes from `p`. */
  function RunEnd(cls: CharClass, s: string, p: nat): (q: nat)
    requires p <= |s|
    ensures p <= q <= |s|
    ensures AllIs(cls, s, p, q)
    ensures q == |s| || !Is(cls, s[q])
    decreases |s| - p
  {
    if p < |s| && Is(cls, s[p]) then RunEnd(cls, s, p + 1) else p
  }

  /** A run of `cls` that stops at a character outside `cls` (or at the end)
      is the run `RunEnd` finds: the greedy run is the only maximal one. */
  lemma {:induction false} RunEndUnique(cls: CharClass, s: string, p: nat, q: nat)
    requires p <= q <= |s|
    requires AllIs(cls, s, p, q)
    requires q == |s| || !Is(cls, s[q])
    ensures RunEnd(cls, s, p) == q
    decreases q - p
  {
    if p < q {
      RunEndUnique(cls, s, p + 1, q);
    }
  }

  lemma SpaceIsNotDigit(c: char)
    ensures IsSpace(c) ==> !IsDigit(c)
    ensures IsDigit(c) ==> IsWord(c) && IsAlnum(c)
  {
  }

  function LowerChar(c: char): char
  {
    if IsUpper(c) then (c as int + 32) as char else c
  }

  function UpperChar(c: char): char
  {
    if IsLowerCase(c) then (c as int - 32) as char else c
  }

  /** `str.lower()` on ASCII text. */
  function Lower(s: string): (r: string)
    ensures |r| == |s|
  {
    seq(|s|, k requires 0 <= k < |s| => LowerChar(s[k]))
  }

  /** `str.upper()` on ASCII text. */
  function Upper(s: string): (r: string)
    ensures |r| == |s|
  {
    seq(|s|, k requires 0 <= k < |s| => UpperChar(s[k]))
  }

  /** `Lower` leaves no upper-case letter, turns each upper-case letter
      into its lower-case partner and keeps every other character; so it is
      idempotent, and an `Upper` before it makes no difference. */
  lemma LowerCases(s: string)
    ensures forall k :: 0 <= k < |s| ==> !IsUpper(Lower(s)[k])
    ensures forall k :: 0 <= k < |s| && IsUpper(s[k]) ==>
      IsLowerCase(Lower(s)[k]) && Lower(s)[k] as int == s[k] as int + 32
    ensures forall k :: 0 <= k < |s| && !IsUpper(s[k]) ==> Lower(s)[k] == s[k]
    ensures Lower(Lower(s)) == Lower(s)
    ensures Lower(Upper(s)) == Lower(s)
  {
  }

  /** `Upper` mirrors `Lower`: no lower-case letter is left, each one is
      replaced by its upper-case partner, everything else is kept. */
  lemma UpperCases(s: string)
    ensures forall k :: 0 <= k < |s| ==> !IsLowerCase(Upper(s)[k])
    ensures forall k :: 0 <= k < |s| && IsLowerCase(s[k]) ==>
      IsUpper(Upper(s)[k]) && Upper(s)[k] as int == s[k] as int - 32
    ensures forall k :: 0 <= k < |s| && !IsLowerCase(s[k]) ==> Upper(s)[k] == s[k]
    ensures Upper(Upper(s)) == Upper(s)
    ensures Upper(Lower(s)) == Upper(s)
  {
  }

  /** Text made of digits and `-` only is unchanged by `Lower`. */
  lemma LowerKeepsDigitsAndDashes(s: string)
    requires forall k :: 0 <= k < |s| ==> IsDigit(s[k]) || s[k] == '-'
    ensures Lower(s) == s
  {
  }

  lemma LowerAppend(a: string, b: string)
    ensures Lower(a + b) == Lower(a) + Lower(b)
  {
  }

  predicate StartsWith(s: string, p: string)
  {
    |p| <= |s| && s[..|p|] == p
  }

  predicate EndsWith(s: string, p: string)
  {
    |p| <= |s| && s[|s| - |p|..] == p
  }

  /** Start of the text that stripping the characters of class `cls` keeps. */
  function StripLo(cls: CharClass, s: string): nat
    ensures StripLo(cls, s) <= |s|
  {
    RunEnd(cls, s, 0)
  }

  /** One past the last character at or before `hi` that is not in `cls`. */
  function StripHi(cls: CharClass, s: string, hi: nat): (r: nat)
    requires hi <= |s|
    ensures r <= hi
    ensures AllIs(cls, s, r, hi)
    ensures r == 0 || !Is(cls, s[r - 1])
  {
    if hi > 0 && Is(cls, s[hi - 1]) then StripHi(cls, s, hi - 1) else hi
  }

  /** `str.strip(chars)`: `s` is characters of `cls`, then the result, then
      characters of `cls`, and the result neither starts nor ends with one. */
  function Strip(cls: CharClass, s: string): (r: string)
    ensures StripLo(cls, s) + |r| <= |s|
    ensures r == s[StripLo(cls, s)..StripLo(cls, s) + |r|]
    ensures AllIs(cls, s, 0, StripLo(cls, s))
    ensures AllIs(cls, s, StripLo(cls, s) + |r|, |s|)
    ensures |r| == 0 || (!Is(cls, r[0]) && !Is(cls, r[|r| - 1]))
  {
    var lo := StripLo(cls, s);
    if lo == |s| then "" else
    var hi := StripHi(cls, s, |s|);
    assert !Is(cls, s[lo]);
    s[lo..hi]
  }

  /** `str.strip()` with no argument strips whitespace. */
  function Trim(s: string): string
  {
    Strip(Space, s)
  }

  /** Where the parts of `w1 + t + w2` sit in the whole text. */
  lemma PaddedParts(cls: CharClass, w1: string, t: string, w2: string)
    requires AllIs(cls, w1, 0, |w1|) && AllIs(cls, w2, 0, |w2|)
    ensures var s := w1 + t + w2;
      AllIs(cls, s, 0, |w1|) && AllIs(cls, s, |w1| + |t|, |s|) && s[|w1|..|w1| + |t|] == t
  {
    var s := w1 + t + w2;
    assert forall k :: 0 <= k < |w1| ==> s[k] == w1[k];
    assert forall k :: |w1| + |t| <= k < |s| ==> s[k] == w2[k - |w1| - |t|];
  }

  /** The decomposition `Strip` promises determines the result: text that is
      `w1 + t + w2`, with `w1`, `w2` in `cls` and `t` not bounded by `cls`,
      strips to `t`. */
  lemma {:induction false} StripOfPadded(cls: CharClass, w1: string, t: string, w2: string)
    requires AllIs(cls, w1, 0, |w1|) && AllIs(cls, w2, 0, |w2|)
    requires |t| == 0 || (!Is(cls, t[0]) && !Is(cls, t[|t| - 1]))
    ensures Strip(cls, w1 + t + w2) == t
  {
    var s := w1 + t + w2;
    var lo, hi := |w1|, |w1| + |t|;
    PaddedParts(cls, w1, t, w2);
    if |t| == 0 {
      assert AllIs(cls, s, 0, |s|);
      RunEndUnique(cls, s, 0, |s|);
    } else {
      assert s[lo] == t[0] && s[hi - 1] == t[|t| - 1];
      RunEndUnique(cls, s, 0, lo);
      StripEndsAt(cls, s, hi);
    }
  }

  /** Text whose last character outside `cls` sits at `hi - 1`, after the
      stripped start, strips to a result that ends at `hi`. */
  lemma StripEndsAt(cls: CharClass, s: string, hi: nat)
    requires StripLo(cls, s) < hi <= |s| && !Is(cls, s[hi - 1]) && AllIs(cls, s, hi, |s|)
    ensures StripLo(cls, s) + |Strip(cls, s)| == hi
  {
    var lo, r := StripLo(cls, s), Strip(cls, s);
    assert |r| > 0 ==> r[|r| - 1] == s[lo + |r| - 1];
    assert lo + |r| <= hi;
    assert hi <= lo + |r|;
  }

  /** `s` is the characters of `cls` that stripping drops in front, the
      result, and the ones it drops behind. */
  lemma StripSplits(cls: CharClass, s: string)
    ensures var lo := StripLo(cls, s); var r := Strip(cls, s);
      s == s[..lo] + r + s[lo + |r|..] &&
      AllIs(cls, s[..lo], 0, lo) && AllIs(cls, s[lo + |r|..], 0, |s| - lo - |r|)
  {
    var lo := StripLo(cls, s);
    var r := Strip(cls, s);
    AllIsSlice(cls, s, 0, lo, 0, lo);
    AllIsSlice(cls, s, lo + |r|, |s|, 0, |s| - lo - |r|);
  }

  /** Text that neither starts nor ends with a character of `cls` is left
      unchanged by stripping it. */
  lemma StripUnbounded(cls: CharClass, t: string)
    requires |t| == 0 || (!Is(cls, t[0]) && !Is(cls, t[|t| - 1]))
    ensures Strip(cls, t) == t
  {
    assert t == "" + t + "";
    StripOfPadded(cls, "", t, "");
  }

  /** `str.strip()` is idempotent. */
  lemma TrimIdempotent(s: string)
    ensures Trim(Trim(s)) == Trim(s)
  {
    StripUnbounded(Space, Trim(s));
  }

  /** Stripping only removes characters. */
  lemma StripChars(cls: CharClass, s: string)
    ensures forall c :: c in Strip(cls, s) ==> c in s
  {
    var lo := StripLo(cls, s);
    var r := Strip(cls, s);
    assert forall k :: 0 <= k < |r| ==> r[k] == s[lo + k];
  }

  /** Number of occurrences of `c` in `s`. */
  function Count(s: string, c: char): nat
  {
    if |s| == 0 then 0 else (if s[0] == c then 1 else 0) + Count(s[1..], c)
  }

  /** `sep.join(parts)`. */
  function Join(parts: seq<string>, sep: string): string
  {
    if |parts| == 0 then ""
    else if |parts| == 1 then parts[0]
    else parts[0] + sep + Join(parts[1..], sep)
  }

  /** Index of the first `c` in `s`, or `|s|` when there is none. */
  function IndexOf(s: string, c: char): (k: nat)
    ensures k <= |s|
    ensures k < |s| ==> s[k] == c
    ensures forall j :: 0 <= j < k ==> s[j] != c
  {
    if |s| == 0 then 0
    else if s[0] == c then 0
    else 1 + IndexOf(s[1..], c)
  }

  /** `s.split(sep)` for a one-character separator: the pieces contain no
      separator, there is one more piece than separators, and joining the
      pieces with the separator gives `s` back. */
  function Split(s: string, sep: char): (pieces: seq<string>)
    ensures |pieces| == Count(s, sep) + 1
    ensures forall k :: 0 <= k < |pieces| ==> sep !in pieces[k]
    ensures Join(pieces, [sep]) == s
    decreases |s|
  {
    var k := IndexOf(s, sep);
    if k == |s| then
      assert Count(s, sep) == 0 by { CountAbsent(s, sep); }
      [s]
    else
      var rest := Split(s[k + 1..], sep);
      assert s == s[..k] + [sep] + s[k + 1..];
      CountSplit(s, k, sep);
      assert sep !in s[..k];
      [s[..k]] + rest
  }

  lemma {:induction false} CountAbsent(s: string, c: char)
    requires c !in s
    ensures Count(s, c) == 0
  {
    if |s| > 0 {
      assert c !in s[1..];
      CountAbsent(s[1..], c);
    }
  }

  lemma {:induction false} CountSplit(s: string, k: nat, c: char)
    requires k < |s| && s[k] == c
    requires forall j :: 0 <= j < k ==> s[j] != c
    ensures Count(s, c) == 1 + Count(s[k + 1..], c)
  {
    if k > 0 {
      assert s[1..][k - 1] == c;
      assert s[1..][k..] == s[k + 1..];
      CountSplit(s[1..], k - 1, c);
    }
  }

  /** Splitting text joined with a separator that no part contains gives the
      parts back: the converse of `Split`'s round trip. */
  lemma {:induction false} SplitJoin(parts: seq<string>, c: char)
    requires |parts| > 0
    requires forall k :: 0 <= k < |parts| ==> c !in parts[k]
    ensures Split(Join(parts, [c]), c) == parts
    decreases |parts|
  {
    var p := parts[0];
    if |parts| == 1 {
      assert IndexOf(p, c) == |p|;
    } else {
      var rest := Join(parts[1..], [c]);
      assert Join(parts, [c]) == p + [c] + rest;
      SplitCons(p, rest, c);
      SplitJoin(parts[1..], c);
      assert parts == [p] + parts[1..];
    }
  }

  /** A first piece without the separator, then the separator, splits off
      as the first piece. */
  lemma SplitCons(p: string, rest: string, c: char)
    requires c !in p
    ensures Split(p + [c] + rest, c) == [p] + Split(rest, c)
  {
    var s := p + [c] + rest;
    assert s[|p|] == c;
    assert forall j :: 0 <= j < |p| ==> s[j] == p[j];
    assert IndexOf(s, c) == |p|;
    assert s[..|p|] == p;
    assert s[|p| + 1..] == rest;
  }
}
