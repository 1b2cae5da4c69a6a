/** Parsing an inventory number out of a spreadsheet cell (linking.py).

    The pattern `(\d+)\s*[/]\s*(\d{4})\s*[/]\s*(\d{3,4})\s+(\d+)` (each `[/]`
    is a plain slash in the source) is searched for, not anchored. At a fixed start every quantifier has exactly one choice
    that can lead to a match (a shorter digit run is followed by a digit
    where spaces and a slash, or spaces, are needed, a shorter space run by a space where `/`
    or a digit is needed), so backtracking never changes the groups: the
    match is the deterministic scan `MatchAt`, and `Fits` below is the
    pattern read as a set of strings, with `MatchAtSound`/`MatchAtComplete`
    tying the two together. */
module ObjectNumber {
  import opened Strings

  /** A spreadsheet cell as pandas hands it over: text, a missing value
      (NaN/None, dropped by `dropna`), or some other non-string value
      (a number, a date) identified by an opaque token. The linker only asks
      whether a cell is missing and whether it is a string, so unlike
      `Catalog.Value` this does not tell `None` from NaN and keeps no text
      for other values. */
  datatype Cell = Str(s: string) | Missing | NonStr(token: nat)

  /** One match of the pattern: its start, where the series (fourth group)
      begins, and the four groups. */
  datatype ObjMatch = ObjMatch(start: nat, seriesAt: nat, group: string, year: string,
                               sequence: string, series: string)

  /** What `parse_object_number` returns: the year folder and the file-name
      prefix `group-year-sequence-`. */
  datatype ParsedObject = ParsedObject(year: string, basePrefix: string)

  /** Boundaries of one way the pattern can fit the text (see `Fits`). */
  datatype Split = Split(a: nat, b: nat, c: nat, d: nat, f: nat, g: nat, h: nat)

  /** The pattern read as a language: the text at `i` splits as
      digits `[i,a)`, spaces `[a,b)`, `/` at `b`, spaces `(b,c)`, four digits
      `[c,c+4)`, spaces `[c+4,d)`, `/` at `d`, spaces `(d,f)`, three or four
      digits `[f,g)`, at least one space `[g,h)` and a digit at `h` (the
      first digit of the series, which is all the match needs). */
  predicate Fits(s: string, i: nat, sp: Split)
  {
    && i < sp.a <= sp.b < sp.c && sp.c + 4 <= sp.d < sp.f
    && sp.f + 3 <= sp.g <= sp.f + 4 && sp.g < sp.h < |s|
    && s[sp.b] == '/' && s[sp.d] == '/' && IsDigit(s[sp.h])
    && AllIs(Digit, s, i, sp.a) && AllIs(Space, s, sp.a, sp.b) && AllIs(Space, s, sp.b + 1, sp.c)
    && AllIs(Digit, s, sp.c, sp.c + 4) && AllIs(Space, s, sp.c + 4, sp.d)
    && AllIs(Space, s, sp.d + 1, sp.f) && AllIs(Digit, s, sp.f, sp.g) && AllIs(Space, s, sp.g, sp.h)
  }

  /** The boundaries a greedy left-to-right scan from `i` picks: every run of
      digits or spaces as long as it goes, the year exactly four characters. */
  function GreedySplit(s: string, i: nat): Split
    requires i <= |s|
  {
    var a := RunEnd(Digit, s, i);
    var b := RunEnd(Space, s, a);
    var c := if b < |s| then RunEnd(Space, s, b + 1) else |s|;
    var d := RunEnd(Space, s, if c + 4 <= |s| then c + 4 else |s|);
    var f := if d < |s| then RunEnd(Space, s, d + 1) else |s|;
    var g := RunEnd(Digit, s, f);
    Split(a, b, c, d, f, g, RunEnd(Space, s, g))
  }

  /** The boundaries of a split lie inside the text, so its groups can be
      read off. Every split that fits is bounded. */
  predicate Bounded(s: string, i: nat, sp: Split)
  {
    i <= sp.a <= |s| && sp.c + 4 <= |s| && sp.f <= sp.g <= |s| && sp.h <= |s|
  }

  /** The groups a split captures; for a split that fits, they have the
      lengths and characters the pattern demands. */
  function MatchOf(s: string, i: nat, sp: Split): (m: ObjMatch)
    requires Bounded(s, i, sp)
    ensures Fits(s, i, sp) ==>
      && |m.group| >= 1 && AllDigits(m.group)
      && |m.year| == 4 && AllDigits(m.year)
      && 3 <= |m.sequence| <= 4 && AllDigits(m.sequence)
      && |m.series| >= 1 && AllDigits(m.series)
  {
    assert Fits(s, i, sp) ==> RunEnd(Digit, s, sp.h) > sp.h;
    ObjMatch(i, sp.h, s[i..sp.a], s[sp.c..sp.c + 4], s[sp.f..sp.g], s[sp.h..RunEnd(Digit, s, sp.h)])
  }

  /** The match attempt at start `i`: the greedy scan, kept when it fits. */
  function MatchAt(s: string, i: nat): (r: Option<ObjMatch>)
    requires i <= |s|
    ensures r.Some? ==> r.value.start == i && i < r.value.seriesAt < |s|
  {
    var sp := GreedySplit(s, i);
    if Fits(s, i, sp) then Some(MatchOf(s, i, sp)) else None
  }

  /** In any split of the pattern, every boundary is where the greedy scan
      puts it. */
  lemma SplitIsGreedy(s: string, i: nat, sp: Split)
    requires Fits(s, i, sp)
    ensures GreedySplit(s, i) == sp
  {
    GreedyFront(s, i, sp);
    GreedyBack(s, i, sp);
  }

  /** The runs up to the year end where the split puts them. */
  lemma GreedyFront(s: string, i: nat, sp: Split)
    requires Fits(s, i, sp)
    ensures RunEnd(Digit, s, i) == sp.a && RunEnd(Space, s, sp.a) == sp.b
    ensures RunEnd(Space, s, sp.b + 1) == sp.c
  {
    var Split(a, b, c, _, _, _, _) := sp;
    assert !IsDigit(s[a]) by { SpaceIsNotDigit(s[a]); }
    RunEndUnique(Digit, s, i, a);
    RunEndUnique(Space, s, a, b);
    assert !IsSpace(s[c]);
    RunEndUnique(Space, s, b + 1, c);
  }

  /** The runs after the year end where the split puts them. */
  lemma GreedyBack(s: string, i: nat, sp: Split)
    requires Fits(s, i, sp)
    ensures RunEnd(Space, s, sp.c + 4) == sp.d && RunEnd(Space, s, sp.d + 1) == sp.f
    ensures RunEnd(Digit, s, sp.f) == sp.g && RunEnd(Space, s, sp.g) == sp.h
  {
    var Split(_, _, c, d, f, g, h) := sp;
    RunEndUnique(Space, s, c + 4, d);
    assert !IsSpace(s[f]);
    RunEndUnique(Space, s, d + 1, f);
    assert !IsDigit(s[g]) by { SpaceIsNotDigit(s[g]); }
    RunEndUnique(Digit, s, f, g);
    assert !IsSpace(s[h]);
    RunEndUnique(Space, s, g, h);
  }

  /** Every way the pattern fits at `i` is found by the scan, with the same
      groups: the regular expression's choice among splits does not
      matter. */
  lemma MatchAtComplete(s: string, i: nat, sp: Split)
    requires i <= |s|
    ensures Fits(s, i, sp) ==> MatchAt(s, i) == Some(MatchOf(s, i, sp))
  {
    if Fits(s, i, sp) {
      SplitIsGreedy(s, i, sp);
    }
  }

  /** The split behind a successful scan. */
  lemma MatchAtFit(s: string, i: nat)
    requires i <= |s| && MatchAt(s, i).Some?
    ensures Fits(s, i, GreedySplit(s, i)) && MatchAt(s, i).value == MatchOf(s, i, GreedySplit(s, i))
  {
  }

  /** The scan succeeds at `i` exactly when the pattern fits there in some
      way, and what it returns is the groups of such a fit. */
  lemma MatchAtSound(s: string, i: nat)
    requires i <= |s|
    ensures MatchAt(s, i).Some? <==> exists sp :: Fits(s, i, sp)
    ensures MatchAt(s, i).Some? ==> exists sp :: Fits(s, i, sp) && MatchAt(s, i).value == MatchOf(s, i, sp)
  {
    if MatchAt(s, i).Some? {
      MatchAtFit(s, i);
      var sp := GreedySplit(s, i);
      assert Fits(s, i, sp) && MatchAt(s, i).value == MatchOf(s, i, sp);
    } else if exists sp :: Fits(s, i, sp) {
      var sp :| Fits(s, i, sp);
      MatchAtComplete(s, i, sp);
    }
  }

  /** `OBJ_RE.search(s)` from position `i` on: the leftmost match. */
  function SearchFrom(s: string, i: nat): (r: Option<ObjMatch>)
    requires i <= |s|
    ensures r.Some? ==> i <= r.value.start <= |s| && MatchAt(s, r.value.start) == r
    ensures r.Some? ==> forall j :: i <= j < r.value.start ==> MatchAt(s, j).None?
    ensures r.None? ==> forall j :: i <= j <= |s| ==> MatchAt(s, j).None?
    decreases |s| - i
  {
    var m := MatchAt(s, i);
    if m.Some? then m
    else if i == |s| then None
    else SearchFrom(s, i + 1)
  }

  function Search(s: string): (r: Option<ObjMatch>)
    ensures r.Some? ==> r.value.start <= |s| && MatchAt(s, r.value.start) == r
    ensures r.Some? ==> forall j :: 0 <= j < r.value.start ==> MatchAt(s, j).None?
    ensures r.None? ==> forall j :: 0 <= j <= |s| ==> MatchAt(s, j).None?
  {
    SearchFrom(s, 0)
  }

  /** The leftmost match is the only one the search can return. */
  lemma SearchIsLeftmost(s: string, i: nat)
    requires i <= |s| && MatchAt(s, i).Some?
    requires forall j :: 0 <= j < i ==> MatchAt(s, j).None?
    ensures Search(s) == MatchAt(s, i)
  {
    var r := Search(s);
    assert r.Some?;
    assert r.value.start == i;
  }

  /** `f"{g1}-{year}-{g3}-"`. */
  function PrefixOf(group: string, year: string, sequence: string): string
  {
    group + "-" + year + "-" + sequence + "-"
  }

  /** `parse_object_number(raw)`: a non-string cell, or text in which the
      pattern does not occur anywhere, gives `None`; otherwise the year and
      prefix of the leftmost match, with the series dropped. */
  function ParseObjectNumber(raw: Cell): (r: Option<ParsedObject>)
    ensures !raw.Str? ==> r.None?
    ensures raw.Str? ==> (r.None? <==> Search(raw.s).None?)
    ensures r.Some? ==>
      && raw.Str? && Search(raw.s).Some?
      && r.value.year == Search(raw.s).value.year
      && r.value.basePrefix == PrefixOf(Search(raw.s).value.group, Search(raw.s).value.year, Search(raw.s).value.sequence)
  {
    match raw
    case Str(s) =>
      (match Search(s)
       case None => None
       case Some(m) => Some(ParsedObject(m.year, PrefixOf(m.group, m.year, m.sequence))))
    case _ => None
  }

  /** A text cell yields nothing exactly when the pattern fits at no
      position of the text. */
  lemma ParseNoneIffNoMatch(s: string)
    ensures ParseObjectNumber(Str(s)).None? <==> forall j :: 0 <= j <= |s| ==> MatchAt(s, j).None?
  {
    if Search(s).Some? {
      var i := Search(s).value.start;
      assert MatchAt(s, i).Some?;
    }
  }

  /** The shape of a parsed result: the year is four digits, and the prefix
      is `digits-year-ddd(d)-`, which `.lower()` leaves unchanged. */
  lemma ParsedShape(raw: Cell)
    requires ParseObjectNumber(raw).Some?
    ensures var p := ParseObjectNumber(raw).value;
      |p.year| == 4 && AllDigits(p.year)
      && exists g1, g3 :: |g1| >= 1 && AllDigits(g1) && 3 <= |g3| <= 4 && AllDigits(g3)
           && p.basePrefix == PrefixOf(g1, p.year, g3)
    ensures Lower(ParseObjectNumber(raw).value.basePrefix) == ParseObjectNumber(raw).value.basePrefix
  {
    var s := raw.s;
    var m := Search(s).value;
    MatchAtFit(s, m.start);
    PrefixIsDigitsAndDashes(m.group, m.year, m.sequence);
    LowerKeepsDigitsAndDashes(PrefixOf(m.group, m.year, m.sequence));
  }

  lemma PrefixIsDigitsAndDashes(g1: string, year: string, g3: string)
    requires AllDigits(g1) && AllDigits(year) && AllDigits(g3)
    ensures var pre := PrefixOf(g1, year, g3);
      forall k :: 0 <= k < |pre| ==> IsDigit(pre[k]) || pre[k] == '-'
  {
    var pre := PrefixOf(g1, year, g3);
    forall k | 0 <= k < |pre| ensures IsDigit(pre[k]) || pre[k] == '-' {
      var n1 := |g1|;
      var n2 := n1 + 1 + |year|;
      var n3 := n2 + 1 + |g3|;
      if k < n1 {
        assert pre[k] == g1[k];
      } else if k == n1 || k == n2 || k == n3 {
      } else if k < n2 {
        assert pre[k] == year[k - n1 - 1];
      } else {
        assert pre[k] == g3[k - n2 - 1];
      }
    }
  }

  /** A digit directly before a match start would start a match too: the
      leftmost match's first group is a maximal digit run. */
  lemma MatchExtendsLeft(s: string, i: nat)
    requires 0 < i <= |s| && IsDigit(s[i - 1]) && MatchAt(s, i).Some?
    ensures MatchAt(s, i - 1).Some?
  {
    MatchAtFit(s, i);
    FitExtendsMatch(s, i - 1, GreedySplit(s, i));
  }

  /** A fit one position to the right of a digit gives a match at the
      digit. */
  lemma FitExtendsMatch(s: string, j: nat, sp: Split)
    requires j < |s| && IsDigit(s[j]) && Fits(s, j + 1, sp)
    ensures MatchAt(s, j).Some?
  {
    FitsExtendLeft(s, j + 1, sp);
    MatchAtComplete(s, j, sp);
  }

  /** A fit keeps fitting when its first group grows by a digit to the
      left. */
  lemma FitsExtendLeft(s: string, i: nat, sp: Split)
    requires 0 < i && Fits(s, i, sp) && IsDigit(s[i - 1])
    ensures Fits(s, i - 1, sp)
  {
  }

  lemma LeftmostGroupIsMaximal(s: string)
    requires Search(s).Some?
    ensures var i := Search(s).value.start; i == 0 || !IsDigit(s[i - 1])
  {
    var i := Search(s).value.start;
    if i > 0 && IsDigit(s[i - 1]) {
      MatchExtendsLeft(s, i);
    }
  }

  /** `s` and `t` agree on every character before `h`, and both have a digit
      at `h`. */
  predicate AgreeBefore(s: string, t: string, h: nat)
  {
    && h < |s| && h < |t| && IsDigit(s[h]) && IsDigit(t[h])
    && forall k :: 0 <= k < h ==> s[k] == t[k]
  }

  /** A split that ends by `h` reads only characters on which the two texts
      agree. */
  lemma FitsTransfer(s: string, t: string, h: nat, j: nat, sp: Split)
    requires AgreeBefore(s, t, h)
    ensures Fits(s, j, sp) && sp.h <= h ==> Fits(t, j, sp)
  {
    assert sp.h < h && sp.h < |s| ==> t[sp.h] == s[sp.h];
  }

  /** A digit preceded by a non-digit inside a match is the first digit of
      the year, of the sequence, or of the series. */
  lemma DigitRunStartInMatch(t: string, j: nat, tp: Split, i: nat)
    requires j < i < |t| && IsDigit(t[i]) && !IsDigit(t[i - 1])
    ensures Fits(t, j, tp) ==> i == tp.c || i == tp.f || tp.h <= i
  {
    SpaceIsNotDigit(t[i]);
    SpaceIsNotDigit(t[i - 1]);
  }

  /** The leftmost match of `s` cannot begin at the year of a match of `t`
      starting earlier: its first slash would have to be the other match's
      second one, and its second slash would fall among the spaces before
      the other match's series. */
  lemma NotAtYear(s: string, t: string, i: nat, sp: Split, j: nat, tp: Split)
    requires Fits(s, i, sp) && AgreeBefore(s, t, sp.h) && j < i
    ensures Fits(t, j, tp) ==> i != tp.c
  {
    var Split(a, b, c, d, f, g, h) := sp;
    assert t[a] == s[a] && t[i + 4] == s[i + 4] && t[b] == s[b] && t[c] == s[c];
    assert t[c + 3] == s[c + 3] && t[d] == s[d];
    assert tp.d < h ==> t[tp.d] == s[tp.d];
    assert tp.f < h ==> t[tp.f] == s[tp.f];
    assert tp.h < h ==> t[tp.h] == s[tp.h];
    assert Fits(t, j, tp) && i == tp.c ==> a == tp.c + 4;
    assert Fits(t, j, tp) && i == tp.c ==> b == tp.d;
    assert Fits(t, j, tp) && i == tp.c ==> c == tp.f;
    assert Fits(t, j, tp) && i == tp.c ==> tp.g == c + 4;
  }

  /** Nor at the sequence of such a match: its first slash would fall among
      the spaces before the other match's series. */
  lemma NotAtSequence(s: string, t: string, i: nat, sp: Split, j: nat, tp: Split)
    requires Fits(s, i, sp) && AgreeBefore(s, t, sp.h) && j < i
    ensures Fits(t, j, tp) ==> i != tp.f
  {
    var Split(a, b, c, d, f, g, h) := sp;
    assert t[a] == s[a] && t[b] == s[b];
    assert tp.g < h ==> t[tp.g] == s[tp.g];
    assert tp.h < h ==> t[tp.h] == s[tp.h];
    assert Fits(t, j, tp) && i == tp.f ==> a == tp.g;
  }

  /** If `t` agrees with `s` up to the series of the leftmost match of `s`
      (at `i`, after a non-digit), then `t` has no match before `i` either. */
  lemma NoEarlierMatch(s: string, t: string, i: nat, sp: Split, j: nat)
    requires Fits(s, i, sp) && AgreeBefore(s, t, sp.h)
    requires j < i && !IsDigit(s[i - 1]) && MatchAt(s, j).None?
    ensures MatchAt(t, j).None?
  {
    var tp := GreedySplit(t, j);
    if Fits(t, j, tp) {
      FitBeforeLeftmost(s, t, i, sp, j, tp);
      MatchAtComplete(s, j, tp);
    }
  }

  /** A fit of `t` starting before `i` ends before the series of `s`, so it
      is a fit of `s` too. */
  lemma FitBeforeLeftmost(s: string, t: string, i: nat, sp: Split, j: nat, tp: Split)
    requires Fits(s, i, sp) && AgreeBefore(s, t, sp.h)
    requires j < i && !IsDigit(s[i - 1]) && Fits(t, j, tp)
    ensures Fits(s, j, tp)
  {
    assert t[i] == s[i] && t[i - 1] == s[i - 1];
    DigitRunStartInMatch(t, j, tp, i);
    NotAtYear(s, t, i, sp, j, tp);
    NotAtSequence(s, t, i, sp, j, tp);
    assert AgreeBefore(t, s, sp.h);
    FitsTransfer(t, s, sp.h, j, tp);
  }

  /** Texts that agree before the series start give the same groups. */
  lemma GroupsAgree(s: string, t: string, i: nat, sp: Split)
    requires Fits(s, i, sp) && Fits(t, i, sp) && AgreeBefore(s, t, sp.h)
    ensures var ms, mt := MatchOf(s, i, sp), MatchOf(t, i, sp);
      ms.group == mt.group && ms.year == mt.year && ms.sequence == mt.sequence
  {
    assert t[i..sp.a] == s[i..sp.a];
    assert t[sp.c..sp.c + 4] == s[sp.c..sp.c + 4];
    assert t[sp.f..sp.g] == s[sp.f..sp.g];
  }

  /** A text that agrees with `s` up to the series of the leftmost match of
      `s` has its leftmost match at the same place, with the same split. */
  lemma SearchAgrees(s: string, t: string, sp: Split)
    requires Search(s).Some? && Fits(s, Search(s).value.start, sp)
    requires AgreeBefore(s, t, sp.h)
    ensures Fits(t, Search(s).value.start, sp)
    ensures Search(t) == Some(MatchOf(t, Search(s).value.start, sp))
  {
    var i := Search(s).value.start;
    FitsTransfer(s, t, sp.h, i, sp);
    MatchAtComplete(t, i, sp);
    NoEarlierMatches(s, t, sp);
    SearchIsLeftmost(t, i);
  }

  lemma NoEarlierMatches(s: string, t: string, sp: Split)
    requires Search(s).Some? && Fits(s, Search(s).value.start, sp)
    requires AgreeBefore(s, t, sp.h)
    ensures forall j :: 0 <= j < Search(s).value.start ==> MatchAt(t, j).None?
  {
    var i := Search(s).value.start;
    LeftmostGroupIsMaximal(s);
    forall j | 0 <= j < i
      ensures MatchAt(t, j).None?
    {
      NoEarlierMatch(s, t, i, sp, j);
    }
  }

  /** The series is ignored: replacing the series of the leftmost match, and
      everything after it, by any text that starts with a digit leaves the
      parse unchanged. So "1/1997/1063 0" and "1/1997/1063 12" name the same
      object. */
  lemma SeriesIgnored(s: string, u: string)
    requires Search(s).Some? && |u| > 0 && IsDigit(u[0])
    ensures var t := s[..Search(s).value.seriesAt] + u;
      ParseObjectNumber(Str(t)) == ParseObjectNumber(Str(s))
  {
    var i := Search(s).value.start;
    MatchAtFit(s, i);
    var sp := GreedySplit(s, i);
    var h := sp.h;
    var t := s[..h] + u;
    assert AgreeBefore(s, t, h) by {
      assert t[h] == u[0];
      assert forall k :: 0 <= k < h ==> t[k] == s[k];
    }
    SearchAgrees(s, t, sp);
    GroupsAgree(s, t, i, sp);
  }

  /** The split `sp` moved `lo` positions to the right. */
  function Unshift(sp: Split, lo: nat): Split
  {
    Split(sp.a + lo, sp.b + lo, sp.c + lo, sp.d + lo, sp.f + lo, sp.g + lo, sp.h + lo)
  }

  /** The split `sp` moved `lo` positions to the left. */
  function Shift(sp: Split, lo: nat): (r: Split)
    requires lo <= sp.a <= sp.b <= sp.c <= sp.d <= sp.f <= sp.g <= sp.h
    ensures Unshift(r, lo) == sp
  {
    Split(sp.a - lo, sp.b - lo, sp.c - lo, sp.d - lo, sp.f - lo, sp.g - lo, sp.h - lo)
  }

  /** `w` occurs in `s` at position `lo`. */
  predicate EmbeddedAt(w: string, s: string, lo: nat)
  {
    lo + |w| <= |s| && forall k :: 0 <= k < |w| ==> w[k] == s[lo + k]
  }

  /** A class test on a stretch of an embedded piece is the same test on the
      corresponding stretch of `s`. */
  lemma AllIsInWindow(cls: CharClass, w: string, s: string, lo: nat, x: nat, y: nat)
    requires EmbeddedAt(w, s, lo) && y <= |w|
    ensures AllIs(cls, w, x, y) <==> AllIs(cls, s, x + lo, y + lo)
  {
    if AllIs(cls, w, x, y) {
      forall k | x + lo <= k < y + lo ensures Is(cls, s[k]) { assert s[k] == w[k - lo]; }
    }
    if AllIs(cls, s, x + lo, y + lo) {
      forall k | x <= k < y ensures Is(cls, w[k]) { assert w[k] == s[k + lo]; }
    }
  }

  /** The runs of a split inside an embedded piece have the same classes as
      the runs of the moved split in `s`. */
  lemma RunsInWindow(w: string, s: string, lo: nat, j: nat, sp: Split)
    requires EmbeddedAt(w, s, lo) && sp.h <= |w| && j <= sp.a <= sp.b < sp.c <= sp.c + 4 <= sp.d < sp.f <= sp.g <= sp.h
    ensures var up := Unshift(sp, lo);
      && (AllIs(Digit, w, j, sp.a) <==> AllIs(Digit, s, j + lo, up.a))
      && (AllIs(Space, w, sp.a, sp.b) <==> AllIs(Space, s, up.a, up.b))
      && (AllIs(Space, w, sp.b + 1, sp.c) <==> AllIs(Space, s, up.b + 1, up.c))
      && (AllIs(Digit, w, sp.c, sp.c + 4) <==> AllIs(Digit, s, up.c, up.c + 4))
      && (AllIs(Space, w, sp.c + 4, sp.d) <==> AllIs(Space, s, up.c + 4, up.d))
      && (AllIs(Space, w, sp.d + 1, sp.f) <==> AllIs(Space, s, up.d + 1, up.f))
      && (AllIs(Digit, w, sp.f, sp.g) <==> AllIs(Digit, s, up.f, up.g))
      && (AllIs(Space, w, sp.g, sp.h) <==> AllIs(Space, s, up.g, up.h))
  {
    AllIsInWindow(Digit, w, s, lo, j, sp.a);
    AllIsInWindow(Space, w, s, lo, sp.a, sp.b);
    AllIsInWindow(Space, w, s, lo, sp.b + 1, sp.c);
    AllIsInWindow(Digit, w, s, lo, sp.c, sp.c + 4);
    AllIsInWindow(Space, w, s, lo, sp.c + 4, sp.d);
    AllIsInWindow(Space, w, s, lo, sp.d + 1, sp.f);
    AllIsInWindow(Digit, w, s, lo, sp.f, sp.g);
    AllIsInWindow(Space, w, s, lo, sp.g, sp.h);
  }

  /** A fit in a piece of `s` is a fit in `s` at the corresponding
      positions. */
  lemma FitsFromWindow(w: string, s: string, lo: nat, j: nat, sp: Split)
    requires EmbeddedAt(w, s, lo)
    ensures Fits(w, j, sp) ==> Fits(s, j + lo, Unshift(sp, lo))
  {
    if Fits(w, j, sp) {
      RunsInWindow(w, s, lo, j, sp);
      assert s[sp.b + lo] == w[sp.b] && s[sp.d + lo] == w[sp.d] && s[sp.h + lo] == w[sp.h];
    }
  }

  /** A fit in `s` that lies inside an embedded piece is a fit in the
      piece. */
  lemma FitsToWindow(w: string, s: string, lo: nat, j: nat, sp: Split)
    requires EmbeddedAt(w, s, lo) && sp.h < |w|
    ensures Fits(s, j + lo, Unshift(sp, lo)) ==> Fits(w, j, sp)
  {
    if Fits(s, j + lo, Unshift(sp, lo)) {
      RunsInWindow(w, s, lo, j, sp);
      assert s[sp.b + lo] == w[sp.b] && s[sp.d + lo] == w[sp.d] && s[sp.h + lo] == w[sp.h];
    }
  }

  /** A fit of `s` inside an embedded piece is what the scan of the piece
      finds at the corresponding position. */
  lemma MatchInWindow(w: string, s: string, lo: nat, j: nat, sp: Split)
    requires EmbeddedAt(w, s, lo) && sp.h < |w| && Fits(s, j + lo, Unshift(sp, lo))
    ensures Bounded(w, j, sp) && MatchAt(w, j) == Some(MatchOf(w, j, sp))
  {
    FitsToWindow(w, s, lo, j, sp);
    MatchAtComplete(w, j, sp);
  }

  /** A piece of `s` has no match at `j` when `s` has none at the
      corresponding position. */
  lemma NoMatchInWindow(w: string, s: string, lo: nat, j: nat)
    requires EmbeddedAt(w, s, lo) && j <= |w| && MatchAt(s, j + lo).None?
    ensures MatchAt(w, j).None?
  {
    if MatchAt(w, j).Some? {
      NoFitInWindow(w, s, lo, j, GreedySplit(w, j));
      MatchAtFit(w, j);
      assert false;
    }
  }

  /** No split fits a piece of `s` at `j` when `s` has no match at the
      corresponding position. */
  lemma NoFitInWindow(w: string, s: string, lo: nat, j: nat, sp: Split)
    requires EmbeddedAt(w, s, lo) && j <= |w| && MatchAt(s, j + lo).None?
    ensures !Fits(w, j, sp)
  {
    NoFitWithoutMatch(s, j + lo, Unshift(sp, lo));
    FitsFromWindow(w, s, lo, j, sp);
  }

  /** Where the scan fails, no split fits. */
  lemma NoFitWithoutMatch(s: string, i: nat, sp: Split)
    requires i <= |s| && MatchAt(s, i).None?
    ensures !Fits(s, i, sp)
  {
    MatchAtComplete(s, i, sp);
  }

  /** A piece of `s` holding the leftmost match of `s` finds that match at
      the corresponding position. */
  lemma SearchInWindow(w: string, s: string, lo: nat, j: nat, sp: Split)
    requires EmbeddedAt(w, s, lo) && Search(s).Some? && j + lo == Search(s).value.start
    requires Fits(s, j + lo, Unshift(sp, lo)) && sp.h < |w|
    ensures Bounded(w, j, sp) && Search(w) == Some(MatchOf(w, j, sp))
  {
    MatchInWindow(w, s, lo, j, sp);
    NoMatchesBeforeInWindow(w, s, lo, j);
    SearchIsLeftmost(w, j);
  }

  /** A piece of `s` has no match before `j` when `s` has none before the
      corresponding position. */
  lemma NoMatchesBeforeInWindow(w: string, s: string, lo: nat, j: nat)
    requires EmbeddedAt(w, s, lo) && j <= |w|
    requires forall k :: 0 <= k < j + lo ==> MatchAt(s, k).None?
    ensures forall k :: 0 <= k < j ==> MatchAt(w, k).None?
  {
    forall k | 0 <= k < j
      ensures MatchAt(w, k).None?
    {
      NoMatchInWindow(w, s, lo, k);
    }
  }

  /** Two matches capture the same group, year and sequence. */
  predicate SameGroups(m1: ObjMatch, m2: ObjMatch)
  {
    m1.group == m2.group && m1.year == m2.year && m1.sequence == m2.sequence
  }

  /** The groups of a fit inside a piece are the groups of the same fit in
      the whole text. */
  lemma GroupsInWindow(w: string, s: string, lo: nat, j: nat, sp: Split)
    requires EmbeddedAt(w, s, lo) && Bounded(w, j, sp)
    ensures SameGroups(MatchOf(w, j, sp), MatchOf(s, j + lo, Unshift(sp, lo)))
  {
    SliceInWindow(w, s, lo, j, sp.a);
    SliceInWindow(w, s, lo, sp.c, sp.c + 4);
    SliceInWindow(w, s, lo, sp.f, sp.g);
    SameGroupsOfSlices(w, j, sp, s, j + lo, Unshift(sp, lo));
  }

  /** Two splits whose group stretches hold the same text capture the same
      groups. */
  lemma SameGroupsOfSlices(w: string, j: nat, sp: Split, s: string, i: nat, up: Split)
    requires Bounded(w, j, sp) && Bounded(s, i, up)
    requires w[j..sp.a] == s[i..up.a] && w[sp.c..sp.c + 4] == s[up.c..up.c + 4] && w[sp.f..sp.g] == s[up.f..up.g]
    ensures SameGroups(MatchOf(w, j, sp), MatchOf(s, i, up))
  {
  }

  /** A slice of an embedded piece is the corresponding slice of `s`. */
  lemma SliceInWindow(w: string, s: string, lo: nat, x: nat, y: nat)
    requires EmbeddedAt(w, s, lo) && x <= y <= |w|
    ensures w[x..y] == s[x + lo..y + lo]
  {
  }

  /** The leftmost match of a piece that holds the leftmost match of `s` has
      the same groups. */
  lemma SearchGroupsInWindow(w: string, s: string, lo: nat, sp: Split)
    requires EmbeddedAt(w, s, lo) && Search(s).Some?
    requires lo <= Search(s).value.start && Fits(s, Search(s).value.start, Unshift(sp, lo))
    requires sp.h < |w|
    ensures Search(w).Some? && SameGroups(Search(w).value, Search(s).value)
  {
    var j := Search(s).value.start - lo;
    var up := Unshift(sp, lo);
    SearchAtFit(s, j + lo, up);
    SearchInWindow(w, s, lo, j, sp);
    GroupsInWindow(w, s, lo, j, sp);
  }

  /** The leftmost match is the one the split at its start reads. */
  lemma SearchAtFit(s: string, i: nat, sp: Split)
    requires Search(s).Some? && i == Search(s).value.start && Fits(s, i, sp)
    ensures Search(s) == Some(MatchOf(s, i, sp))
  {
    MatchAtComplete(s, i, sp);
  }

  /** A piece of text without a match has none either. */
  lemma NoSearchInWindow(w: string, s: string, lo: nat)
    requires EmbeddedAt(w, s, lo) && Search(s).None?
    ensures Search(w).None?
  {
    forall j | 0 <= j <= |w|
      ensures MatchAt(w, j).None?
    {
      NoMatchInWindow(w, s, lo, j);
    }
    NoMatchNoSearch(w);
  }

  /** Without a match at any position the search finds nothing. */
  lemma NoMatchNoSearch(s: string)
    requires forall j :: 0 <= j <= |s| ==> MatchAt(s, j).None?
    ensures Search(s).None?
  {
    if Search(s).Some? {
      var i := Search(s).value.start;
      assert MatchAt(s, i).Some?;
    }
  }

  lemma TrimIsEmbedded(s: string)
    ensures EmbeddedAt(Trim(s), s, StripLo(Space, s))
  {
    var t := Trim(s);
    var lo := StripLo(Space, s);
    assert forall k :: 0 <= k < |t| ==> t[k] == s[lo..lo + |t|][k];
  }

  /** A match starts and ends on digits, so it lies inside the stripped
      text. */
  lemma MatchInsideTrim(s: string)
    requires Search(s).Some?
    ensures var i := Search(s).value.start;
      && StripLo(Space, s) <= i <= |s| && Fits(s, i, GreedySplit(s, i))
      && GreedySplit(s, i).h < StripLo(Space, s) + |Trim(s)|
  {
    var i := Search(s).value.start;
    MatchAtFit(s, i);
    var sp := GreedySplit(s, i);
    var lo := StripLo(Space, s);
    var hi := lo + |Trim(s)|;
    assert IsDigit(s[i]) && IsDigit(s[sp.h]);
    SpaceIsNotDigit(s[i]);
    SpaceIsNotDigit(s[sp.h]);
    assert AllIs(Space, s, 0, lo) && AllIs(Space, s, hi, |s|);
  }

  /** The leftmost match of the stripped text has the groups of the leftmost
      match of the raw text, and one exists exactly when the other does. */
  lemma SearchIgnoresSurroundingSpace(s: string)
    ensures Search(Trim(s)).Some? <==> Search(s).Some?
    ensures Search(s).Some? ==> SameGroups(Search(Trim(s)).value, Search(s).value)
  {
    var lo := StripLo(Space, s);
    var t := Trim(s);
    TrimIsEmbedded(s);
    if Search(s).Some? {
      var i := Search(s).value.start;
      MatchInsideTrim(s);
      var sp := GreedySplit(s, i);
      SearchGroupsInWindow(t, s, lo, Shift(sp, lo));
    } else {
      NoSearchInWindow(t, s, lo);
    }
  }

  /** Surrounding whitespace does not change the parse: the raw cell and its
      `strip()`ped form give the same year and prefix. */
  lemma ParseIgnoresSurroundingSpace(s: string)
    ensures ParseObjectNumber(Str(Trim(s))) == ParseObjectNumber(Str(s))
  {
    SearchIgnoresSurroundingSpace(s);
  }

  /** `x` followed by `y` occurs in `s` wherever `x + y` does. */
  lemma EmbeddedConcat(x: string, y: string, s: string, lo: nat)
    requires EmbeddedAt(x + y, s, lo)
    ensures EmbeddedAt(x, s, lo) && EmbeddedAt(y, s, lo + |x|)
  {
    assert forall k :: 0 <= k < |x| ==> x[k] == (x + y)[k];
    assert forall k :: 0 <= k < |y| ==> y[k] == (x + y)[|x| + k];
  }

  lemma EmbeddedSlice(x: string, s: string, lo: nat)
    requires EmbeddedAt(x, s, lo)
    ensures s[lo..lo + |x|] == x
  {
  }

  /** A class test on an embedded piece is the same test on `s`. */
  lemma AllIsEmbedded(cls: CharClass, x: string, s: string, lo: nat)
    requires EmbeddedAt(x, s, lo) && AllIs(cls, x, 0, |x|)
    ensures AllIs(cls, s, lo, lo + |x|)
  {
    forall k | lo <= k < lo + |x|
      ensures Is(cls, s[k])
    {
      assert s[k] == x[k - lo];
    }
  }

  /** The text assembled from the pattern's pieces. */
  function Assemble(g1: string, w1: string, w2: string, year: string, w3: string,
                    w4: string, g3: string, w5: string, rest: string): string
  {
    g1 + (w1 + ("/" + (w2 + (year + (w3 + ("/" + (w4 + (g3 + (w5 + rest)))))))))
  }

  /** The pieces up to the year sit at the start of the embedded text, with
      the characters the pattern asks for there. */
  lemma AssembledFront(g1: string, w1: string, w2: string, year: string, back: string, s: string, lo: nat)
    requires |g1| >= 1 && AllDigits(g1) && |year| == 4 && AllDigits(year)
    requires AllSpace(w1) && AllSpace(w2)
    requires EmbeddedAt(g1 + (w1 + ("/" + (w2 + (year + back)))), s, lo)
    ensures var a := lo + |g1|;
      var b := a + |w1|;
      var c := b + 1 + |w2|;
      && AllIs(Digit, s, lo, a) && AllIs(Space, s, a, b) && s[b] == '/'
      && AllIs(Space, s, b + 1, c) && AllIs(Digit, s, c, c + 4)
      && s[lo..a] == g1 && s[c..c + 4] == year && EmbeddedAt(back, s, c + 4)
  {
    var a := lo + |g1|;
    var b := a + |w1|;
    var c := b + 1 + |w2|;
    var t4 := year + back;
    var t3 := w2 + t4;
    var t2 := "/" + t3;
    var t1 := w1 + t2;
    EmbeddedConcat(g1, t1, s, lo);
    EmbeddedConcat(w1, t2, s, a);
    EmbeddedConcat("/", t3, s, b);
    EmbeddedConcat(w2, t4, s, b + 1);
    EmbeddedConcat(year, back, s, c);
    assert s[b] == "/"[0];
    AllIsEmbedded(Digit, g1, s, lo);
    AllIsEmbedded(Space, w1, s, a);
    AllIsEmbedded(Space, w2, s, b + 1);
    AllIsEmbedded(Digit, year, s, c);
    EmbeddedSlice(g1, s, lo);
    EmbeddedSlice(year, s, c);
  }

  /** The pieces after the year sit in the embedded text with the
      characters the pattern asks for there. */
  lemma AssembledBack(w3: string, w4: string, g3: string, w5: string, rest: string, s: string, lo: nat)
    requires 3 <= |g3| <= 4 && AllDigits(g3)
    requires AllSpace(w3) && AllSpace(w4)
    requires AllSpace(w5) && |w5| >= 1 && |rest| >= 1 && IsDigit(rest[0])
    requires EmbeddedAt(w3 + ("/" + (w4 + (g3 + (w5 + rest)))), s, lo)
    ensures var d := lo + |w3|;
      var f := d + 1 + |w4|;
      var g := f + |g3|;
      && AllIs(Space, s, lo, d) && s[d] == '/' && AllIs(Space, s, d + 1, f)
      && AllIs(Digit, s, f, g) && AllIs(Space, s, g, g + |w5|)
      && g + |w5| < |s| && IsDigit(s[g + |w5|]) && s[f..g] == g3
  {
    var d := lo + |w3|;
    var f := d + 1 + |w4|;
    var g := f + |g3|;
    var t9 := w5 + rest;
    var t8 := g3 + t9;
    var t7 := w4 + t8;
    var t6 := "/" + t7;
    EmbeddedConcat(w3, t6, s, lo);
    EmbeddedConcat("/", t7, s, d);
    EmbeddedConcat(w4, t8, s, d + 1);
    EmbeddedConcat(g3, t9, s, f);
    EmbeddedConcat(w5, rest, s, g);
    assert s[d] == "/"[0] && s[g + |w5|] == rest[0];
    AllIsEmbedded(Space, w3, s, lo);
    AllIsEmbedded(Space, w4, s, d + 1);
    AllIsEmbedded(Digit, g3, s, f);
    AllIsEmbedded(Space, w5, s, g);
    EmbeddedSlice(g3, s, f);
  }

  /** A match starts on a digit. */
  lemma NoMatchAtNonDigit(s: string, j: nat)
    requires j < |s| && !IsDigit(s[j])
    ensures MatchAt(s, j).None?
  {
    assert !Is(Digit, s[j]);
  }

  /** A fit preceded only by non-digits is the leftmost match. */
  lemma LeftmostAfterNonDigits(s: string, lo: nat, sp: Split)
    requires Fits(s, lo, sp) && forall k :: 0 <= k < lo ==> !IsDigit(s[k])
    ensures Search(s) == Some(MatchOf(s, lo, sp))
  {
    MatchAtComplete(s, lo, sp);
    forall j | 0 <= j < lo
      ensures MatchAt(s, j).None?
    {
      NoMatchAtNonDigit(s, j);
    }
    SearchIsLeftmost(s, lo);
  }

  /** A fit preceded only by non-digits decides the parse. */
  lemma ParseOfFit(s: string, lo: nat, sp: Split, g1: string, year: string, g3: string)
    requires Fits(s, lo, sp) && forall k :: 0 <= k < lo ==> !IsDigit(s[k])
    requires s[lo..sp.a] == g1 && s[sp.c..sp.c + 4] == year && s[sp.f..sp.g] == g3
    ensures ParseObjectNumber(Str(s)) == Some(ParsedObject(year, PrefixOf(g1, year, g3)))
  {
    LeftmostAfterNonDigits(s, lo, sp);
    ParseOfLeftmost(s, lo, sp);
  }

  /** The parse reads the groups of the leftmost match off the text. */
  lemma ParseOfLeftmost(s: string, lo: nat, sp: Split)
    requires Fits(s, lo, sp) && Search(s) == Some(MatchOf(s, lo, sp))
    ensures ParseObjectNumber(Str(s))
            == Some(ParsedObject(s[sp.c..sp.c + 4], PrefixOf(s[lo..sp.a], s[sp.c..sp.c + 4], s[sp.f..sp.g])))
  {
    MatchOfGroups(s, lo, sp);
    ParseOfSearch(s, MatchOf(s, lo, sp));
  }

  /** The parse of a text is made from the groups of its leftmost match. */
  lemma ParseOfSearch(s: string, m: ObjMatch)
    requires Search(s) == Some(m)
    ensures ParseObjectNumber(Str(s)) == Some(ParsedObject(m.year, PrefixOf(m.group, m.year, m.sequence)))
  {
  }

  /** The groups a split captures are the text between its boundaries. */
  lemma MatchOfGroups(s: string, i: nat, sp: Split)
    requires Bounded(s, i, sp)
    ensures var m := MatchOf(s, i, sp);
      m.group == s[i..sp.a] && m.year == s[sp.c..sp.c + 4] && m.sequence == s[sp.f..sp.g]
  {
  }

  /** Round trip: an inventory number written as `g1/year/g3 series`, with
      any spacing the pattern allows and after any text without digits, parses
      to `year` and the prefix `g1-year-g3-`. */
  lemma ParseOfAssembled(pre: string, g1: string, w1: string, w2: string, year: string,
                         w3: string, w4: string, g3: string, w5: string, rest: string)
    requires forall k :: 0 <= k < |pre| ==> !IsDigit(pre[k])
    requires |g1| >= 1 && AllDigits(g1) && |year| == 4 && AllDigits(year)
    requires 3 <= |g3| <= 4 && AllDigits(g3)
    requires AllSpace(w1) && AllSpace(w2) && AllSpace(w3) && AllSpace(w4)
    requires AllSpace(w5) && |w5| >= 1 && |rest| >= 1 && IsDigit(rest[0])
    ensures ParseObjectNumber(Str(pre + Assemble(g1, w1, w2, year, w3, w4, g3, w5, rest)))
            == Some(ParsedObject(year, PrefixOf(g1, year, g3)))
  {
    var s := pre + Assemble(g1, w1, w2, year, w3, w4, g3, w5, rest);
    var sp := AssembledSplit(pre, g1, w1, w2, year, w3, w4, g3, w5, rest);
    ParseOfFit(s, |pre|, sp, g1, year, g3);
  }

  /** Where the pieces of an assembled inventory number lie in the text. */
  lemma AssembledSplit(pre: string, g1: string, w1: string, w2: string, year: string,
                       w3: string, w4: string, g3: string, w5: string, rest: string) returns (sp: Split)
    requires forall k :: 0 <= k < |pre| ==> !IsDigit(pre[k])
    requires |g1| >= 1 && AllDigits(g1) && |year| == 4 && AllDigits(year)
    requires 3 <= |g3| <= 4 && AllDigits(g3)
    requires AllSpace(w1) && AllSpace(w2) && AllSpace(w3) && AllSpace(w4)
    requires AllSpace(w5) && |w5| >= 1 && |rest| >= 1 && IsDigit(rest[0])
    ensures var s := pre + Assemble(g1, w1, w2, year, w3, w4, g3, w5, rest);
      && Fits(s, |pre|, sp) && (forall k :: 0 <= k < |pre| ==> !IsDigit(s[k]))
      && s[|pre|..sp.a] == g1 && s[sp.c..sp.c + 4] == year && s[sp.f..sp.g] == g3
  {
    var x := Assemble(g1, w1, w2, year, w3, w4, g3, w5, rest);
    EmbeddedSuffix(pre, x);
    sp := AssembledFits(g1, w1, w2, year, w3, w4, g3, w5, rest, pre + x, |pre|);
  }

  /** The assembled pieces fit the pattern wherever they occur, with the
      split at the piece boundaries. */
  lemma AssembledFits(g1: string, w1: string, w2: string, year: string, w3: string,
                      w4: string, g3: string, w5: string, rest: string, s: string, lo: nat) returns (sp: Split)
    requires |g1| >= 1 && AllDigits(g1) && |year| == 4 && AllDigits(year)
    requires 3 <= |g3| <= 4 && AllDigits(g3)
    requires AllSpace(w1) && AllSpace(w2) && AllSpace(w3) && AllSpace(w4)
    requires AllSpace(w5) && |w5| >= 1 && |rest| >= 1 && IsDigit(rest[0])
    requires EmbeddedAt(Assemble(g1, w1, w2, year, w3, w4, g3, w5, rest), s, lo)
    ensures Fits(s, lo, sp)
    ensures s[lo..sp.a] == g1 && s[sp.c..sp.c + 4] == year && s[sp.f..sp.g] == g3
  {
    var back := w3 + ("/" + (w4 + (g3 + (w5 + rest))));
    AssembledFront(g1, w1, w2, year, back, s, lo);
    var a := lo + |g1|;
    var b := a + |w1|;
    var c := b + 1 + |w2|;
    AssembledBack(w3, w4, g3, w5, rest, s, c + 4);
    var d := c + 4 + |w3|;
    var f := d + 1 + |w4|;
    var g := f + |g3|;
    sp := Split(a, b, c, d, f, g, g + |w5|);
  }

  /** A text occurs at the end of itself with anything put before it. */
  lemma EmbeddedSuffix(pre: string, x: string)
    ensures EmbeddedAt(x, pre + x, |pre|)
    ensures forall k :: 0 <= k < |pre| ==> (pre + x)[k] == pre[k]
  {
  }
}

