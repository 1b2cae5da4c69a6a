/** The pure helpers of the catalogue generator (catalog_generator.py):
    removing parenthesised remarks from cell values, normalising a year,
    reading the `images` column of the linked table back, the metadata lines
    of the prompt, and looking up the metadata row of an object. */
module Catalog {
  import opened Strings
  import opened Parens

  /** A spreadsheet or CSV cell as pandas hands it over: Python's `None`, a
      float NaN (an empty cell), a string, or any other scalar, which is
      represented by the text `str()` gives for it. */
  datatype Value = NoneValue | NaNValue | TextValue(text: string) | OtherValue(shown: string)

  /** `str(v)`. */
  function Show(v: Value): string
  {
    match v
    case NoneValue => "None"
    case NaNValue => "nan"
    case TextValue(t) => t
    case OtherValue(t) => t
  }

  /** `strip_parens(val)`: `None` and blank values give `""`; otherwise the
      trimmed text with every parenthesised remark (and the whitespace in
      front of it) removed, trimmed again. The result has no surrounding
      whitespace and no `(` followed by `)`; text without `(` is only
      trimmed. */
  function StripParens(v: Value): (r: string)
    ensures v.NoneValue? || Trim(Show(v)) == "" ==> r == ""
    ensures Trim(r) == r
    ensures NoParenPair(r)
    ensures !v.NoneValue? && '(' !in Show(v) ==> r == Trim(Show(v))
  {
    if v.NoneValue? then ""
    else
      var s := Trim(Show(v));
      if s == "" then ""
      else
        var r := Trim(RemoveGroups(s));
        TrimIdempotent(RemoveGroups(s));
        TrimKeepsNoParenPair(RemoveGroups(s));
        StripChars(Space, Show(v));
        RemoveGroupsNoOpen(s);
        TrimIdempotent(Show(v));
        r
  }

  /** Cleaning a cleaned value changes nothing: `strip_parens` is
      idempotent. */
  lemma StripParensIdempotent(v: Value)
    ensures StripParens(TextValue(StripParens(v))) == StripParens(v)
  {
    var r := StripParens(v);
    if r != "" {
      RemoveGroupsIdentity(r);
    }
  }

  /** Text that is not blank is cleaned by removing the groups of its
      trimmed form and trimming again. */
  lemma StripParensOfText(t: string)
    requires Trim(t) != ""
    ensures StripParens(TextValue(t)) == Trim(RemoveGroups(Trim(t)))
  {
  }

  lemma RemarkRemoved(a: string, w: string, b: string)
    requires |a| > 0 && '(' !in a && !IsSpace(a[|a| - 1])
    requires AllSpace(w) && ')' !in b
    ensures RemoveGroups(a + (w + "(" + b + ")")) == a
  {
    var g := w + "(" + b + ")";
    RemoveGroupsDropsGroup(a, w, b, "");
    assert g + "" == g;
    assert RemoveGroups("") == "";
  }

  /** Text that starts with a non-space and ends with a remark is already
      trimmed. */
  lemma RemarkedIsTrimmed(a: string, w: string, b: string)
    requires |a| > 0 && !IsSpace(a[0])
    ensures Trim(a + w + "(" + b + ")") == a + w + "(" + b + ")"
  {
    var s := a + w + "(" + b + ")";
    assert s[0] == a[0] && s[|s| - 1] == ')';
    StripUnbounded(Space, s);
  }

  /** A remark in parentheses at the end of a value is removed together with
      the whitespace before it: `"Holz (Eiche)"` becomes `"Holz"`. */
  lemma StripParensDropsRemark(a: string, w: string, b: string)
    requires |a| > 0 && '(' !in a && !IsSpace(a[0]) && !IsSpace(a[|a| - 1])
    requires AllSpace(w) && ')' !in b
    ensures StripParens(TextValue(a + w + "(" + b + ")")) == a
  {
    var s := a + w + "(" + b + ")";
    RemarkedIsTrimmed(a, w, b);
    RemarkRemoved(a, w, b);
    assert a + (w + "(" + b + ")") == s;
    StripUnbounded(Space, a);
    StripParensOfText(s);
  }

  /** A four-digit run at `p` that `\b(\d{4})\b` matches: digits on
      `[p, p + 4)`, no word character directly before or after. */
  predicate YearAt(s: string, p: nat)
  {
    p + 4 <= |s| && AllDigits(s[p..p + 4]) &&
    (p == 0 || !IsWord(s[p - 1])) && (p + 4 == |s| || !IsWord(s[p + 4]))
  }

  /** The leftmost `q >= p` where a year stands, or `|s|` when there is
      none. */
  function FirstYear(s: string, p: nat): (q: nat)
    requires p <= |s|
    ensures p <= q <= |s|
    ensures q < |s| ==> YearAt(s, q)
    ensures forall j :: p <= j < q ==> !YearAt(s, j)
    ensures q == |s| ==> forall j :: p <= j ==> !YearAt(s, j)
    decreases |s| - p
  {
    if p == |s| then p
    else if YearAt(s, p) then p
    else FirstYear(s, p + 1)
  }

  /** The text `_norm_year` searches: `""` for `None`, else `str(y)`. */
  function YearText(y: Value): string
  {
    if y.NoneValue? then "" else Show(y)
  }

  /** `_norm_year(y)`: the first stand-alone four-digit number of `str(y)`,
      or `""` when there is none. */
  function NormYear(y: Value): (r: string)
    ensures y.NoneValue? ==> r == ""
    ensures r == "" <==> forall p: nat :: !YearAt(YearText(y), p)
    ensures r != "" ==>
      exists p: nat :: YearAt(YearText(y), p) && r == YearText(y)[p..p + 4] &&
        (forall j: nat :: j < p ==> !YearAt(YearText(y), j))
  {
    var s := YearText(y);
    var q := FirstYear(s, 0);
    if q < |s| then s[q..q + 4] else ""
  }

  /** A value that is a four-digit year normalises to itself. */
  lemma NormYearOfYear(y: string)
    requires |y| == 4 && AllDigits(y)
    ensures NormYear(TextValue(y)) == y
  {
    assert y[0..4] == y;
    assert YearAt(y, 0);
  }

  /** `_norm_year` is idempotent. */
  lemma NormYearIdempotent(v: Value)
    ensures NormYear(TextValue(NormYear(v))) == NormYear(v)
  {
    var r := NormYear(v);
    if r != "" {
      var s := YearText(v);
      var p: nat :| YearAt(s, p) && r == s[p..p + 4];
      NormYearOfYear(r);
    } else {
      assert !YearAt("", 0);
    }
  }

  /** The `images` cell of one linked row: a list object, or a scalar that
      is `None`, NaN, or text. */
  datatype Field = Scalar(v: Value) | ListOf(items: seq<Value>)

  /** The list comprehension `[p for p in parts if p]`. */
  function KeepNonEmpty(xs: seq<string>): (r: seq<string>)
    ensures |r| <= |xs|
    ensures forall k :: 0 <= k < |r| ==> r[k] != ""
  {
    if |xs| == 0 then []
    else (if xs[0] == "" then [] else [xs[0]]) + KeepNonEmpty(xs[1..])
  }

  /** The kept strings are exactly the non-empty ones of the input. */
  lemma {:induction false} KeepNonEmptyMembers(xs: seq<string>)
    ensures forall x :: x in KeepNonEmpty(xs) <==> x in xs && x != ""
  {
    if |xs| > 0 {
      KeepNonEmptyMembers(xs[1..]);
      assert forall x :: x in xs <==> x == xs[0] || x in xs[1..];
    }
  }

  /** The positions, from `from` on, of the non-empty strings of `xs`, in
      increasing order. */
  function NonEmptyIndices(xs: seq<string>, from: nat): (idx: seq<nat>)
    requires from <= |xs|
    ensures forall k :: 0 <= k < |idx| ==> from <= idx[k] < |xs| && xs[idx[k]] != ""
    ensures forall k, l :: 0 <= k < l < |idx| ==> idx[k] < idx[l]
    ensures forall i :: from <= i < |xs| && xs[i] != "" ==> i in idx
    decreases |xs| - from
  {
    if from == |xs| then []
    else
      var rest := NonEmptyIndices(xs, from + 1);
      if xs[from] != "" then [from] + rest else rest
  }

  lemma KeepNonEmptyStep(xs: seq<string>, from: nat)
    requires from < |xs|
    ensures KeepNonEmpty(xs[from..]) == (if xs[from] == "" then [] else [xs[from]]) + KeepNonEmpty(xs[from + 1..])
  {
    assert xs[from..][1..] == xs[from + 1..];
  }

  /** `r` lists the strings of `xs` at the positions `idx`. */
  predicate Aligned(r: seq<string>, idx: seq<nat>, xs: seq<string>)
  {
    |r| == |idx| && forall k :: 0 <= k < |idx| ==> idx[k] < |xs| && r[k] == xs[idx[k]]
  }

  lemma AlignedCons(r: seq<string>, idx: seq<nat>, xs: seq<string>, i: nat)
    requires Aligned(r, idx, xs) && i < |xs|
    ensures Aligned([xs[i]] + r, [i] + idx, xs)
  {
    var r', idx' := [xs[i]] + r, [i] + idx;
    forall k | 0 <= k < |idx'| ensures idx'[k] < |xs| && r'[k] == xs[idx'[k]] {
      if k > 0 {
        assert r'[k] == r[k - 1] && idx'[k] == idx[k - 1];
      }
    }
  }

  /** Filtering keeps the order: the kept strings are the non-empty ones, at
      increasing positions of the input. */
  lemma {:induction false} KeepNonEmptyInOrder(xs: seq<string>, from: nat)
    requires from <= |xs|
    ensures Aligned(KeepNonEmpty(xs[from..]), NonEmptyIndices(xs, from), xs)
    decreases |xs| - from
  {
    if from < |xs| {
      KeepNonEmptyInOrder(xs, from + 1);
      KeepNonEmptyStep(xs, from);
      if xs[from] != "" {
        AlignedCons(KeepNonEmpty(xs[from + 1..]), NonEmptyIndices(xs, from + 1), xs, from);
      } else {
        assert KeepNonEmpty(xs[from..]) == KeepNonEmpty(xs[from + 1..]);
      }
    } else {
      assert xs[from..] == [];
    }
  }

  /** Nothing to drop: a list without empty strings is kept as it is. */
  lemma {:induction false} KeepNonEmptyAll(xs: seq<string>)
    requires forall k :: 0 <= k < |xs| ==> xs[k] != ""
    ensures KeepNonEmpty(xs) == xs
  {
    if |xs| > 0 {
      KeepNonEmptyAll(xs[1..]);
    }
  }

  /** `str(x).strip()` of every item of a list. */
  function ShownItems(items: seq<Value>): (r: seq<string>)
    ensures |r| == |items|
    ensures forall k :: 0 <= k < |items| ==> r[k] == Trim(Show(items[k]))
  {
    seq(|items|, k requires 0 <= k < |items| => Trim(Show(items[k])))
  }

  /** `[str(x).strip() for x in items if str(x).strip()]`: a string is kept
      exactly when it is the non-empty stripped text of some item, and it is
      kept stripped. */
  function CleanList(items: seq<Value>): (r: seq<string>)
    ensures |r| <= |items|
    ensures forall k :: 0 <= k < |r| ==> r[k] != "" && Trim(r[k]) == r[k]
    ensures forall x :: x in r <==> exists k :: 0 <= k < |items| && x == Trim(Show(items[k])) && x != ""
  {
    var trimmed := ShownItems(items);
    var r := KeepNonEmpty(trimmed);
    KeepNonEmptyMembers(trimmed);
    forall x ensures x in r <==> exists k :: 0 <= k < |items| && x == Trim(Show(items[k])) && x != "" {
      if x in r {
        var j :| 0 <= j < |trimmed| && trimmed[j] == x;
      }
      if exists k :: 0 <= k < |items| && x == Trim(Show(items[k])) && x != "" {
        var j :| 0 <= j < |items| && x == Trim(Show(items[j])) && x != "";
        assert trimmed[j] == x;
      }
    }
    forall k | 0 <= k < |r| ensures Trim(r[k]) == r[k] {
      assert r[k] in r;
      var j :| 0 <= j < |items| && r[k] == Trim(Show(items[j])) && r[k] != "";
      TrimIdempotent(Show(items[j]));
    }
    r
  }

  /** The list keeps the item order: its elements are the non-empty
      stripped items, at increasing item positions, and every item whose
      stripped text is non-empty is among those positions. */
  lemma CleanListInOrder(items: seq<Value>)
    ensures var idx := NonEmptyIndices(ShownItems(items), 0);
      var r := CleanList(items);
      && |r| == |idx|
      && (forall k :: 0 <= k < |idx| ==> idx[k] < |items| && r[k] == Trim(Show(items[idx[k]])))
      && (forall k, l :: 0 <= k < l < |idx| ==> idx[k] < idx[l])
      && (forall i :: 0 <= i < |items| && Trim(Show(items[i])) != "" ==> i in idx)
  {
    var trimmed := ShownItems(items);
    KeepNonEmptyInOrder(trimmed, 0);
    assert trimmed[0..] == trimmed;
  }

  /** One comma-separated piece of the fallback: `t.strip().strip("'\"[]")`. */
  function CleanPiece(t: string): string
  {
    Strip(QuoteOrBracket, Trim(t))
  }

  /** What the fallback keeps of a piece: text that is not empty, holds no
      comma, and neither begins nor ends with a quote or a bracket. */
  predicate FallbackName(n: string)
  {
    n != "" && ',' !in n && !Is(QuoteOrBracket, n[0]) && !Is(QuoteOrBracket, n[|n| - 1])
  }

  lemma CleanPieceShape(t: string)
    requires ',' !in t && CleanPiece(t) != ""
    ensures FallbackName(CleanPiece(t))
  {
    StripChars(Space, t);
    StripChars(QuoteOrBracket, Trim(t));
  }

  /** Every comma-free piece, cleaned. */
  function CleanPieces(pieces: seq<string>): (r: seq<string>)
    requires forall k :: 0 <= k < |pieces| ==> ',' !in pieces[k]
    ensures |r| == |pieces|
    ensures forall k :: 0 <= k < |r| ==> r[k] == CleanPiece(pieces[k])
    ensures forall k :: 0 <= k < |r| ==> r[k] == "" || FallbackName(r[k])
  {
    forall k | 0 <= k < |pieces| && CleanPiece(pieces[k]) != "" ensures FallbackName(CleanPiece(pieces[k])) {
      CleanPieceShape(pieces[k]);
    }
    seq(|pieces|, k requires 0 <= k < |pieces| => CleanPiece(pieces[k]))
  }

  /** The comma-split fallback of `_parse_images_field`: split at every
      comma, clean every piece, drop the empty ones. No element is empty,
      holds a comma, or begins or ends with a quote or a bracket, and there
      is at most one element more than there are commas. */
  function SplitFallback(s: string): (r: seq<string>)
    ensures |r| <= Count(s, ',') + 1
    ensures forall k :: 0 <= k < |r| ==> FallbackName(r[k])
  {
    var cleaned := CleanPieces(Split(s, ','));
    var r := KeepNonEmpty(cleaned);
    KeepNonEmptyMembers(cleaned);
    forall k | 0 <= k < |r| ensures FallbackName(r[k]) {
      assert r[k] in cleaned;
    }
    r
  }

  /** The fallback keeps the comma order: its elements are the cleaned
      pieces that are not empty, taken at increasing positions. */
  lemma SplitFallbackInOrder(s: string)
    ensures var pieces := Split(s, ',');
      var idx := NonEmptyIndices(CleanPieces(pieces), 0);
      var r := SplitFallback(s);
      |r| == |idx| && forall k :: 0 <= k < |idx| ==> r[k] == CleanPiece(pieces[idx[k]])
  {
    var cleaned := CleanPieces(Split(s, ','));
    KeepNonEmptyInOrder(cleaned, 0);
    assert cleaned[0..] == cleaned;
  }

  /** `_parse_images_field(field)`, with `ast.literal_eval` as the parameter
      `eval`: `eval(s)` is the list the literal denotes, or `None` when
      evaluation raises or yields something other than a list. `None`, NaN
      and blank text give no names, and no name is ever empty. */
  function ParseImagesField(f: Field, eval: string -> Option<seq<Value>>): (r: seq<string>)
    ensures forall k :: 0 <= k < |r| ==> r[k] != ""
    ensures f == Scalar(NoneValue) || f == Scalar(NaNValue) ==> r == []
    ensures f.Scalar? && Trim(Show(f.v)) == "" ==> r == []
    ensures f.ListOf? ==> forall k :: 0 <= k < |r| ==> Trim(r[k]) == r[k]
  {
    match f
    case ListOf(items) => CleanList(items)
    case Scalar(v) =>
      if v.NoneValue? || v.NaNValue? then []
      else
        var s := Trim(Show(v));
        if s == "" then []
        else if StartsWith(s, "[") && EndsWith(s, "]") && eval(s).Some? then CleanList(eval(s).value)
        else SplitFallback(s)
  }

  /** A file name Python's `repr` writes between single quotes unchanged,
      and that reads back unchanged: printable ASCII without quote,
      backslash or comma, not starting or ending with whitespace, a quote or
      a bracket. */
  predicate PlainName(n: string)
  {
    n != "" &&
    (forall k :: 0 <= k < |n| ==> 32 <= n[k] as int < 127 && n[k] != '\'' && n[k] != '\\' && n[k] != ',') &&
    !IsSpace(n[0]) && !IsSpace(n[|n| - 1]) &&
    !Is(QuoteOrBracket, n[0]) && !Is(QuoteOrBracket, n[|n| - 1])
  }

  function Quoted(names: seq<string>): (r: seq<string>)
    ensures |r| == |names|
  {
    seq(|names|, k requires 0 <= k < |names| => "'" + names[k] + "'")
  }

  /** `str(names)` for a list of plain names: what `to_csv` writes into the
      `images` column of the linked table. */
  function ListRepr(names: seq<string>): string
  {
    "[" + Join(Quoted(names), ", ") + "]"
  }

  /** The comma-separated pieces of `ListRepr`, the first led by `lead`.
      Only the count is stated here: `ReprAsPieces` shows that joining the
      pieces with `,` gives the list's text back, and `CleanQuoted` that
      cleaning a piece gives its name. */
  function ReprPieces(names: seq<string>, lead: string): (r: seq<string>)
    requires |names| > 0
    ensures |r| == |names|
    decreases |names|
  {
    if |names| == 1 then [lead + "'" + names[0] + "']"]
    else [lead + "'" + names[0] + "'"] + ReprPieces(names[1..], " ")
  }

  lemma {:induction false} ReprAsPieces(names: seq<string>, lead: string)
    requires |names| > 0
    ensures lead + Join(Quoted(names), ", ") + "]" == Join(ReprPieces(names, lead), ",")
    decreases |names|
  {
    if |names| > 1 {
      ReprAsPieces(names[1..], " ");
      QuotedJoinCons(names);
      var q := "'" + names[0] + "'";
      var j := Join(Quoted(names[1..]), ", ");
      assert lead + (q + ", " + j) + "]" == (lead + q) + "," + (" " + j + "]");
    }
  }

  /** The quoted names joined by `", "` are the first one quoted, then
      `", "`, then the rest joined. */
  lemma QuotedJoinCons(names: seq<string>)
    requires |names| > 1
    ensures Join(Quoted(names), ", ") == "'" + names[0] + "'" + ", " + Join(Quoted(names[1..]), ", ")
  {
    assert Quoted(names)[1..] == Quoted(names[1..]);
  }

  lemma CleanQuoted(lead: string, n: string, tail: string)
    requires lead == "[" || lead == " "
    requires tail == "'" || tail == "']"
    requires PlainName(n)
    ensures CleanPiece(lead + "'" + n + tail) == n
  {
    var u := "'" + n + tail;
    var t := lead + "'" + n + tail;
    if lead == "[" {
      assert t[0] == '[' && t[|t| - 1] == tail[|tail| - 1];
      StripUnbounded(Space, t);
      assert t == "['" + n + tail;
      StripOfPadded(QuoteOrBracket, "['", n, tail);
    } else {
      assert t == " " + u + "";
      assert u[0] == '\'' && u[|u| - 1] == tail[|tail| - 1];
      StripOfPadded(Space, " ", u, "");
      assert u == "'" + n + tail;
      StripOfPadded(QuoteOrBracket, "'", n, tail);
    }
  }

  lemma {:induction false} ReprPiecesNoComma(names: seq<string>, lead: string)
    requires |names| > 0 && ',' !in lead
    requires forall k :: 0 <= k < |names| ==> ',' !in names[k]
    ensures forall k :: 0 <= k < |names| ==> ',' !in ReprPieces(names, lead)[k]
    decreases |names|
  {
    if |names| > 1 {
      ReprPiecesNoComma(names[1..], " ");
      assert ReprPieces(names, lead)[1..] == ReprPieces(names[1..], " ");
    }
  }

  lemma {:induction false} CleanReprPieces(names: seq<string>, lead: string)
    requires |names| > 0 && (lead == "[" || lead == " ")
    requires forall k :: 0 <= k < |names| ==> PlainName(names[k])
    ensures forall k :: 0 <= k < |names| ==> CleanPiece(ReprPieces(names, lead)[k]) == names[k]
    decreases |names|
  {
    var p := ReprPieces(names, lead);
    if |names| == 1 {
      CleanQuoted(lead, names[0], "']");
    } else {
      CleanQuoted(lead, names[0], "'");
      CleanReprPieces(names[1..], " ");
      assert p[1..] == ReprPieces(names[1..], " ");
      forall k | 1 <= k < |names| ensures CleanPiece(p[k]) == names[k] {
        assert p[k] == p[1..][k - 1];
      }
    }
  }

  /** Reading back what the linker writes: the comma-split fallback turns
      `str(names)` into `names` again, so the images survive the round trip
      through the linked table even when `literal_eval` is unavailable. */
  lemma SplitFallbackReadsListRepr(names: seq<string>)
    requires forall k :: 0 <= k < |names| ==> PlainName(names[k])
    ensures SplitFallback(ListRepr(names)) == names
  {
    if |names| == 0 {
      assert ListRepr(names) == "[]";
      assert IndexOf("[]", ',') == 2;
      assert "[]" == "[]" + "" + "";
      StripUnbounded(Space, "[]");
      StripOfPadded(QuoteOrBracket, "[]", "", "");
    } else {
      ReprAsPieces(names, "[");
      var p := ReprPieces(names, "[");
      forall k | 0 <= k < |names| ensures ',' !in names[k] {
        assert PlainName(names[k]);
      }
      ReprPiecesNoComma(names, "[");
      CleanReprPieces(names, "[");
      SplitJoin(p, ',');
      assert Split(ListRepr(names), ',') == p;
      assert CleanPieces(p) == names;
      KeepNonEmptyAll(names);
    }
  }

  /** `str(names)` is bracketed and has no surrounding whitespace. */
  lemma ListReprBracketed(names: seq<string>)
    ensures var s := ListRepr(names); Trim(s) == s && s != "" && StartsWith(s, "[") && EndsWith(s, "]")
  {
    var s := ListRepr(names);
    assert s[0] == '[' && s[|s| - 1] == ']';
    StripUnbounded(Space, s);
  }

  /** A bracketed text with no surrounding whitespace is read as the list
      `eval` gives for it, or by the fallback when `eval` gives none. */
  lemma ParseBracketedText(s: string, eval: string -> Option<seq<Value>>)
    requires Trim(s) == s && s != "" && StartsWith(s, "[") && EndsWith(s, "]")
    ensures ParseImagesField(Scalar(TextValue(s)), eval) ==
      if eval(s).Some? then CleanList(eval(s).value) else SplitFallback(s)
  {
  }

  /** A list of plain names, as text values, is cleaned to itself. */
  lemma CleanListOfNames(names: seq<string>)
    requires forall k :: 0 <= k < |names| ==> PlainName(names[k])
    ensures CleanList(seq(|names|, k requires 0 <= k < |names| => TextValue(names[k]))) == names
  {
    var items := seq(|names|, k requires 0 <= k < |names| => TextValue(names[k]));
    var trimmed := ShownItems(items);
    forall k | 0 <= k < |names| ensures trimmed[k] == names[k] {
      StripUnbounded(Space, names[k]);
    }
    assert trimmed == names;
    KeepNonEmptyAll(names);
  }

  /** The whole of `_parse_images_field` on a linked row's `images` text:
      whether `literal_eval` yields the list or fails, the names come
      back. */
  lemma ParseImagesFieldReadsListRepr(names: seq<string>, eval: string -> Option<seq<Value>>)
    requires forall k :: 0 <= k < |names| ==> PlainName(names[k])
    requires eval(ListRepr(names)).None? ||
      eval(ListRepr(names)) == Some(seq(|names|, k requires 0 <= k < |names| => TextValue(names[k])))
    ensures ParseImagesField(Scalar(TextValue(ListRepr(names))), eval) == names
  {
    ListReprBracketed(names);
    ParseBracketedText(ListRepr(names), eval);
    if eval(ListRepr(names)).None? {
      SplitFallbackReadsListRepr(names);
    } else {
      CleanListOfNames(names);
    }
  }

  /** The prompt considers the columns `t1` to `t14`, in this order. */
  const NumTCols: nat := 14

  /** `f"t{i + 1}"`: the name of the prompt's `i`-th column, counting from 0. */
  function TCol(i: nat): string
    requires i < NumTCols
  {
    var n := i + 1;
    "t" + (if n < 10 then [('0' as int + n) as char] else ['1', ('0' as int + n - 10) as char])
  }

  /** The display name of every column. */
  const Labels: map<string, string> := map[
    "t1" := "Inventar-Nr", "t2" := "Hersteller", "t3" := "Materialien", "t4" := "Ma\U{00DF}e",
    "t5" := "Beschreibung (Excel)", "t6" := "Kategorie", "t7" := "Bezeichnung",
    "t8" := "Standort / Depot", "t9" := "Provenienz", "t10" := "Zustand", "t11" := "Signatur",
    "t12" := "Inventarnr. (alt)", "t13" := "Bildangabe (Excel)", "t14" := "Datierung / Jahr"]

  /** The line shown when no column qualifies. */
  const NoMetadataLine: string := "- (keine Metadaten gefunden)"

  /** `LABELS.get(tcol, tcol.upper())`. */
  function Label(key: string): string
  {
    if key in Labels then Labels[key] else Upper(key)
  }

  /** Every column the prompt considers has a display name, so the
      upper-cased fallback label is never used. */
  lemma EveryColumnHasLabel()
    ensures forall i :: 0 <= i < NumTCols ==> TCol(i) in Labels && Label(TCol(i)) == Labels[TCol(i)]
  {
    forall i | 0 <= i < NumTCols ensures TCol(i) in Labels {
      if i == 0 { assert TCol(i) == "t1"; }
      else if i == 1 { assert TCol(i) == "t2"; }
      else if i == 2 { assert TCol(i) == "t3"; }
      else if i == 3 { assert TCol(i) == "t4"; }
      else if i == 4 { assert TCol(i) == "t5"; }
      else if i == 5 { assert TCol(i) == "t6"; }
      else if i == 6 { assert TCol(i) == "t7"; }
      else if i == 7 { assert TCol(i) == "t8"; }
      else if i == 8 { assert TCol(i) == "t9"; }
      else if i == 9 { assert TCol(i) == "t10"; }
      else if i == 10 { assert TCol(i) == "t11"; }
      else if i == 11 { assert TCol(i) == "t12"; }
      else if i == 12 { assert TCol(i) == "t13"; }
      else { assert TCol(i) == "t14"; }
    }
  }

  /** `f"- {label} [{tcol.upper()}]: {val}"`. */
  function MetaLine(key: string, val: string): string
  {
    "- " + Label(key) + " [" + Upper(key) + "]: " + val
  }

  /** One metadata row, as the dict `to_dict()` gives (column to value). */
  type MetaRecord = map<string, Value>

  /** The row with every value cleaned by `strip_parens`. */
  function CleanCells(row: MetaRecord): (cells: map<string, string>)
    ensures cells.Keys == row.Keys
  {
    map key | key in row :: StripParens(row[key])
  }

  /** Column `i` gives a line: it is present and its cleaned value is not
      empty. */
  predicate Qualifies(cells: map<string, string>, i: nat)
    requires i < NumTCols
  {
    TCol(i) in cells && cells[TCol(i)] != ""
  }

  function LineOf(cells: map<string, string>, i: nat): string
    requires i < NumTCols && TCol(i) in cells
  {
    MetaLine(TCol(i), cells[TCol(i)])
  }

  /** The lines the loop of `build_prompt_from_tcols` appends for the columns
      from `i` on. */
  function MetaLinesFrom(cells: map<string, string>, i: nat): (lines: seq<string>)
    requires i <= NumTCols
    ensures |lines| <= NumTCols - i
    decreases NumTCols - i
  {
    if i == NumTCols then []
    else
      var rest := MetaLinesFrom(cells, i + 1);
      if Qualifies(cells, i) then [LineOf(cells, i)] + rest else rest
  }

  /** The column positions, from `i` on, that give a line: increasing, and
      exactly the qualifying ones. */
  function QualifyingColumns(cells: map<string, string>, i: nat): (idx: seq<nat>)
    requires i <= NumTCols
    ensures forall k :: 0 <= k < |idx| ==> i <= idx[k] < NumTCols && Qualifies(cells, idx[k])
    ensures forall k, l :: 0 <= k < l < |idx| ==> idx[k] < idx[l]
    ensures forall j :: i <= j < NumTCols && Qualifies(cells, j) ==> j in idx
    decreases NumTCols - i
  {
    if i == NumTCols then []
    else
      var rest := QualifyingColumns(cells, i + 1);
      if Qualifies(cells, i) then [i] + rest else rest
  }

  /** No column from `i` on gives a line exactly when none qualifies. */
  lemma NoQualifyingColumns(cells: map<string, string>, i: nat)
    requires i <= NumTCols
    ensures QualifyingColumns(cells, i) == [] <==> forall j :: i <= j < NumTCols ==> !Qualifies(cells, j)
  {
    var idx := QualifyingColumns(cells, i);
    if idx != [] {
      assert Qualifies(cells, idx[0]);
    }
  }

  /** The lines come in column order, one for each qualifying column. */
  lemma {:induction false} MetaLinesInOrder(cells: map<string, string>, i: nat)
    requires i <= NumTCols
    ensures var idx := QualifyingColumns(cells, i); var lines := MetaLinesFrom(cells, i);
      |lines| == |idx| && forall k :: 0 <= k < |idx| ==> lines[k] == LineOf(cells, idx[k])
    decreases NumTCols - i
  {
    if i < NumTCols {
      MetaLinesInOrder(cells, i + 1);
      var idx, lines := QualifyingColumns(cells, i + 1), MetaLinesFrom(cells, i + 1);
      if Qualifies(cells, i) {
        assert QualifyingColumns(cells, i) == [i] + idx;
        assert MetaLinesFrom(cells, i) == [LineOf(cells, i)] + lines;
      } else {
        assert QualifyingColumns(cells, i) == idx;
        assert MetaLinesFrom(cells, i) == lines;
      }
    }
  }

  /** The metadata lines of `build_prompt_from_tcols`, given the row's
      cleaned cells: one line per column that is present with a non-empty
      cleaned value, in column order, and none exactly when no column
      qualifies. */
  function MetaLines(cells: map<string, string>): (lines: seq<string>)
    ensures var idx := QualifyingColumns(cells, 0);
      |lines| == |idx| && forall k :: 0 <= k < |idx| ==> lines[k] == LineOf(cells, idx[k])
    ensures lines == [] <==> forall i :: 0 <= i < NumTCols ==> !Qualifies(cells, i)
  {
    MetaLinesInOrder(cells, 0);
    NoQualifyingColumns(cells, 0);
    MetaLinesFrom(cells, 0)
  }

  /** The metadata block of the prompt, given the cleaned cells: the lines
      joined by newlines, or the placeholder line. */
  function MetaBlock(cells: map<string, string>): string
  {
    var lines := MetaLines(cells);
    if lines == [] then NoMetadataLine else Join(lines, "\n")
  }

  /** The metadata part of `build_prompt_from_tcols(meta_row)`. */
  function PromptMetadata(row: MetaRecord): string
  {
    MetaBlock(CleanCells(row))
  }

  /** Cleaning a value only removes characters. */
  lemma StripParensChars(v: Value)
    ensures forall c :: c in StripParens(v) ==> c in Show(v)
  {
    if !v.NoneValue? && Trim(Show(v)) != "" {
      StripChars(Space, Show(v));
      StripChars(Space, RemoveGroups(Trim(Show(v))));
    }
  }

  /** No display name holds a line break. */
  lemma LabelsNoNewline()
    ensures forall key :: key in Labels ==> '\n' !in Labels[key]
  {
    var names := {"Inventar-Nr", "Hersteller", "Materialien", "Ma\U{00DF}e", "Beschreibung (Excel)",
                  "Kategorie", "Bezeichnung", "Standort / Depot", "Provenienz", "Zustand", "Signatur",
                  "Inventarnr. (alt)", "Bildangabe (Excel)", "Datierung / Jahr"};
    forall key | key in Labels ensures '\n' !in Labels[key] {
      assert Labels[key] in names;
    }
  }

  lemma UpperNoNewline(key: string)
    requires '\n' !in key
    ensures '\n' !in Upper(key)
  {
    assert forall k :: 0 <= k < |key| ==> Upper(key)[k] == UpperChar(key[k]);
  }

  lemma LabelNoNewline(key: string)
    requires '\n' !in key
    ensures '\n' !in Label(key) && '\n' !in Upper(key)
  {
    LabelsNoNewline();
    UpperNoNewline(key);
  }

  /** A metadata line has no line break when its value has none. */
  lemma MetaLineNoNewline(key: string, val: string)
    requires '\n' !in key && '\n' !in val
    ensures '\n' !in MetaLine(key, val)
  {
    LabelNoNewline(key);
    var l := Label(key);
    var u := Upper(key);
    assert MetaLine(key, val) == "- " + l + " [" + u + "]: " + val;
  }

  /** Cleaning introduces no line break. */
  lemma CleanCellsNoNewline(row: MetaRecord)
    requires forall key :: key in row ==> '\n' !in Show(row[key])
    ensures forall key :: key in CleanCells(row) ==> '\n' !in CleanCells(row)[key]
  {
    forall key | key in CleanCells(row) ensures '\n' !in CleanCells(row)[key] {
      StripParensChars(row[key]);
    }
  }

  lemma LineOfNoNewline(cells: map<string, string>, i: nat)
    requires i < NumTCols && TCol(i) in cells
    requires forall key :: key in cells ==> '\n' !in cells[key]
    ensures '\n' !in LineOf(cells, i)
  {
    var key := TCol(i);
    assert key[0] == 't' && forall j :: 1 <= j < |key| ==> IsDigit(key[j]);
    MetaLineNoNewline(key, cells[key]);
  }

  /** When no cell holds a line break, the metadata block has exactly one
      line per qualifying column, or the single placeholder line. */
  lemma MetaBlockLines(cells: map<string, string>)
    requires forall key :: key in cells ==> '\n' !in cells[key]
    ensures var lines := MetaLines(cells);
      Split(MetaBlock(cells), '\n') == if lines == [] then [NoMetadataLine] else lines
  {
    var lines := MetaLines(cells);
    if lines == [] {
      assert '\n' !in NoMetadataLine;
      SplitJoin([NoMetadataLine], '\n');
    } else {
      var idx := QualifyingColumns(cells, 0);
      forall k | 0 <= k < |lines| ensures '\n' !in lines[k] {
        LineOfNoNewline(cells, idx[k]);
      }
      SplitJoin(lines, '\n');
    }
  }

  /** The metadata table as the generator loads it: the column names, and
      the rows, each a dict over exactly those columns. */
  datatype MetaTable = MetaTable(columns: seq<string>, rows: seq<MetaRecord>)

  ghost predicate ValidTable(t: MetaTable)
  {
    forall k :: 0 <= k < |t.rows| ==> forall c :: c in t.rows[k] <==> c in t.columns
  }

  /** `DataFrame.empty`: no rows or no columns. */
  predicate EmptyTable(t: MetaTable)
  {
    |t.rows| == 0 || |t.columns| == 0
  }

  /** Row `k`'s `t1`, as text and trimmed, equals `left`. */
  predicate RowHasId(t: MetaTable, k: nat, left: string)
    requires ValidTable(t) && "t1" in t.columns && k < |t.rows|
  {
    Trim(Show(t.rows[k]["t1"])) == left
  }

  /** The first row, from `k` on, whose `t1` matches `left`, or the number
      of rows when none does. */
  function FirstHit(t: MetaTable, left: string, k: nat): (h: nat)
    requires ValidTable(t) && "t1" in t.columns && k <= |t.rows|
    ensures k <= h <= |t.rows|
    ensures h < |t.rows| ==> RowHasId(t, h, left)
    ensures forall j :: k <= j < h ==> !RowHasId(t, j, left)
    decreases |t.rows| - k
  {
    if k == |t.rows| then k
    else if RowHasId(t, k, left) then k
    else FirstHit(t, left, k + 1)
  }

  /** `CatalogGenerator._meta_for_obj(obj_id_raw)`: the first row whose
      trimmed `t1` equals the trimmed identifier; `{"t1": obj_id_raw}` when
      the table is empty, has no `t1` column, or no row matches. */
  function MetaForObj(t: MetaTable, objIdRaw: string): (r: MetaRecord)
    requires ValidTable(t)
    ensures EmptyTable(t) || "t1" !in t.columns ==> r == map["t1" := TextValue(objIdRaw)]
    ensures !EmptyTable(t) && "t1" in t.columns ==>
      (exists k :: 0 <= k < |t.rows| && RowHasId(t, k, Trim(objIdRaw)) && r == t.rows[k] &&
         forall j :: 0 <= j < k ==> !RowHasId(t, j, Trim(objIdRaw))) ||
      ((forall k :: 0 <= k < |t.rows| ==> !RowHasId(t, k, Trim(objIdRaw))) && r == map["t1" := TextValue(objIdRaw)])
  {
    if EmptyTable(t) || "t1" !in t.columns then map["t1" := TextValue(objIdRaw)]
    else
      var h := FirstHit(t, Trim(objIdRaw), 0);
      if h < |t.rows| then t.rows[h] else map["t1" := TextValue(objIdRaw)]
  }

  /** A found row carries the identifier in its `t1` cell, and surrounding
      whitespace of the identifier does not change which row is found. */
  lemma MetaForObjFound(t: MetaTable, objIdRaw: string, k: nat)
    requires ValidTable(t) && !EmptyTable(t) && "t1" in t.columns
    requires k < |t.rows| && RowHasId(t, k, Trim(objIdRaw))
    ensures "t1" in MetaForObj(t, objIdRaw)
    ensures Trim(Show(MetaForObj(t, objIdRaw)["t1"])) == Trim(objIdRaw)
    ensures MetaForObj(t, Trim(objIdRaw)) == MetaForObj(t, objIdRaw)
  {
    TrimIdempotent(objIdRaw);
    var h := FirstHit(t, Trim(objIdRaw), 0);
    assert h <= k;
  }

  lemma CleanCellsOfId(objIdRaw: string)
    ensures CleanCells(map["t1" := TextValue(objIdRaw)]) == map["t1" := StripParens(TextValue(objIdRaw))]
  {
  }

  lemma SingleCellColumns(v: string)
    ensures QualifyingColumns(map["t1" := v], 0) == if v == "" then [] else [0]
  {
    var cells := map["t1" := v];
    assert TCol(0) == "t1";
    forall i | 1 <= i < NumTCols ensures TCol(i) !in cells {
      var t := TCol(i);
      assert |t| == 3 || t[1] != '1';
    }
    var idx := QualifyingColumns(cells, 0);
    if v != "" {
      assert Qualifies(cells, 0);
      assert 0 in idx;
    }
  }

  lemma InventoryLine(v: string)
    ensures MetaLine("t1", v) == "- Inventar-Nr [T1]: " + v
  {
    assert Upper("t1") == "T1";
    assert Label("t1") == "Inventar-Nr";
  }

  /** The block for a row holding only `t1`. */
  lemma SingleCellBlock(v: string)
    ensures MetaBlock(map["t1" := v]) == if v == "" then NoMetadataLine else "- Inventar-Nr [T1]: " + v
  {
    var cells := map["t1" := v];
    SingleCellColumns(v);
    var lines := MetaLines(cells);
    if v != "" {
      assert TCol(0) == "t1";
      assert lines[0] == LineOf(cells, 0) == MetaLine("t1", v);
      InventoryLine(v);
      assert lines == [lines[0]];
    }
  }

  /** Without metadata the prompt still shows the identifier, cleaned, as
      the inventory number; a blank identifier gives the placeholder. */
  lemma FallbackPrompt(objIdRaw: string)
    ensures var v := StripParens(TextValue(objIdRaw));
      PromptMetadata(map["t1" := TextValue(objIdRaw)]) ==
        if v == "" then NoMetadataLine else "- Inventar-Nr [T1]: " + v
  {
    CleanCellsOfId(objIdRaw);
    SingleCellBlock(StripParens(TextValue(objIdRaw)));
  }
}
