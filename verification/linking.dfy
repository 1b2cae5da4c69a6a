/** `build_links_like_group` (linking.py): every distinct inventory number
    of the spreadsheet rows is parsed into a year folder and a file-name
    prefix, each `(year, prefix)` key is looked up once in its year folder,
    and the outcome is either a linked row listing the matching images or a
    miss saying why there is none.

    The spreadsheet is a sequence of `MetaRow`s (the `obj_id_raw` and
    `_source_file` columns the loader produces), the image tree a
    `FileSystem` value.

    The loop itself (`Step`, `Run`) is stated over the identifiers paired
    with their parse results and over an `Env` holding the two lookups it
    makes (the source files of a key and the directory search). Its
    properties hold for any such inputs; `BuildLinksLikeGroup` plugs in
    `ParseObjectNumber`, `src_map` and `find_matching_files_in_year`. */
module Linking {
  import opened Strings
  import opened Seqs
  import opened LexOrder
  import opened Paths
  import opened ObjectNumber
  import opened YearDirectory

  /** One spreadsheet row: the inventory cell and the workbook it came
      from. */
  datatype MetaRow = MetaRow(objIdRaw: Cell, sourceFile: string)

  /** The grouping key `(year, base_prefix.lower())`. */
  datatype Key = Key(year: string, prefix: string)

  function KeyOf(p: ParsedObject): Key
  {
    Key(p.year, Lower(p.basePrefix))
  }

  /** The key a cell parses to, if any. */
  function ParsedKey(c: Cell): Option<Key>
  {
    match ParseObjectNumber(c)
    case None => None
    case Some(p) => Some(KeyOf(p))
  }

  /* ---------------- the identifier series ---------------- */

  /** `.map(lambda x: x.strip() if isinstance(x, str) else x)`. */
  function CleanCell(c: Cell): Cell
  {
    match c
    case Str(s) => Str(Trim(s))
    case _ => c
  }

  /** The rows whose inventory cell is present, in increasing order, and
      all of them. */
  function PresentRows(meta: seq<MetaRow>): (idx: seq<nat>)
    ensures forall k :: 0 <= k < |idx| ==> idx[k] < |meta| && !meta[idx[k]].objIdRaw.Missing?
    ensures forall k, l :: 0 <= k < l < |idx| ==> idx[k] < idx[l]
    ensures forall i :: 0 <= i < |meta| && !meta[i].objIdRaw.Missing? ==> i in idx
  {
    if meta == [] then []
    else
      var front := meta[..|meta| - 1];
      var rest := PresentRows(front);
      assert forall i :: 0 <= i < |front| ==> front[i] == meta[i];
      if meta[|meta| - 1].objIdRaw.Missing? then rest else rest + [|meta| - 1]
  }

  /** `meta["obj_id_raw"].dropna()` with the strip applied: the present
      cells, trimmed, in row order. */
  function PresentCells(meta: seq<MetaRow>): (r: seq<Cell>)
    ensures forall k :: 0 <= k < |r| ==> !r[k].Missing?
    ensures forall c :: c in r <==>
      exists i :: 0 <= i < |meta| && !meta[i].objIdRaw.Missing? && CleanCell(meta[i].objIdRaw) == c
  {
    if meta == [] then []
    else
      var front := meta[..|meta| - 1];
      var last := meta[|meta| - 1];
      var rest := PresentCells(front);
      assert forall i :: 0 <= i < |front| ==> front[i] == meta[i];
      if last.objIdRaw.Missing? then rest else rest + [CleanCell(last.objIdRaw)]
  }

  /** The present cells are those of the present rows, cleaned, one each and
      in row order. */
  lemma {:induction false} PresentCellsInRowOrder(meta: seq<MetaRow>)
    ensures |PresentCells(meta)| == |PresentRows(meta)|
    ensures forall k :: 0 <= k < |PresentCells(meta)| ==>
      PresentCells(meta)[k] == CleanCell(meta[PresentRows(meta)[k]].objIdRaw)
  {
    if meta != [] {
      var front := meta[..|meta| - 1];
      PresentCellsInRowOrder(front);
      assert forall i :: 0 <= i < |front| ==> front[i] == meta[i];
    }
  }

  /** The `series` the loop walks: present cells, trimmed, duplicates
      dropped keeping the first. */
  function Series(meta: seq<MetaRow>): (r: seq<Cell>)
    ensures NoDup(r)
    ensures forall k :: 0 <= k < |r| ==> !r[k].Missing?
    ensures forall c :: c in r <==> c in PresentCells(meta)
    ensures forall i, j :: 0 <= i < j < |r| ==>
      FirstIndex(PresentCells(meta), r[i]) < FirstIndex(PresentCells(meta), r[j])
  {
    var present := PresentCells(meta);
    var r := Dedup(present);
    forall k | 0 <= k < |r| ensures !r[k].Missing? {
      assert r[k] in present;
    }
    r
  }

  /** Trimming a cell does not change the key it parses to. */
  lemma ParsedKeyOfClean(c: Cell)
    ensures ParsedKey(CleanCell(c)) == ParsedKey(c)
  {
    if c.Str? {
      ParseIgnoresSurroundingSpace(c.s);
    }
  }

  /* ---------------- `src_map` ---------------- */

  /** A spreadsheet row reduced to what `src_map` records of it: the key
      its cell parses to and its workbook. */
  datatype Tagged = Tagged(key: Option<Key>, sourceFile: string)

  function Tags(meta: seq<MetaRow>): (r: seq<Tagged>)
    ensures |r| == |meta|
    ensures forall i :: 0 <= i < |meta| ==>
      r[i] == Tagged(ParsedKey(meta[i].objIdRaw), meta[i].sourceFile)
  {
    seq(|meta|, i requires 0 <= i < |meta| => Tagged(ParsedKey(meta[i].objIdRaw), meta[i].sourceFile))
  }

  /** The workbooks recorded for `key`, in row order, repeats included. */
  function SourcesFor(tags: seq<Tagged>, key: Key): (r: seq<string>)
    ensures forall f :: f in r <==> Tagged(Some(key), f) in tags
  {
    if tags == [] then []
    else
      var front := tags[..|tags| - 1];
      var last := tags[|tags| - 1];
      assert tags == front + [last];
      var rest := SourcesFor(front, key);
      if last.key == Some(key) then rest + [last.sourceFile] else rest
  }

  /** `sorted(src_map.get(key, set()))`: the distinct workbooks of `key`,
      ascending. */
  function SourceList(tags: seq<Tagged>, key: Key): (r: seq<string>)
    ensures Sorted(r) && NoDup(r)
    ensures forall f :: f in r <==> Tagged(Some(key), f) in tags
  {
    var d := Dedup(SourcesFor(tags, key));
    var r := Sort(d);
    NoDupPermutation(d, r);
    assert forall f :: f in r <==> f in d by {
      forall f ensures f in r <==> f in d {
        assert f in r <==> f in multiset(r);
        assert f in d <==> f in multiset(d);
      }
    }
    r
  }

  /** The workbooks listed for a key are exactly those of the rows whose
      inventory cell parses to it. */
  lemma SourceListOfMeta(meta: seq<MetaRow>, key: Key, f: string)
    ensures f in SourceList(Tags(meta), key) <==>
      exists i :: 0 <= i < |meta| && ParsedKey(meta[i].objIdRaw) == Some(key) && meta[i].sourceFile == f
  {
    var tags := Tags(meta);
    if Tagged(Some(key), f) in tags {
      var i :| 0 <= i < |tags| && tags[i] == Tagged(Some(key), f);
      assert ParsedKey(meta[i].objIdRaw) == Some(key) && meta[i].sourceFile == f;
    }
    if exists i :: 0 <= i < |meta| && ParsedKey(meta[i].objIdRaw) == Some(key) && meta[i].sourceFile == f {
      var i :| 0 <= i < |meta| && ParsedKey(meta[i].objIdRaw) == Some(key) && meta[i].sourceFile == f;
      assert tags[i] == Tagged(Some(key), f);
    }
  }

  /* ---------------- outcomes ---------------- */

  /** One linked row: the representative identifier, the year, the prefix,
      the image names, their number, and the comma-joined workbooks. */
  datatype LinkedRow = LinkedRow(objIdRaw: Cell, year: string, basePrefix: string,
                                 images: seq<string>, imageCount: nat, sourceFiles: string)

  /** One entry of the misses log. */
  datatype Miss =
    | PatternMiss(objIdRaw: Cell)
    | NoFilesMiss(objIdRaw: Cell, year: string, basePrefix: string)

  /** The `reason` column of the misses log. */
  function Reason(m: Miss): string
  {
    match m
    case PatternMiss(_) => "Keine Objektnummer im Format 'g1/yyyy/g3 g4' gefunden"
    case NoFilesMiss(_, year, prefix) => "Keine Dateien in " + year + "/ mit Pr\U{00E4}fix '" + prefix + "'"
  }

  /** The `reason` column tells the two kinds of miss apart: only the one
      for missing files ends with a quote. */
  lemma ReasonTellsKind(m1: Miss, m2: Miss)
    ensures Reason(m1) == Reason(m2) ==> (m1.PatternMiss? <==> m2.PatternMiss?)
  {
    ReasonEnd(m1);
    ReasonEnd(m2);
  }

  lemma ReasonEnd(m: Miss)
    ensures |Reason(m)| > 0 && (Reason(m)[|Reason(m)| - 1] == '\'' <==> m.NoFilesMiss?)
  {
  }

  function RowKey(r: LinkedRow): Key
  {
    Key(r.year, Lower(r.basePrefix))
  }

  /* ---------------- the loop ---------------- */

  /** An identifier of the series with what `parse_object_number` made of
      it. */
  datatype Item = Item(raw: Cell, parsed: Option<ParsedObject>)

  function ItemKey(it: Item): Option<Key>
  {
    match it.parsed
    case None => None
    case Some(p) => Some(KeyOf(p))
  }

  function Keys(items: seq<Item>): (r: seq<Option<Key>>)
    ensures |r| == |items|
    ensures forall i :: 0 <= i < |items| ==> r[i] == ItemKey(items[i])
  {
    seq(|items|, i requires 0 <= i < |items| => ItemKey(items[i]))
  }

  /** The two lookups the loop makes: the workbooks of a key and the files
      of a `(year, base_prefix)` pair. */
  datatype Env = Env(sources: Key -> seq<string>, find: (string, string) -> seq<string>)

  /** The loop's state: `seen_prefixes`, `rows` and `misses`. */
  datatype State = State(seen: set<Key>, rows: seq<LinkedRow>, misses: seq<Miss>)

  /** One iteration of the loop over the series. It only appends, at most
      one row or miss, and marks the identifier's key as seen. */
  function Step(env: Env, st: State, it: Item): (r: State)
    ensures st.rows <= r.rows && st.misses <= r.misses
    ensures |r.rows| + |r.misses| <= |st.rows| + |st.misses| + 1
    ensures r.seen == st.seen + (if it.parsed.Some? then {KeyOf(it.parsed.value)} else {})
  {
    match it.parsed
    case None => st.(misses := st.misses + [PatternMiss(it.raw)])
    case Some(p) =>
      var key := KeyOf(p);
      if key in st.seen then st
      else
        var matches := env.find(p.year, p.basePrefix);
        if matches == [] then
          State(st.seen + {key}, st.rows, st.misses + [NoFilesMiss(it.raw, p.year, p.basePrefix)])
        else
          var row := LinkedRow(it.raw, p.year, p.basePrefix, Basenames(matches), |matches|,
                               Join(env.sources(key), ", "));
          State(st.seen + {key}, st.rows + [row], st.misses)
  }

  /** The loop run over `items`, from an empty state. */
  function Run(env: Env, items: seq<Item>): State
  {
    if items == [] then State({}, [], [])
    else Step(env, Run(env, items[..|items| - 1]), items[|items| - 1])
  }

  lemma RunSnoc(env: Env, items: seq<Item>, it: Item)
    ensures Run(env, items + [it]) == Step(env, Run(env, items), it)
  {
    assert (items + [it])[..|items|] == items;
  }

  /** The outcome of a prefix of the series is kept by the rest of the loop:
      rows, misses and seen keys only grow. */
  lemma {:induction false} RunExtends(env: Env, items: seq<Item>, n: nat)
    requires n <= |items|
    ensures var a := Run(env, items[..n]); var b := Run(env, items);
      a.rows <= b.rows && a.misses <= b.misses && a.seen <= b.seen
    decreases |items|
  {
    if n < |items| {
      var front := items[..|items| - 1];
      assert items[..n] == front[..n];
      RunExtends(env, front, n);
    } else {
      assert items[..n] == items;
    }
  }

  /** Each identifier gives at most one row or miss. */
  lemma {:induction false} RunSize(env: Env, items: seq<Item>)
    ensures |Run(env, items).rows| + |Run(env, items).misses| <= |items|
  {
    if items != [] {
      RunSize(env, items[..|items| - 1]);
    }
  }

  lemma KeysSnoc(items: seq<Item>, it: Item)
    ensures Keys(items + [it]) == Keys(items) + [ItemKey(it)]
  {
  }

  /** `seen_prefixes` ends up holding exactly the keys of the identifiers
      that parse. */
  lemma {:induction false} RunSeen(env: Env, items: seq<Item>)
    ensures forall k :: k in Run(env, items).seen <==> Some(k) in Keys(items)
  {
    if items != [] {
      var front := items[..|items| - 1];
      var last := items[|items| - 1];
      assert items == front + [last];
      RunSeen(env, front);
      RunSnoc(env, front, last);
      KeysSnoc(front, last);
    }
  }

  /* ---------------- what the loop produces ---------------- */

  function RowKeys(rows: seq<LinkedRow>): (r: seq<Key>)
    ensures |r| == |rows|
    ensures forall a :: 0 <= a < |rows| ==> r[a] == RowKey(rows[a])
  {
    seq(|rows|, a requires 0 <= a < |rows| => RowKey(rows[a]))
  }

  /** The keys of the "no files" misses, in log order. */
  function MissKeys(misses: seq<Miss>): (r: seq<Key>)
    ensures forall k :: k in r <==>
      exists m :: m in misses && m.NoFilesMiss? && Key(m.year, Lower(m.basePrefix)) == k
  {
    if misses == [] then []
    else
      var front := misses[..|misses| - 1];
      var m := misses[|misses| - 1];
      assert misses == front + [m];
      var rest := MissKeys(front);
      if m.NoFilesMiss? then rest + [Key(m.year, Lower(m.basePrefix))] else rest
  }

  lemma MissKeysSnoc(misses: seq<Miss>, m: Miss)
    ensures MissKeys(misses + [m]) ==
      if m.NoFilesMiss? then MissKeys(misses) + [Key(m.year, Lower(m.basePrefix))] else MissKeys(misses)
  {
    assert (misses + [m])[..|misses|] == misses;
  }

  /** The keys that got an outcome: linked rows first, then "no files"
      misses. */
  function OutcomeKeys(st: State): seq<Key>
  {
    RowKeys(st.rows) + MissKeys(st.misses)
  }

  /** Every seen key has exactly one outcome, and only seen keys have one. */
  ghost predicate Tidy(st: State)
  {
    NoDup(OutcomeKeys(st)) && forall k :: k in OutcomeKeys(st) <==> k in st.seen
  }

  lemma StepTidy(env: Env, st: State, it: Item)
    ensures Tidy(st) ==> Tidy(Step(env, st, it))
  {
    var st' := Step(env, st, it);
    if Tidy(st) && it.parsed.Some? && KeyOf(it.parsed.value) !in st.seen {
      var p := it.parsed.value;
      var key := KeyOf(p);
      var rk, mk := RowKeys(st.rows), MissKeys(st.misses);
      NoDupConcat(rk, mk);
      NoDupConcat([key], []);
      if env.find(p.year, p.basePrefix) == [] {
        MissKeysSnoc(st.misses, NoFilesMiss(it.raw, p.year, p.basePrefix));
        assert OutcomeKeys(st') == OutcomeKeys(st) + [key];
        NoDupConcat(OutcomeKeys(st), [key]);
      } else {
        var row := st'.rows[|st'.rows| - 1];
        assert st'.rows == st.rows + [row];
        assert RowKeys(st'.rows) == rk + [key];
        NoDupConcat(rk, [key]);
        NoDupConcat(rk + [key], mk);
      }
    } else if Tidy(st) && it.parsed.None? {
      MissKeysSnoc(st.misses, PatternMiss(it.raw));
    }
  }

  /** After the loop every key of an identifier that parses has exactly one
      outcome, a linked row or a "no files" miss. */
  lemma {:induction false} RunTidy(env: Env, items: seq<Item>)
    ensures Tidy(Run(env, items))
  {
    if items != [] {
      var front := items[..|items| - 1];
      var last := items[|items| - 1];
      RunTidy(env, front);
      StepTidy(env, Run(env, front), last);
    }
  }

  /* ---------------- where each outcome comes from ---------------- */

  /** Position of the first identifier with the key of a linked row. */
  function RowIndex(items: seq<Item>, r: LinkedRow): nat
  {
    FirstIndex(Keys(items), Some(RowKey(r)))
  }

  /** A linked row stands for the first identifier with its key, lists the
      base names of the files found for it (at least one), counts them, and
      joins the workbooks of its key. */
  predicate RowFrom(env: Env, items: seq<Item>, r: LinkedRow)
  {
    var n := RowIndex(items, r);
    n < |items| && items[n] == Item(r.objIdRaw, Some(ParsedObject(r.year, r.basePrefix))) &&
    r.images == Basenames(env.find(r.year, r.basePrefix)) && r.images != [] &&
    r.imageCount == |r.images| && r.sourceFiles == Join(env.sources(RowKey(r)), ", ")
  }

  /** A "no pattern" miss logs an identifier that does not parse; a "no
      files" miss stands for the first identifier with its key, for which
      the search found nothing. */
  predicate MissFrom(env: Env, items: seq<Item>, m: Miss)
  {
    match m
    case PatternMiss(raw) => Item(raw, None) in items
    case NoFilesMiss(raw, year, prefix) =>
      var n := FirstIndex(Keys(items), Some(Key(year, Lower(prefix))));
      n < |items| && items[n] == Item(raw, Some(ParsedObject(year, prefix))) && env.find(year, prefix) == []
  }

  predicate Accounted(env: Env, items: seq<Item>, st: State)
  {
    (forall a :: 0 <= a < |st.rows| ==> RowFrom(env, items, st.rows[a])) &&
    (forall a, b :: 0 <= a < b < |st.rows| ==> RowIndex(items, st.rows[a]) < RowIndex(items, st.rows[b])) &&
    (forall m :: m in st.misses ==> MissFrom(env, items, m))
  }

  /** A key already among the identifiers keeps its first position when
      one more identifier follows. */
  lemma FirstIndexKept(items: seq<Item>, it: Item, k: Key)
    requires FirstIndex(Keys(items), Some(k)) < |items|
    ensures FirstIndex(Keys(items + [it]), Some(k)) == FirstIndex(Keys(items), Some(k))
  {
    KeysSnoc(items, it);
    FirstIndexSnoc(Keys(items), ItemKey(it), Some(k));
  }

  lemma AccountedGrows(env: Env, items: seq<Item>, st: State, it: Item)
    requires Accounted(env, items, st)
    ensures Accounted(env, items + [it], st)
  {
    var items' := items + [it];
    forall a | 0 <= a < |st.rows| ensures RowFrom(env, items', st.rows[a]) && RowIndex(items', st.rows[a]) == RowIndex(items, st.rows[a]) {
      FirstIndexKept(items, it, RowKey(st.rows[a]));
    }
    forall m | m in st.misses ensures MissFrom(env, items', m) {
      if m.NoFilesMiss? {
        FirstIndexKept(items, it, Key(m.year, Lower(m.basePrefix)));
      }
    }
  }

  /** One more miss that is accounted for keeps the outcome accounted for. */
  lemma AccountedAddMiss(env: Env, items: seq<Item>, st: State, st': State, m: Miss)
    requires Accounted(env, items, st) && MissFrom(env, items, m)
    requires st'.rows == st.rows && st'.misses == st.misses + [m]
    ensures Accounted(env, items, st')
  {
  }

  /** One more row that is accounted for, and comes after the earlier rows,
      keeps the outcome accounted for. */
  lemma AccountedAddRow(env: Env, items: seq<Item>, st: State, st': State, row: LinkedRow)
    requires Accounted(env, items, st) && RowFrom(env, items, row)
    requires forall a :: 0 <= a < |st.rows| ==> RowIndex(items, st.rows[a]) < RowIndex(items, row)
    requires st'.rows == st.rows + [row] && st'.misses == st.misses
    ensures Accounted(env, items, st')
  {
  }

  lemma StepAccounted(env: Env, items: seq<Item>, st: State, it: Item)
    requires Accounted(env, items, st)
    requires forall k :: k in st.seen <==> Some(k) in Keys(items)
    ensures Accounted(env, items + [it], Step(env, st, it))
  {
    var items' := items + [it];
    AccountedGrows(env, items, st, it);
    var st' := Step(env, st, it);
    if it.parsed.None? {
      assert it == Item(it.raw, None) && it in items';
      AccountedAddMiss(env, items', st, st', PatternMiss(it.raw));
    } else if KeyOf(it.parsed.value) !in st.seen {
      var p := it.parsed.value;
      var key := KeyOf(p);
      KeysSnoc(items, it);
      FirstIndexSnoc(Keys(items), ItemKey(it), Some(key));
      assert FirstIndex(Keys(items'), Some(key)) == |items|;
      assert items'[|items|] == Item(it.raw, Some(ParsedObject(p.year, p.basePrefix)));
      if env.find(p.year, p.basePrefix) == [] {
        AccountedAddMiss(env, items', st, st', NoFilesMiss(it.raw, p.year, p.basePrefix));
      } else {
        var row := st'.rows[|st'.rows| - 1];
        assert st'.rows == st.rows + [row];
        assert RowFrom(env, items', row);
        forall a | 0 <= a < |st.rows| ensures RowIndex(items', st.rows[a]) < |items| {
          FirstIndexKept(items, it, RowKey(st.rows[a]));
        }
        AccountedAddRow(env, items', st, st', row);
      }
    }
  }

  /** `StepAccounted` for the last identifier of a non-empty series. */
  lemma StepAccountedLast(env: Env, items: seq<Item>, st: State)
    requires items != []
    requires Accounted(env, items[..|items| - 1], st)
    requires forall k :: k in st.seen <==> Some(k) in Keys(items[..|items| - 1])
    ensures Accounted(env, items, Step(env, st, items[|items| - 1]))
  {
    var front := items[..|items| - 1];
    assert items == front + [items[|items| - 1]];
    StepAccounted(env, front, st, items[|items| - 1]);
  }

  /** Every linked row and every miss is accounted for by the identifiers,
      and the linked rows follow the order in which their keys first
      occur. */
  lemma {:induction false} RunAccounted(env: Env, items: seq<Item>)
    ensures Accounted(env, items, Run(env, items))
  {
    if items != [] {
      var front := items[..|items| - 1];
      var last := items[|items| - 1];
      RunAccounted(env, front);
      RunSeen(env, front);
      StepAccountedLast(env, items, Run(env, front));
    }
  }

  /** The identifiers of the "no pattern" misses, in log order. */
  function PatternRaws(misses: seq<Miss>): seq<Cell>
  {
    if misses == [] then []
    else
      var front := misses[..|misses| - 1];
      var m := misses[|misses| - 1];
      if m.PatternMiss? then PatternRaws(front) + [m.objIdRaw] else PatternRaws(front)
  }

  /** The identifiers that do not parse, in series order. */
  function UnparsedRaws(items: seq<Item>): seq<Cell>
  {
    if items == [] then []
    else
      var front := items[..|items| - 1];
      var it := items[|items| - 1];
      if it.parsed.None? then UnparsedRaws(front) + [it.raw] else UnparsedRaws(front)
  }

  /** Every identifier that does not parse is logged as a "no pattern"
      miss, once per occurrence and in order, and no other identifier is. */
  lemma {:induction false} RunPatternMisses(env: Env, items: seq<Item>)
    ensures PatternRaws(Run(env, items).misses) == UnparsedRaws(items)
  {
    if items != [] {
      var front := items[..|items| - 1];
      var last := items[|items| - 1];
      RunPatternMisses(env, front);
      StepPatternMisses(env, Run(env, front), last);
    }
  }

  /** One iteration logs a "no pattern" miss exactly for an identifier that
      does not parse. */
  lemma StepPatternMisses(env: Env, st: State, it: Item)
    ensures PatternRaws(Step(env, st, it).misses) == PatternRaws(st.misses) + (if it.parsed.None? then [it.raw] else [])
  {
    var ms := st.misses;
    var ms' := Step(env, st, it).misses;
    if ms' != ms {
      var m := ms'[|ms'| - 1];
      assert ms' == ms + [m];
      assert ms'[..|ms|] == ms;
    }
  }

  /** For the first identifier with a given key, the key ends up with a
      linked row exactly when the search finds files for that identifier,
      and with a "no files" miss exactly when it finds none. */
  lemma RunDecides(env: Env, items: seq<Item>, i: nat)
    requires i < |items| && items[i].parsed.Some?
    requires FirstIndex(Keys(items), ItemKey(items[i])) == i
    ensures var p := items[i].parsed.value;
            var st := Run(env, items);
            (KeyOf(p) in RowKeys(st.rows) <==> env.find(p.year, p.basePrefix) != []) &&
            (KeyOf(p) in MissKeys(st.misses) <==> env.find(p.year, p.basePrefix) == [])
  {
    var p := items[i].parsed.value;
    var key := KeyOf(p);
    var st := Run(env, items);
    RunSeen(env, items);
    RunTidy(env, items);
    RunAccounted(env, items);
    NoDupConcat(RowKeys(st.rows), MissKeys(st.misses));
    assert Keys(items)[i] == Some(key);
    assert key in st.seen;
    if key in RowKeys(st.rows) {
      var a :| 0 <= a < |st.rows| && RowKeys(st.rows)[a] == key;
      var r := st.rows[a];
      assert RowFrom(env, items, r);
      assert p == ParsedObject(r.year, r.basePrefix);
      assert |Basenames(env.find(r.year, r.basePrefix))| == |env.find(r.year, r.basePrefix)|;
    } else {
      assert key in MissKeys(st.misses);
      var m :| m in st.misses && m.NoFilesMiss? && Key(m.year, Lower(m.basePrefix)) == key;
      assert MissFrom(env, items, m);
      assert p == ParsedObject(m.year, m.basePrefix);
    }
  }

  lemma UnparsedRawsMembers(items: seq<Item>, c: Cell)
    ensures c in UnparsedRaws(items) <==> Item(c, None) in items
  {
    if items != [] {
      var front := items[..|items| - 1];
      assert items == front + [items[|items| - 1]];
      UnparsedRawsMembers(front, c);
    }
  }

  /* ---------------- the concrete run ---------------- */

  /** The series paired with what `parse_object_number` makes of each
      identifier. */
  function Items(series: seq<Cell>): (r: seq<Item>)
    ensures |r| == |series|
    ensures forall i :: 0 <= i < |series| ==> r[i] == Item(series[i], ParseObjectNumber(series[i]))
  {
    seq(|series|, i requires 0 <= i < |series| => Item(series[i], ParseObjectNumber(series[i])))
  }

  /** `src_map` and `find_matching_files_in_year` as the loop's lookups. */
  function LinkEnv(meta: seq<MetaRow>, fs: FileSystem, imagesRoot: string): Env
  {
    Env(key => SourceList(Tags(meta), key),
        (year, basePrefix) => FindMatchingFilesInYear(fs, imagesRoot, year, basePrefix))
  }

  /** The loop's final state for a non-empty spreadsheet. */
  function LinkRun(meta: seq<MetaRow>, fs: FileSystem, imagesRoot: string): State
  {
    Run(LinkEnv(meta, fs, imagesRoot), Items(Series(meta)))
  }

  const LinkColumns: seq<string> :=
    ["obj_id_raw", "year", "base_prefix", "images", "image_count", "_source_files"]

  /** The returned table (its column names and rows) and the misses log. */
  datatype Links = Links(columns: seq<string>, rows: seq<LinkedRow>, misses: seq<Miss>)

  /** `build_links_like_group`. An empty spreadsheet gives the six column
      names and nothing else; otherwise the table is built from the rows,
      so it has no columns at all when no row was linked. Keys of linked
      rows are distinct and every row lists at least one image. */
  function BuildLinksLikeGroup(meta: seq<MetaRow>, fs: FileSystem, imagesRoot: string): (r: Links)
    ensures |meta| == 0 ==> r == Links(LinkColumns, [], [])
    ensures |meta| > 0 ==> (r.columns == [] <==> r.rows == []) && (r.columns != [] ==> r.columns == LinkColumns)
    ensures NoDup(RowKeys(r.rows))
    ensures forall a :: 0 <= a < |r.rows| ==> r.rows[a].imageCount == |r.rows[a].images| > 0
  {
    if |meta| == 0 then Links(LinkColumns, [], [])
    else
      var st := LinkRun(meta, fs, imagesRoot);
      RunTidy(LinkEnv(meta, fs, imagesRoot), Items(Series(meta)));
      RunAccounted(LinkEnv(meta, fs, imagesRoot), Items(Series(meta)));
      NoDupConcat(RowKeys(st.rows), MissKeys(st.misses));
      Links(if st.rows == [] then [] else LinkColumns, st.rows, st.misses)
  }

  /** A linked row carries an identifier of the series together with what
      that identifier parses to. */
  lemma LinkedRowParses(meta: seq<MetaRow>, fs: FileSystem, imagesRoot: string, a: nat)
    requires a < |BuildLinksLikeGroup(meta, fs, imagesRoot).rows|
    ensures var r := BuildLinksLikeGroup(meta, fs, imagesRoot).rows[a];
            r.objIdRaw in Series(meta) &&
            ParseObjectNumber(r.objIdRaw) == Some(ParsedObject(r.year, r.basePrefix))
  {
    var env := LinkEnv(meta, fs, imagesRoot);
    var series := Series(meta);
    var items := Items(series);
    RunAccounted(env, items);
    var r := LinkRun(meta, fs, imagesRoot).rows[a];
    assert RowFrom(env, items, r);
    var n := RowIndex(items, r);
    assert items[n] == Item(series[n], ParseObjectNumber(series[n]));
  }

  /** Every directory of the image tree lists well-formed names: non-empty
      and without `/`. The proofs do not need them to be distinct. */
  ghost predicate ValidTree(fs: FileSystem)
  {
    forall d :: d in fs ==> ValidListing(fs[d])
  }

  /** The images of a linked row are the names in its year folder that
      qualify for its prefix, ascending; in particular the folder exists. */
  lemma LinkedRowImages(meta: seq<MetaRow>, fs: FileSystem, imagesRoot: string, a: nat)
    requires ValidTree(fs)
    requires a < |BuildLinksLikeGroup(meta, fs, imagesRoot).rows|
    ensures var r := BuildLinksLikeGroup(meta, fs, imagesRoot).rows[a];
            var d := JoinPath(imagesRoot, r.year);
            d in fs && r.images == Sort(QualifyingNames(fs[d], r.basePrefix))
  {
    var env := LinkEnv(meta, fs, imagesRoot);
    var items := Items(Series(meta));
    RunAccounted(env, items);
    var r := LinkRun(meta, fs, imagesRoot).rows[a];
    assert RowFrom(env, items, r);
    LinkedRowParses(meta, fs, imagesRoot, a);
    ParsedShape(r.objIdRaw);
    MatchedBasenames(fs, imagesRoot, r.year, r.basePrefix);
  }

  /** The workbooks of a linked row are those of the rows whose inventory
      cell parses to its key, sorted and distinct, and there is at least
      one. */
  lemma LinkedRowSources(meta: seq<MetaRow>, fs: FileSystem, imagesRoot: string, a: nat)
    requires a < |BuildLinksLikeGroup(meta, fs, imagesRoot).rows|
    ensures var r := BuildLinksLikeGroup(meta, fs, imagesRoot).rows[a];
            var sources := SourceList(Tags(meta), RowKey(r));
            r.sourceFiles == Join(sources, ", ") && sources != []
  {
    var env := LinkEnv(meta, fs, imagesRoot);
    var items := Items(Series(meta));
    RunAccounted(env, items);
    var r := LinkRun(meta, fs, imagesRoot).rows[a];
    assert RowFrom(env, items, r);
    LinkedRowParses(meta, fs, imagesRoot, a);
    var raw := r.objIdRaw;
    assert raw in PresentCells(meta);
    var i :| 0 <= i < |meta| && !meta[i].objIdRaw.Missing? && CleanCell(meta[i].objIdRaw) == raw;
    ParsedKeyOfClean(meta[i].objIdRaw);
    assert ParsedKey(meta[i].objIdRaw) == Some(RowKey(r));
    SourceListOfMeta(meta, RowKey(r), meta[i].sourceFile);
  }

  /** A "no files" miss carries an identifier of the series, what it parses
      to, and an empty search result for that year and prefix. */
  lemma NoFilesMissOfBuild(meta: seq<MetaRow>, fs: FileSystem, imagesRoot: string, m: Miss)
    requires m in BuildLinksLikeGroup(meta, fs, imagesRoot).misses && m.NoFilesMiss?
    ensures m.objIdRaw in Series(meta)
    ensures ParseObjectNumber(m.objIdRaw) == Some(ParsedObject(m.year, m.basePrefix))
    ensures FindMatchingFilesInYear(fs, imagesRoot, m.year, m.basePrefix) == []
  {
    var env := LinkEnv(meta, fs, imagesRoot);
    var series := Series(meta);
    var items := Items(series);
    RunAccounted(env, items);
    assert MissFrom(env, items, m);
    var n := FirstIndex(Keys(items), Some(Key(m.year, Lower(m.basePrefix))));
    assert items[n] == Item(series[n], ParseObjectNumber(series[n]));
  }

  /** The "no pattern" misses are the identifiers of the series that do
      not parse, in series order. */
  lemma PatternMissesOfBuild(meta: seq<MetaRow>, fs: FileSystem, imagesRoot: string, c: Cell)
    requires |meta| > 0
    ensures var misses := BuildLinksLikeGroup(meta, fs, imagesRoot).misses;
            PatternRaws(misses) == UnparsedRaws(Items(Series(meta))) &&
            (c in PatternRaws(misses) <==> c in Series(meta) && ParseObjectNumber(c).None?)
  {
    var series := Series(meta);
    var items := Items(series);
    RunPatternMisses(LinkEnv(meta, fs, imagesRoot), items);
    UnparsedRawsMembers(items, c);
    if Item(c, None) in items {
      var i :| 0 <= i < |items| && items[i] == Item(c, None);
      assert series[i] == c;
    }
    if c in series && ParseObjectNumber(c).None? {
      var i :| 0 <= i < |series| && series[i] == c;
      assert items[i] == Item(c, None);
    }
  }

  /** The keys with an outcome are exactly the keys of the identifiers that
      parse, and no key has both a linked row and a "no files" miss. */
  lemma BuildCoversKeys(meta: seq<MetaRow>, fs: FileSystem, imagesRoot: string, key: Key)
    requires |meta| > 0
    ensures var links := BuildLinksLikeGroup(meta, fs, imagesRoot);
            (key in RowKeys(links.rows) || key in MissKeys(links.misses) <==>
               exists i :: 0 <= i < |Series(meta)| && ParsedKey(Series(meta)[i]) == Some(key)) &&
            !(key in RowKeys(links.rows) && key in MissKeys(links.misses))
  {
    var series := Series(meta);
    RunCoversKeys(LinkEnv(meta, fs, imagesRoot), Items(series), key);
    KeysOfItems(series, key);
  }

  /** Each key of the identifiers gets exactly one outcome, and no other key
      gets one. */
  lemma RunCoversKeys(env: Env, items: seq<Item>, key: Key)
    ensures var st := Run(env, items);
            (key in RowKeys(st.rows) || key in MissKeys(st.misses) <==> Some(key) in Keys(items)) &&
            !(key in RowKeys(st.rows) && key in MissKeys(st.misses))
  {
    var st := Run(env, items);
    RunSeen(env, items);
    RunTidy(env, items);
    NoDupConcat(RowKeys(st.rows), MissKeys(st.misses));
  }

  lemma KeysOfItems(series: seq<Cell>, key: Key)
    ensures Some(key) in Keys(Items(series)) <==>
      exists i :: 0 <= i < |series| && ParsedKey(series[i]) == Some(key)
  {
    var keys := Keys(Items(series));
    forall i | 0 <= i < |series| ensures keys[i] == ParsedKey(series[i]) {
      ItemKeyOfParse(series[i]);
    }
  }

  lemma ItemKeyOfParse(c: Cell)
    ensures ItemKey(Item(c, ParseObjectNumber(c))) == ParsedKey(c)
  {
  }

  /** Two identifiers with the same key parse alike: the prefix the parser
      builds is already lower case. */
  lemma SameKeySameParse(c: Cell, d: Cell)
    requires ParseObjectNumber(c).Some? && ParseObjectNumber(d).Some?
    requires ParsedKey(c) == ParsedKey(d)
    ensures ParseObjectNumber(c) == ParseObjectNumber(d)
  {
    ParsedShape(c);
    ParsedShape(d);
  }

  /** When identifiers with equal keys parse alike, the outcome of any of
      them is decided by the search for its own year and prefix. */
  lemma RunDecidesAny(env: Env, items: seq<Item>, i: nat)
    requires i < |items| && items[i].parsed.Some?
    requires forall j :: 0 <= j < |items| && ItemKey(items[j]) == ItemKey(items[i]) ==>
      items[j].parsed == items[i].parsed
    ensures var p := items[i].parsed.value;
            var st := Run(env, items);
            (KeyOf(p) in RowKeys(st.rows) <==> env.find(p.year, p.basePrefix) != []) &&
            (KeyOf(p) in MissKeys(st.misses) <==> env.find(p.year, p.basePrefix) == [])
  {
    var keys := Keys(items);
    var n := FirstIndex(keys, keys[i]);
    assert keys[n] == keys[i];
    RunDecides(env, items, n);
  }

  /** Whether an identifier's key ends up linked or logged as "no files" is
      decided by the search for its year and prefix, whichever identifier
      of the series with that key came first. */
  lemma BuildDecides(meta: seq<MetaRow>, fs: FileSystem, imagesRoot: string, c: Cell)
    requires |meta| > 0 && c in Series(meta) && ParseObjectNumber(c).Some?
    ensures var p := ParseObjectNumber(c).value;
            var links := BuildLinksLikeGroup(meta, fs, imagesRoot);
            var found := FindMatchingFilesInYear(fs, imagesRoot, p.year, p.basePrefix);
            (KeyOf(p) in RowKeys(links.rows) <==> found != []) &&
            (KeyOf(p) in MissKeys(links.misses) <==> found == [])
  {
    var series := Series(meta);
    var items := Items(series);
    var i :| 0 <= i < |series| && series[i] == c;
    forall j | 0 <= j < |items| && ItemKey(items[j]) == ItemKey(items[i])
      ensures items[j].parsed == items[i].parsed
    {
      if items[j].parsed.Some? {
        SameKeySameParse(series[j], c);
      }
    }
    RunDecidesAny(LinkEnv(meta, fs, imagesRoot), items, i);
  }

  /* ---------------- the procedure ---------------- */

  /** What `src_map` holds for a key so far, repeats included. */
  function Recorded(src: map<Key, seq<string>>, key: Key): seq<string>
  {
    if key in src then src[key] else []
  }

  lemma SourcesForSnoc(tags: seq<Tagged>, i: nat, key: Key)
    requires i < |tags|
    ensures SourcesFor(tags[..i + 1], key) ==
      if tags[i].key == Some(key) then SourcesFor(tags[..i], key) + [tags[i].sourceFile]
      else SourcesFor(tags[..i], key)
  {
    assert tags[..i + 1][..i] == tags[..i];
  }

  /** Recording one more tagged row keeps `src_map` in step with the rows
      read so far. */
  lemma RecordStep(tags: seq<Tagged>, i: nat, src: map<Key, seq<string>>, src': map<Key, seq<string>>)
    requires i < |tags|
    requires forall k :: Recorded(src, k) == SourcesFor(tags[..i], k)
    requires src' == match tags[i].key
                     case None => src
                     case Some(key) => src[key := Recorded(src, key) + [tags[i].sourceFile]]
    ensures forall k :: Recorded(src', k) == SourcesFor(tags[..i + 1], k)
  {
    forall k ensures Recorded(src', k) == SourcesFor(tags[..i + 1], k) {
      SourcesForSnoc(tags, i, k);
    }
  }

  /** The first pass of `build_links_like_group`: `src_map` filled from
      every spreadsheet row whose inventory cell parses, given each row's
      key and workbook. */
  method CollectSources(tags: seq<Tagged>) returns (src: map<Key, seq<string>>)
    ensures forall k :: Recorded(src, k) == SourcesFor(tags, k)
  {
    src := map[];
    var i := 0;
    while i < |tags|
      invariant i <= |tags|
      invariant forall k :: Recorded(src, k) == SourcesFor(tags[..i], k)
    {
      ghost var before := src;
      if tags[i].key.Some? {
        var key := tags[i].key.value;
        src := src[key := Recorded(src, key) + [tags[i].sourceFile]];
      }
      RecordStep(tags, i, before, src);
      i := i + 1;
    }
    assert tags[..|tags|] == tags;
  }

  /** One iteration of the second pass. */
  method LinkOne(meta: seq<MetaRow>, fs: FileSystem, imagesRoot: string,
                 src: map<Key, seq<string>>, st: State, raw: Cell) returns (st': State)
    requires forall k :: Recorded(src, k) == SourcesFor(Tags(meta), k)
    ensures st' == Step(LinkEnv(meta, fs, imagesRoot), st, Item(raw, ParseObjectNumber(raw)))
  {
    var parsed := ParseObjectNumber(raw);
    ghost var env := LinkEnv(meta, fs, imagesRoot);
    if parsed.None? {
      return st.(misses := st.misses + [PatternMiss(raw)]);
    }
    var p := parsed.value;
    var key := KeyOf(p);
    if key in st.seen {
      return st;
    }
    var matches := FindMatchingFilesInYear(fs, imagesRoot, p.year, p.basePrefix);
    assert matches == env.find(p.year, p.basePrefix);
    if matches == [] {
      return State(st.seen + {key}, st.rows, st.misses + [NoFilesMiss(raw, p.year, p.basePrefix)]);
    }
    var sourceFiles := Sort(Dedup(Recorded(src, key)));
    assert sourceFiles == env.sources(key);
    var row := LinkedRow(raw, p.year, p.basePrefix, Basenames(matches), |matches|, Join(sourceFiles, ", "));
    return State(st.seen + {key}, st.rows + [row], st.misses);
  }

  /** The second pass: the loop over the series, with `src_map` already
      filled. */
  method LinkSeries(meta: seq<MetaRow>, fs: FileSystem, imagesRoot: string,
                    src: map<Key, seq<string>>, series: seq<Cell>) returns (st: State)
    requires forall k :: Recorded(src, k) == SourcesFor(Tags(meta), k)
    ensures st == Run(LinkEnv(meta, fs, imagesRoot), Items(series))
  {
    ghost var env := LinkEnv(meta, fs, imagesRoot);
    ghost var items := Items(series);
    st := State({}, [], []);
    var j := 0;
    while j < |series|
      invariant j <= |series|
      invariant st == Run(env, items[..j])
    {
      assert items[..j + 1] == items[..j] + [items[j]];
      RunSnoc(env, items[..j], items[j]);
      st := LinkOne(meta, fs, imagesRoot, src, st, series[j]);
      j := j + 1;
    }
    assert items[..|series|] == items;
  }

  /** `build_links_like_group` as written: one pass over the spreadsheet
      filling `src_map`, then one pass over the series. It returns what
      `BuildLinksLikeGroup` describes. */
  method BuildLinks(meta: seq<MetaRow>, fs: FileSystem, imagesRoot: string) returns (links: Links)
    ensures links == BuildLinksLikeGroup(meta, fs, imagesRoot)
  {
    if |meta| == 0 {
      return Links(LinkColumns, [], []);
    }
    var series := Series(meta);
    var src := CollectSources(Tags(meta));
    var st := LinkSeries(meta, fs, imagesRoot, src, series);
    links := Links(if st.rows == [] then [] else LinkColumns, st.rows, st.misses);
  }
}
