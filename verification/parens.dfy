/** The substitution `re.sub(r"\s*\([^)]*\)", "", s)` that both
    catalog_generator.py and fatih-test.py use to drop parenthesised remarks.

    At every position the scan tries the pattern: a (possibly empty) run of
    whitespace, a `(`, any characters other than `)`, and the first `)` after
    that. Where it matches, the matched text is dropped and the scan resumes
    after it; where it does not, one character is copied. */
module Parens {
  import opened Strings

  /** `s[0..e]` is one match of the pattern: whitespace up to `q`, an opening
      parenthesis at `q`, and `e - 1` the first `)` after it. */
  predicate IsGroup(s: string, q: nat, e: nat)
  {
    q < e <= |s| && AllIs(Space, s, 0, q) && s[q] == '(' && s[e - 1] == ')' && q + 1 < e &&
    forall k :: q < k < e - 1 ==> s[k] != ')'
  }

  /** Where a match can be: the whitespace run ends at the first
      non-whitespace character, and `[^)]*` ends at the first `)`. */
  lemma GroupShape(s: string, q: nat, e: nat)
    ensures IsGroup(s, q, e) ==>
      q == RunEnd(Space, s, 0) && e == q + 2 + IndexOf(s[q + 1..], ')')
  {
    if IsGroup(s, q, e) {
      assert !IsSpace(s[q]);
      RunEndUnique(Space, s, 0, q);
      var tail := s[q + 1..];
      assert tail[e - q - 2] == ')';
      forall j | 0 <= j < e - q - 2 ensures tail[j] != ')' {
        assert tail[j] == s[q + 1 + j];
      }
    }
  }

  /** The end of the match of the pattern at the start of `s`, if any. The
      whitespace run is greedy, but since `(` is not whitespace there is only
      one place it can stop; and `[^)]*` can only end at the first `)`. */
  function GroupAt(s: string): (r: Option<nat>)
    ensures r.Some? ==> IsGroup(s, RunEnd(Space, s, 0), r.value)
    ensures r.None? ==> forall q: nat, e: nat :: !IsGroup(s, q, e)
  {
    var q := RunEnd(Space, s, 0);
    if q < |s| && s[q] == '(' && q + 1 + IndexOf(s[q + 1..], ')') < |s| then
      var k := IndexOf(s[q + 1..], ')');
      assert s[q + 1 + k] == s[q + 1..][k];
      assert forall j :: q < j < q + 1 + k ==> s[j] == s[q + 1..][j - q - 1];
      Some(q + 2 + k)
    else
      assert forall q': nat, e: nat :: !IsGroup(s, q', e) by {
        forall q': nat, e: nat ensures !IsGroup(s, q', e) {
          GroupShape(s, q', e);
        }
      }
      None
  }

  /** No `(` is followed, anywhere later, by a `)`. */
  predicate NoParenPair(s: string)
  {
    forall i, j :: 0 <= i < j < |s| && s[i] == '(' ==> s[j] != ')'
  }

  /** The result of the substitution: it only keeps characters of its input,
      and no parenthesised group survives in it. */
  function RemoveGroups(s: string): (r: string)
    ensures |r| <= |s|
    ensures forall c :: c in r ==> c in s
    ensures NoParenPair(r)
    decreases |s|
  {
    if |s| == 0 then ""
    else
      match GroupAt(s)
      case Some(e) =>
        var rest := RemoveGroups(s[e..]);
        assert forall c :: c in s[e..] ==> c in s;
        rest
      case None =>
        var rest := RemoveGroups(s[1..]);
        assert forall c :: c in s[1..] ==> c in s;
        OpenWithoutGroup(s);
        [s[0]] + rest
  }

  /** An opening parenthesis that does not start a match has no `)` after
      it. */
  lemma OpenWithoutGroup(s: string)
    requires |s| > 0
    ensures s[0] == '(' && ')' in s[1..] ==> GroupAt(s).Some?
  {
    if s[0] == '(' && ')' in s[1..] {
      assert RunEnd(Space, s, 0) == 0;
      var j :| 0 <= j < |s[1..]| && s[1..][j] == ')';
      assert IndexOf(s[1..], ')') <= j;
    }
  }

  /** Without a match at the start, the first character is copied. */
  lemma RemoveGroupsStep(s: string)
    requires |s| > 0 && GroupAt(s).None?
    ensures RemoveGroups(s) == [s[0]] + RemoveGroups(s[1..])
  {
  }

  /** Text with no `(` followed by `)` has no match at its start. */
  lemma NoPairNoGroup(s: string)
    ensures NoParenPair(s) ==> GroupAt(s).None?
  {
    if GroupAt(s).Some? {
      var e := GroupAt(s).value;
      var q := RunEnd(Space, s, 0);
      assert s[q] == '(' && s[e - 1] == ')' && q < e - 1;
    }
  }

  /** The substitution changes nothing exactly when the text has no `(`
      followed later by `)`. */
  lemma {:induction false} RemoveGroupsIdentity(s: string)
    ensures RemoveGroups(s) == s <==> NoParenPair(s)
    decreases |s|
  {
    if |s| > 0 && NoParenPair(s) {
      NoPairNoGroup(s);
      RemoveGroupsIdentity(s[1..]);
    }
  }

  /** Text without a `(` is left unchanged. */
  lemma RemoveGroupsNoOpen(s: string)
    ensures '(' !in s ==> RemoveGroups(s) == s
  {
    RemoveGroupsIdentity(s);
  }

  /** Text that starts with a character other than whitespace and `(` keeps
      that character. */
  lemma RemoveGroupsCopies(s: string)
    requires |s| > 0 && !IsSpace(s[0]) && s[0] != '('
    ensures RemoveGroups(s) == [s[0]] + RemoveGroups(s[1..])
  {
    assert RunEnd(Space, s, 0) == 0;
  }

  /** Text that starts with characters other than `(` and reaches a
      non-whitespace one has no match at its start. */
  lemma NoGroupInPlainPrefix(a: string, t: string)
    requires '(' !in a && |a| > 0 && !IsSpace(a[|a| - 1])
    ensures GroupAt(a + t).None?
  {
    var s := a + t;
    var q := RunEnd(Space, s, 0);
    assert s[|a| - 1] == a[|a| - 1];
    assert q <= |a| - 1;
    assert s[q] == a[q];
  }

  /** The first character of such text is copied. */
  lemma RemoveGroupsCopiesPlain(a: string, t: string)
    requires '(' !in a && |a| > 0 && !IsSpace(a[|a| - 1])
    ensures RemoveGroups(a + t) == [a[0]] + RemoveGroups(a[1..] + t)
  {
    var s := a + t;
    assert s[1..] == a[1..] + t;
    NoGroupInPlainPrefix(a, t);
    RemoveGroupsStep(s);
  }

  /** Copying the first character of `a`, then the rest of `a`, copies `a`. */
  lemma ConsSteps(a: string, u: string, v: string, w: string)
    requires |a| > 0 && u == [a[0]] + v && v == a[1..] + w
    ensures u == a + w
  {
    assert a == [a[0]] + a[1..];
  }

  /** Text without `(` that does not end in whitespace is copied as it is,
      whatever follows it. */
  lemma {:induction false} RemoveGroupsKeepsPlainPrefix(a: string, t: string)
    requires '(' !in a && (a == "" || !IsSpace(a[|a| - 1]))
    ensures RemoveGroups(a + t) == a + RemoveGroups(t)
    decreases |a|
  {
    if |a| == 0 {
      assert a + t == t;
    } else {
      var a' := a[1..];
      RemoveGroupsCopiesPlain(a, t);
      assert '(' !in a' && (a' == "" || a'[|a'| - 1] == a[|a| - 1]) by {
        assert forall k :: 0 <= k < |a'| ==> a'[k] == a[k + 1];
      }
      RemoveGroupsKeepsPlainPrefix(a', t);
      ConsSteps(a, RemoveGroups(a + t), RemoveGroups(a' + t), RemoveGroups(t));
    }
  }

  /** A group, with the whitespace in front of it, is removed: text `a`
      without `(` that does not end in whitespace is kept, then
      `w + "(" + b + ")"` disappears and the scan continues with `c`. */
  lemma RemoveGroupsDropsGroup(a: string, w: string, b: string, c: string)
    requires '(' !in a && (a == "" || !IsSpace(a[|a| - 1]))
    requires AllSpace(w) && ')' !in b
    ensures RemoveGroups(a + (w + "(" + b + ")" + c)) == a + RemoveGroups(c)
  {
    RemoveGroupsKeepsPlainPrefix(a, w + "(" + b + ")" + c);
    RemoveGroupsAtStart(w, b, c);
  }

  lemma RemoveGroupsAtStart(w: string, b: string, c: string)
    requires AllSpace(w) && ')' !in b
    ensures RemoveGroups(w + "(" + b + ")" + c) == RemoveGroups(c)
  {
    var s := w + "(" + b + ")" + c;
    var e := |w| + |b| + 2;
    assert IsGroup(s, |w|, e) by {
      assert forall k :: |w| < k < e - 1 ==> s[k] == b[k - |w| - 1];
    }
    RunEndUnique(Space, s, 0, |w|);
    assert IndexOf(s[|w| + 1..], ')') == |b| by {
      assert s[|w| + 1..][|b|] == ')';
      assert forall k :: 0 <= k < |b| ==> s[|w| + 1..][k] == b[k];
    }
    assert s[e..] == c;
  }

  /** Trimming keeps a text free of parenthesised groups. */
  lemma TrimKeepsNoParenPair(s: string)
    requires NoParenPair(s)
    ensures NoParenPair(Trim(s))
  {
    var r := Trim(s);
    var lo := StripLo(Space, s);
    assert forall k :: 0 <= k < |r| ==> r[k] == s[lo + k];
  }
}
