/**
  `replace_multiple(string, replacements)` of run_file_args.py: every occurrence of a
  key of `replacements` is replaced by its value, in one left-to-right pass. The keys
  are tried longest first (a stable sort by length, descending) as the alternatives of
  one regular expression, so at each position the longest key that starts there wins,
  the replaced text is never scanned again, and matches never overlap.

  The dictionary is a sequence of (key, value) pairs in insertion order.
 */
module Replace {
  import opened Common

  type Table = seq<(string, string)>

  function Keys(t: Table): (ks: seq<string>)
    ensures |ks| == |t| && forall i :: 0 <= i < |t| ==> ks[i] == t[i].0
  {
    if t == [] then [] else [t[0].0] + Keys(t[1..])
  }

  /** `replacements[k]`: the value of the first pair whose key is `k`. */
  function Lookup(t: Table, k: string): (r: Option<string>)
    ensures r.Some? <==> k in Keys(t)
    ensures r.Some? ==> (k, r.value) in t
  {
    if t == [] then None else if t[0].0 == k then Some(t[0].1) else Lookup(t[1..], k)
  }

  // ---------------------------------------------------------------------------
  // sorted(replacements, key=len, reverse=True)
  // ---------------------------------------------------------------------------

  predicate ByLengthDesc(ks: seq<string>) {
    forall i, j :: 0 <= i < j < |ks| ==> |ks[i]| >= |ks[j]|
  }

  /** Insert `k` after the keys longer than it and before the others (which keeps the sort stable). */
  function InsertByLength(k: string, ks: seq<string>): seq<string> {
    if ks == [] || |ks[0]| <= |k| then [k] + ks else [ks[0]] + InsertByLength(k, ks[1..])
  }

  /** The keys, longest first; keys of equal length stay in insertion order. */
  function SortByLength(ks: seq<string>): seq<string> {
    if ks == [] then [] else InsertByLength(ks[0], SortByLength(ks[1..]))
  }

  lemma {:induction false} InsertByLengthSorted(k: string, ks: seq<string>)
    requires ByLengthDesc(ks)
    ensures ByLengthDesc(InsertByLength(k, ks))
    ensures InsertByLength(k, ks)[0] == k || (ks != [] && InsertByLength(k, ks)[0] == ks[0])
    decreases |ks|
  {
    if ks != [] && |ks[0]| > |k| {
      var rest := InsertByLength(k, ks[1..]);
      InsertByLengthSorted(k, ks[1..]);
      ConsSorted(ks[0], rest);
    }
  }

  lemma {:induction false} InsertByLengthPerm(k: string, ks: seq<string>)
    ensures multiset(InsertByLength(k, ks)) == multiset(ks) + multiset{k}
    decreases |ks|
  {
    if ks != [] && |ks[0]| > |k| {
      InsertByLengthPerm(k, ks[1..]);
      assert ks == [ks[0]] + ks[1..];
    }
  }

  lemma ConsSorted(x: string, r: seq<string>)
    requires ByLengthDesc(r) && r != [] && |x| >= |r[0]|
    ensures ByLengthDesc([x] + r)
  {
    forall i, j | 0 <= i < j < |[x] + r|
      ensures |([x] + r)[i]| >= |([x] + r)[j]|
    {
      if i == 0 && j > 1 {
        assert |r[0]| >= |r[j - 1]|;
      }
    }
  }

  /** The sort orders the keys by decreasing length and is a permutation of them. */
  lemma {:induction false} SortByLengthSorted(ks: seq<string>)
    ensures ByLengthDesc(SortByLength(ks))
    ensures multiset(SortByLength(ks)) == multiset(ks)
    decreases |ks|
  {
    if ks != [] {
      SortByLengthSorted(ks[1..]);
      InsertByLengthSorted(ks[0], SortByLength(ks[1..]));
      InsertByLengthPerm(ks[0], SortByLength(ks[1..]));
      assert ks == [ks[0]] + ks[1..];
    }
  }

  // ---------------------------------------------------------------------------
  // The compiled alternation and `sub`
  // ---------------------------------------------------------------------------

  /** The alternatives of the compiled pattern. With no key the pattern is `''`, which matches the empty string. */
  function Pattern(t: Table): (alts: seq<string>)
    ensures t == [] ==> alts == [""]
    ensures t != [] ==> (forall a :: a in alts <==> a in Keys(t)) && ByLengthDesc(alts)
  {
    if t == [] then [""]
    else
      var ks := Keys(t);
      SortByLengthSorted(ks);
      assert forall a :: a in SortByLength(ks) <==> a in multiset(SortByLength(ks));
      assert forall a :: a in ks <==> a in multiset(ks);
      SortByLength(ks)
  }

  /**
    The alternative that matches at the start of `s`: the first one in order that is a
    prefix of `s`. When longer alternatives come first, it is a longest such prefix.
   */
  function FirstMatch(alts: seq<string>, s: string): (r: Option<string>)
    ensures r.None? ==> forall a :: a in alts ==> !(a <= s)
    ensures r.Some? ==> r.value in alts && r.value <= s
    ensures r.Some? && ByLengthDesc(alts) ==> forall a :: a in alts && a <= s ==> |a| <= |r.value|
  {
    if alts == [] then None
    else if alts[0] <= s then Some(alts[0])
    else
      assert forall a :: a in alts ==> a == alts[0] || a in alts[1..];
      FirstMatch(alts[1..], s)
  }

  /** `p` in front of a successful result; an error is passed on. */
  function Prepend(p: string, r: Result<string>): Result<string> {
    if r.Ok? then Ok(p + r.value) else r
  }

  /**
    `regexp.sub(lambda match: replacements[match.group(0)], s)`. A non-empty match is
    replaced and the scan goes on after it; where only the empty key matches, its value
    is inserted and one character is copied; where nothing matches, one character is
    copied. A missing key raises `KeyError`.
   */
  function Sub(alts: seq<string>, t: Table, s: string): (r: Result<string>)
    ensures r.Err? ==> r.error.KeyError? && r.error.key in alts && Lookup(t, r.error.key).None?
    decreases |s|
  {
    match FirstMatch(alts, s)
    case None => if s == [] then Ok([]) else Prepend([s[0]], Sub(alts, t, s[1..]))
    case Some(k) =>
      match Lookup(t, k)
      case None => Err(KeyError(k))
      case Some(v) =>
        if k != [] then Prepend(v, Sub(alts, t, s[|k|..]))
        else if s == [] then Ok(v)
        else Prepend(v + [s[0]], Sub(alts, t, s[1..]))
  }

  lemma PrependTwice(a: string, b: string, r: Result<string>)
    ensures Prepend(a, Prepend(b, r)) == Prepend(a + b, r)
  {
    if r.Ok? {
      assert a + (b + r.value) == (a + b) + r.value;
    }
  }

  /**
    `replace_multiple(s, t)`. It fails exactly when the dictionary is empty: then the
    pattern is `''`, which matches, and looking the empty match up raises `KeyError('')`.
   */
  function ReplaceMultiple(s: string, t: Table): (r: Result<string>)
    ensures r.Err? <==> t == []
    ensures t == [] ==> r == Err(KeyError(""))
  {
    assert t == [] ==> FirstMatch([""], s) == Some("");
    Sub(Pattern(t), t, s)
  }

  // ---------------------------------------------------------------------------
  // Properties
  // ---------------------------------------------------------------------------

  /** Two prefixes of the same string with the same length are equal. */
  lemma PrefixesEqual(a: string, b: string, s: string)
    requires a <= s && b <= s && |a| == |b|
    ensures a == b
  {
    assert a == s[..|a|] && b == s[..|b|];
  }

  lemma SubAtMatch(alts: seq<string>, t: Table, s: string, k: string)
    requires FirstMatch(alts, s) == Some(k) && k != [] && Lookup(t, k).Some?
    ensures Sub(alts, t, s) == Prepend(Lookup(t, k).value, Sub(alts, t, s[|k|..]))
  {
  }

  lemma SubWithoutMatch(alts: seq<string>, t: Table, s: string)
    requires FirstMatch(alts, s).None? && s != []
    ensures Sub(alts, t, s) == Prepend([s[0]], Sub(alts, t, s[1..]))
  {
  }

  /**
    At a position where key `k` is the longest key that starts there, `k` is replaced by
    its value and the scan resumes right after it: the replaced text is not scanned again.
   */
  lemma ReplaceAtLongestKey(s: string, t: Table, k: string)
    requires k in Keys(t) && k != [] && k <= s
    requires forall k' :: k' in Keys(t) && k' <= s ==> |k'| <= |k|
    ensures ReplaceMultiple(s, t) == Prepend(Lookup(t, k).value, ReplaceMultiple(s[|k|..], t))
  {
    var alts := Pattern(t);
    var m := FirstMatch(alts, s);
    assert m.Some? by {
      assert k in alts;
    }
    PrefixesEqual(m.value, k, s);
    SubAtMatch(alts, t, s, k);
  }

  /** Where no key starts, the character is copied and the scan moves on by one. */
  lemma ReplaceWithoutKey(s: string, t: Table)
    requires t != [] && s != []
    requires forall k :: k in Keys(t) ==> !(k <= s)
    ensures ReplaceMultiple(s, t) == Prepend([s[0]], ReplaceMultiple(s[1..], t))
  {
    SubWithoutMatch(Pattern(t), t, s);
  }

  /** At the end of the string, with no empty key, the scan stops. */
  lemma ReplaceAtEnd(t: Table)
    requires t != [] && "" !in Keys(t)
    ensures ReplaceMultiple([], t) == Ok([])
  {
  }

  /** `k` occurs in `s` starting at index `i`. */
  predicate OccursAt(k: string, s: string, i: nat) {
    i + |k| <= |s| && s[i..i + |k|] == k
  }

  /** No key occurring in `s` means none occurs in `s[1..]`, and none starts `s`. */
  lemma NoKeyInTail(s: string, ks: seq<string>)
    requires s != []
    requires forall k, i :: k in ks && 0 <= i <= |s| ==> !OccursAt(k, s, i)
    ensures forall k :: k in ks ==> !(k <= s)
    ensures forall k, i :: k in ks && 0 <= i <= |s[1..]| ==> !OccursAt(k, s[1..], i)
  {
    forall k | k in ks
      ensures !(k <= s)
    {
      assert !OccursAt(k, s, 0);
    }
    forall k, i | k in ks && 0 <= i <= |s[1..]|
      ensures !OccursAt(k, s[1..], i)
    {
      assert !OccursAt(k, s, i + 1);
    }
  }

  /** Every key non-empty and every value no longer than its key: a table that only shortens. */
  predicate Shortening(t: Table) {
    forall i :: 0 <= i < |t| ==> t[i].0 != [] && |t[i].1| <= |t[i].0|
  }

  lemma {:induction false} SubShortens(alts: seq<string>, t: Table, s: string)
    requires Shortening(t)
    requires forall a :: a in alts ==> a != []
    ensures Sub(alts, t, s).Ok? ==> |Sub(alts, t, s).value| <= |s|
    decreases |s|
  {
    match FirstMatch(alts, s)
    case None =>
      if s != [] {
        SubShortens(alts, t, s[1..]);
      }
    case Some(k) =>
      var v := Lookup(t, k);
      if v.Some? {
        var i :| 0 <= i < |t| && t[i] == (k, v.value);
        SubShortens(alts, t, s[|k|..]);
      }
  }

  /** With a table that only shortens, the result is no longer than the input. */
  lemma ReplaceShortens(s: string, t: Table)
    requires t != [] && Shortening(t)
    ensures |ReplaceMultiple(s, t).value| <= |s|
  {
    forall a | a in Pattern(t)
      ensures a != []
    {
      var i :| 0 <= i < |t| && Keys(t)[i] == a;
    }
    SubShortens(Pattern(t), t, s);
  }

  /** A string in which no key occurs comes back unchanged. */
  lemma {:induction false} NoKeyUnchanged(s: string, t: Table)
    requires t != [] && "" !in Keys(t)
    requires forall k, i :: k in Keys(t) && 0 <= i <= |s| ==> !OccursAt(k, s, i)
    ensures ReplaceMultiple(s, t) == Ok(s)
    decreases |s|
  {
    if s == [] {
      ReplaceAtEnd(t);
    } else {
      NoKeyInTail(s, Keys(t));
      ReplaceWithoutKey(s, t);
      NoKeyUnchanged(s[1..], t);
      assert s == [s[0]] + s[1..];
    }
  }

  /** No key starts at any position of `p` before `q`: so too for `p[1..]`, and at the very start. */
  lemma NoKeyInPrefixTail(p: string, q: string, ks: seq<string>)
    requires p != []
    requires forall i, k :: 0 <= i < |p| && k in ks ==> !(k <= (p + q)[i..])
    ensures forall k :: k in ks ==> !(k <= p + q)
    ensures forall i, k :: 0 <= i < |p[1..]| && k in ks ==> !(k <= (p[1..] + q)[i..])
  {
    var s := p + q;
    forall k | k in ks
      ensures !(k <= s)
    {
      assert s[0..] == s;
    }
    forall i, k | 0 <= i < |p[1..]| && k in ks
      ensures !(k <= (p[1..] + q)[i..])
    {
      assert (p[1..] + q)[i..] == s[i + 1..];
    }
  }

  lemma {:induction false} SubCopiesPrefix(alts: seq<string>, t: Table, p: string, q: string)
    requires forall i, a :: 0 <= i < |p| && a in alts ==> !(a <= (p + q)[i..])
    ensures Sub(alts, t, p + q) == Prepend(p, Sub(alts, t, q))
    decreases |p|
  {
    if p == [] {
      assert p + q == q;
      var r := Sub(alts, t, q);
      if r.Ok? {
        assert p + r.value == r.value;
      }
    } else {
      NoKeyInPrefixTail(p, q, alts);
      SubCopiesPrefix(alts, t, p[1..], q);
      SubWithoutMatch(alts, t, p + q);
      assert (p + q)[1..] == p[1..] + q;
      PrependTwice([p[0]], p[1..], Sub(alts, t, q));
      assert [p[0]] + p[1..] == p;
    }
  }

  /** A prefix at none of whose positions a key starts is copied unchanged. */
  lemma CopyPrefix(p: string, q: string, t: Table)
    requires t != []
    requires forall i, k :: 0 <= i < |p| && k in Keys(t) ==> !(k <= (p + q)[i..])
    ensures ReplaceMultiple(p + q, t) == Prepend(p, ReplaceMultiple(q, t))
  {
    SubCopiesPrefix(Pattern(t), t, p, q);
  }

  /**
    The alternatives for the table of the example in `replace_multiple`'s comment: the
    longer key first. The table comes in through a parameter, as do the strings below.
   */
  lemma ExamplePattern(t: Table)
    requires t == [("ab", "AB"), ("abc", "ABC")]
    ensures Keys(t) == ["ab", "abc"]
    ensures Pattern(t) == ["abc", "ab"]
  {
    var ks := Keys(t);
    assert ks == ["ab", "abc"];
    assert ks[1..] == ["abc"] && ks[1..][1..] == [];
    assert SortByLength(ks[1..]) == InsertByLength("abc", []) == ["abc"];
    assert InsertByLength("ab", ["abc"]) == ["abc"] + InsertByLength("ab", []);
  }

  /** With both keys matching at the start of `'abc'`, the longer one wins (the strings come in through parameters). */
  lemma LongerKeyWins(q: string, t: Table)
    requires q == "abc" && t == [("ab", "AB"), ("abc", "ABC")]
    ensures ReplaceMultiple(q, t) == Ok("ABC")
  {
    ExamplePattern(t);
    var alts := Pattern(t);
    assert FirstMatch(alts, q) == Some("abc");
    assert Lookup(t, "abc") == Some("ABC");
    SubAtMatch(alts, t, q, "abc");
    var none: string := [];
    assert q[3..] == none;
    assert FirstMatch(alts, none) == None;
    assert Sub(alts, t, none) == Ok(none);
    assert "ABC" + none == "ABC";
  }

  /**
    The example in `replace_multiple`'s comment: `{'ab': 'AB', 'abc': 'ABC'}` turns
    `'hey abc'` into `'hey ABC'`, not `'hey ABc'` (the strings come in through parameters).
   */
  lemma LongestKeyExample(p: string, q: string, t: Table)
    requires p == "hey " && q == "abc" && t == [("ab", "AB"), ("abc", "ABC")]
    ensures ReplaceMultiple(p + q, t) == Ok("hey ABC")
  {
    ExamplePattern(t);
    var alts := Pattern(t);
    forall i, a | 0 <= i < |p| && a in alts
      ensures !(a <= (p + q)[i..])
    {
      assert a[0] == 'a' != p[i] == (p + q)[i..][0];
    }
    SubCopiesPrefix(alts, t, p, q);
    LongerKeyWins(q, t);
    assert p + "ABC" == "hey ABC";
  }
}
