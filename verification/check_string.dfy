/**
 The data-check-string of `validate_init_data` (api/index.py:50-55): the parsed dict's
 items in ascending key order, `hash` left out, each rendered `key=<first value>`, joined
 by single newlines.
 */
module CheckString {
  import opened Wrappers
  import opened Strings
  import opened Query
  import opened Seqs

  /** Keys strictly ascending in Python's `str` order; in particular no key repeats. */
  predicate StrictlySorted<V>(s: seq<(string, V)>)
  {
    forall i, j :: 0 <= i < j < |s| ==> Less(s[i].0, s[j].0)
  }

  /** Strictly ascending keys are distinct keys. */
  lemma SortedDistinct<V>(s: seq<(string, V)>)
    requires StrictlySorted(s)
    ensures DistinctKeys(s)
  {
    forall i, j | 0 <= i < j < |s|
      ensures s[i].0 != s[j].0
    {
      LessIrreflexive(s[i].0);
    }
  }

  // ---------------------------------------------------------------------------
  // `sorted(parsed_data.items())`

  /** Place `e` in front of the first entry whose key it precedes. */
  function Insert(e: Entry, s: seq<Entry>): (r: seq<Entry>)
    ensures |r| == |s| + 1
  {
    if |s| == 0 then [e]
    else if Less(e.0, s[0].0) then [e] + s
    else [s[0]] + Insert(e, s[1..])
  }

  /** Inserting adds `e` and keeps everything else. */
  lemma {:induction false} InsertElements(e: Entry, s: seq<Entry>)
    ensures multiset(Insert(e, s)) == multiset(s) + multiset{e}
  {
    if |s| > 0 && !Less(e.0, s[0].0) {
      InsertElements(e, s[1..]);
      Uncons(s);
    }
  }

  /**
   `sorted(items)` by key. The dict's keys are distinct, so every sort yields the same
   list (SortedUnique); insertion sort stands in for Python's Timsort.
   */
  function SortByKey(g: seq<Entry>): (s: seq<Entry>)
    ensures |s| == |g|
  {
    if |g| == 0 then [] else Insert(g[0], SortByKey(g[1..]))
  }

  /** Sorting is a permutation. */
  lemma {:induction false} SortByKeyElements(g: seq<Entry>)
    ensures multiset(SortByKey(g)) == multiset(g)
  {
    if |g| > 0 {
      SortByKeyElements(g[1..]);
      InsertElements(g[0], SortByKey(g[1..]));
      Uncons(g);
    }
  }

  /** Inserting a new key into a strictly ascending list keeps it strictly ascending. */
  lemma {:induction false} InsertSorted(e: Entry, s: seq<Entry>)
    requires StrictlySorted(s)
    requires forall i :: 0 <= i < |s| ==> s[i].0 != e.0
    ensures StrictlySorted(Insert(e, s))
  {
    if |s| == 0 {
    } else if Less(e.0, s[0].0) {
      var r := [e] + s;
      forall i, j | 0 <= i < j < |r|
        ensures Less(r[i].0, r[j].0)
      {
        if i == 0 && j > 1 {
          LessTransitive(e.0, s[0].0, s[j - 1].0);
        }
      }
    } else {
      LessTotal(e.0, s[0].0);
      InsertSorted(e, s[1..]);
      var t := Insert(e, s[1..]);
      InsertElements(e, s[1..]);
      var r := [s[0]] + t;
      forall i, j | 0 <= i < j < |r|
        ensures Less(r[i].0, r[j].0)
      {
        if i == 0 {
          var x := r[j];
          assert x in multiset(t);
          if x != e {
            assert x in multiset(s[1..]);
            var m :| 0 <= m < |s[1..]| && s[1..][m] == x;
            assert s[m + 1] == x;
          }
        }
      }
    }
  }

  /** Sorting distinct keys gives them in strictly ascending order, and loses or adds nothing. */
  lemma {:induction false} SortByKeySorted(g: seq<Entry>)
    requires DistinctKeys(g)
    ensures StrictlySorted(SortByKey(g))
  {
    if |g| > 0 {
      SortByKeySorted(g[1..]);
      var s := SortByKey(g[1..]);
      SortByKeyElements(g[1..]);
      forall i | 0 <= i < |s|
        ensures s[i].0 != g[0].0
      {
        assert s[i] in multiset(g[1..]);
        var m :| 0 <= m < |g[1..]| && g[1..][m] == s[i];
        assert g[m + 1] == s[i];
      }
      InsertSorted(g[0], s);
    }
  }

  /** Two strictly sorted lists with the same elements are the same list. */
  lemma {:induction false} SortedUnique<V>(a: seq<(string, V)>, b: seq<(string, V)>)
    requires StrictlySorted(a) && StrictlySorted(b)
    requires forall p :: p in a <==> p in b
    ensures a == b
  {
    assert |b| > 0 ==> b[0] in b;
    if |a| > 0 {
      assert a[0] in a;
      var j :| 0 <= j < |b| && b[j] == a[0];
      assert b[0] in b;
      var i :| 0 <= i < |a| && a[i] == b[0];
      if j > 0 {
        if i == 0 {
          LessIrreflexive(b[0].0);
        } else {
          LessAsymmetric(a[0].0, a[i].0);
        }
      }
      assert a[0] == b[0];
      forall p
        ensures p in a[1..] <==> p in b[1..]
      {
        if p in a[1..] {
          var m :| 0 <= m < |a[1..]| && a[1..][m] == p;
          assert Less(a[0].0, a[m + 1].0);
          LessIrreflexive(p.0);
          assert p in b;
        }
        if p in b[1..] {
          var m :| 0 <= m < |b[1..]| && b[1..][m] == p;
          assert Less(b[0].0, b[m + 1].0);
          LessIrreflexive(p.0);
          assert p in a;
        }
      }
      SortedUnique(a[1..], b[1..]);
      assert a == [a[0]] + a[1..] && b == [b[0]] + b[1..];
    }
  }

  // ---------------------------------------------------------------------------
  // Entries, lines and the joined string

  /** Every key of `s` sorts after `k`. */
  predicate Above<V>(k: string, s: seq<(string, V)>)
  {
    forall i :: 0 <= i < |s| ==> Less(k, s[i].0)
  }

  /** The loop of api/index.py:51-53 before rendering: skip `hash`, keep each other key with its first value. */
  function Canonical(sorted: seq<Entry>): (c: seq<Pair>)
    ensures forall i :: 0 <= i < |c| ==> c[i].0 != "hash"
    ensures |c| <= |sorted|
    ensures (forall j :: 0 <= j < |sorted| ==> sorted[j].0 != "hash") ==> |c| == |sorted|
  {
    if |sorted| == 0 then []
    else if sorted[0].0 == "hash" then Canonical(sorted[1..])
    else [(sorted[0].0, sorted[0].1[0])] + Canonical(sorted[1..])
  }

  /** Canonical only keeps keys it was given, so a bound below all of them survives. */
  lemma {:induction false} CanonicalAbove(k: string, sorted: seq<Entry>)
    requires Above(k, sorted)
    ensures Above(k, Canonical(sorted))
  {
    if |sorted| > 0 {
      CanonicalAbove(k, sorted[1..]);
    }
  }

  /**
   On strictly ascending entries, Canonical keeps the order, drops only `hash`, and turns
   every other entry into its key with its first value.
   */
  lemma {:induction false} CanonicalSpec(sorted: seq<Entry>)
    requires StrictlySorted(sorted)
    ensures StrictlySorted(Canonical(sorted))
    ensures forall i :: 0 <= i < |Canonical(sorted)| ==>
              var p := Canonical(sorted)[i];
              p.0 != "hash" && Lookup(sorted, p.0).Some? && Lookup(sorted, p.0).value[0] == p.1
    ensures forall j :: 0 <= j < |sorted| && sorted[j].0 != "hash" ==>
              (sorted[j].0, sorted[j].1[0]) in Canonical(sorted)
  {
    if |sorted| > 0 {
      var x := sorted[0];
      var rest := sorted[1..];
      assert x in sorted;
      CanonicalSpec(rest);
      var cr := Canonical(rest);
      assert Above(x.0, rest);
      CanonicalAbove(x.0, rest);
      forall i | 0 <= i < |cr|
        ensures Lookup(sorted, cr[i].0) == Lookup(rest, cr[i].0)
      {
        LessIrreflexive(x.0);
      }
      forall j | 1 <= j < |sorted| && sorted[j].0 != "hash"
        ensures (sorted[j].0, sorted[j].1[0]) in cr
      {
        assert sorted[j] == rest[j - 1];
      }
    }
  }

  /** The check-string's data: keys ascending, `hash` left out, each key with its first value. */
  function CheckEntries(parsed: seq<Entry>): seq<Pair>
  {
    Canonical(SortByKey(parsed))
  }

  /** `'\n'.join(data_check_arr)`. */
  function DataCheckString(parsed: seq<Entry>): (s: string)
    ensures s == "" <==> CheckEntries(parsed) == []
  {
    JoinEmpty(FieldTexts(CheckEntries(parsed)), '\n');
    Join(FieldTexts(CheckEntries(parsed)), '\n')
  }

  // ---------------------------------------------------------------------------
  // The check-string in terms of the input pairs

  /** Grouped and sorted, distinct keys look up alike. */
  lemma LookupSameElements(s: seq<Entry>, g: seq<Entry>, k: string)
    requires DistinctKeys(s) && DistinctKeys(g)
    requires multiset(s) == multiset(g)
    ensures Lookup(s, k) == Lookup(g, k)
  {
    LookupSpec(s, k);
    LookupSpec(g, k);
    match Lookup(s, k)
    case Some(vs) =>
      assert (k, vs) in multiset(g);
      var j :| 0 <= j < |g| && g[j] == (k, vs);
      LookupEntry(g, j);
    case None =>
      forall i | 0 <= i < |g|
        ensures g[i].0 != k
      {
        assert g[i] in multiset(s);
      }
  }

  /**
   The check-string's entries, read off the input pairs: strictly ascending keys, no
   `hash`, exactly one entry per other key present, and that entry holds the key's first value.
   */
  lemma CheckEntriesOfPairs(pairs: seq<Pair>)
    ensures StrictlySorted(CheckEntries(Group(pairs)))
    ensures forall i :: 0 <= i < |CheckEntries(Group(pairs))| ==>
              var p := CheckEntries(Group(pairs))[i];
              p.0 != "hash" && FirstValue(pairs, p.0) == Some(p.1)
    ensures forall k :: k != "hash" && FirstValue(pairs, k).Some? ==>
              (k, FirstValue(pairs, k).value) in CheckEntries(Group(pairs))
  {
    var g := Group(pairs);
    var s := SortByKey(g);
    SortByKeySorted(g);
    SortByKeyElements(g);
    SortedDistinct(s);
    CanonicalSpec(s);
    var c := CheckEntries(g);
    assert c == Canonical(s);
    forall i | 0 <= i < |c|
      ensures c[i].0 != "hash" && FirstValue(pairs, c[i].0) == Some(c[i].1)
    {
      GroupLookup(pairs, c[i].0);
      LookupSameElements(s, g, c[i].0);
    }
    forall k | k != "hash" && FirstValue(pairs, k).Some?
      ensures (k, FirstValue(pairs, k).value) in c
    {
      GroupLookup(pairs, k);
      LookupSameElements(s, g, k);
      LookupSpec(s, k);
      var vs := Lookup(s, k).value;
      var j :| 0 <= j < |s| && s[j] == (k, vs);
    }
  }

  /** Only the first value of each key other than `hash` reaches the check-string. */
  lemma CheckStringFirstValues(p1: seq<Pair>, p2: seq<Pair>)
    requires forall k :: k != "hash" ==> FirstValue(p1, k) == FirstValue(p2, k)
    ensures DataCheckString(Group(p1)) == DataCheckString(Group(p2))
  {
    CheckEntriesOfPairs(p1);
    CheckEntriesOfPairs(p2);
    var c1 := CheckEntries(Group(p1));
    var c2 := CheckEntries(Group(p2));
    forall p
      ensures p in c1 <==> p in c2
    {
      if p in c1 {
        var i :| 0 <= i < |c1| && c1[i] == p;
      }
      if p in c2 {
        var i :| 0 <= i < |c2| && c2[i] == p;
      }
    }
    SortedUnique(c1, c2);
  }

  // ---------------------------------------------------------------------------
  // Reordering the pairs

  /** When all keys are distinct, reordering the pairs leaves the check-string unchanged. */
  lemma PermutationInvariant(p1: seq<Pair>, p2: seq<Pair>)
    requires DistinctKeys(p1)
    requires multiset(p1) == multiset(p2)
    ensures DataCheckString(Group(p1)) == DataCheckString(Group(p2))
  {
    PermutationValues(p1, p2);
    CheckStringFirstValues(p1, p2);
  }

  // ---------------------------------------------------------------------------
  // Layout

  /** An entry of the check-string comes from the input, so it has no line break when the input has none. */
  lemma LineFree(pairs: seq<Pair>, k: string, v: string)
    requires forall i :: 0 <= i < |pairs| ==> '\n' !in pairs[i].0 && '\n' !in pairs[i].1
    requires FirstValue(pairs, k) == Some(v)
    ensures '\n' !in FieldText((k, v))
  {
    var vs := ValuesOf(pairs, k);
    assert vs[0] in vs;
    ValuesOfFrom(pairs, k, v);
    var m :| 0 <= m < |pairs| && pairs[m] == (k, v);
  }

  /**
   With no line break inside any key or value, the check-string splits back into exactly
   its `key=value` lines: one separator between neighbours, none at the end.
   */
  lemma CheckStringLines(pairs: seq<Pair>)
    requires forall i :: 0 <= i < |pairs| ==> '\n' !in pairs[i].0 && '\n' !in pairs[i].1
    ensures var c := CheckEntries(Group(pairs));
            Split(DataCheckString(Group(pairs)), '\n') == (if c == [] then [""] else FieldTexts(c))
  {
    var c := CheckEntries(Group(pairs));
    if c == [] {
      assert Split("", '\n') == [""];
    } else {
      CheckEntriesOfPairs(pairs);
      var ls := FieldTexts(c);
      forall i | 0 <= i < |ls|
        ensures '\n' !in ls[i]
      {
        LineFree(pairs, c[i].0, c[i].1);
      }
      SplitJoin(ls, '\n');
    }
  }
}
