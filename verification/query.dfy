/**
 Python's `urllib.parse.parse_qs` with its default arguments, as `validate_init_data`
 calls it (api/index.py:43). Percent-decoding and `+` handling stay opaque: they are the
 `unquote` parameter, applied to each raw name and value.
 */
module Query {
  import opened Wrappers
  import opened Strings
  import opened Seqs

  /** A decoded `name=value` field. */
  type Pair = (string, string)

  /** The values `parse_qs` records under one key: there is always at least one. */
  type Values = vs: seq<string> | |vs| > 0 witness [""]

  /** A key of the parsed dict with the list of values recorded for it. */
  type Entry = (string, Values)

  /**
   One `&`-separated field. A field without `=` (the empty field included) and a field
   whose raw value is empty are dropped, since `keep_blank_values` is false; otherwise the
   field splits at its first `=`.
   */
  function ParseField(field: string, unquote: string -> string): (r: Option<Pair>)
    ensures '=' !in field ==> r.None?
    ensures forall i :: 0 <= i < |field| && field[i] == '=' && '=' !in field[..i] ==>
              r == (if field[i + 1..] == "" then None else Some((unquote(field[..i]), unquote(field[i + 1..]))))
  {
    forall i | 0 <= i < |field| && field[i] == '=' && '=' !in field[..i]
      ensures SplitOnce(field, '=') == Some((field[..i], field[i + 1..]))
    {
      SplitOnceFirst(field, '=', i);
    }
    assert '=' !in field ==> SplitOnce(field, '=').None? by {
      SplitOnceSpec(field, '=');
    }
    match SplitOnce(field, '=')
    case None => None
    case Some((name, value)) => if value == "" then None else Some((unquote(name), unquote(value)))
  }

  /**
   A field `name=value` whose name has no `=` gives the decoded pair, or nothing when the
   raw value is empty: the name ends at the FIRST `=`, and the value may hold further ones.
   */
  lemma ParseFieldOf(name: string, value: string, unquote: string -> string)
    requires '=' !in name
    ensures ParseField(name + "=" + value, unquote)
            == (if value == "" then None else Some((unquote(name), unquote(value))))
  {
    var field := name + "=" + value;
    var r := SplitOnce(field, '=');
    SplitOnceSpec(field, '=');
    assert '=' in field by {
      assert field[|name|] == '=';
    }
    SplitOnceUnique(field, r.value.0, r.value.1);
  }

  /** Splitting at the first `=` is the only way to write a field as `name=value` with an `=`-free name. */
  lemma SplitOnceUnique(field: string, name: string, value: string)
    requires field == name + "=" + value && '=' !in name
    ensures forall n, v :: field == n + "=" + v && '=' !in n ==> n == name && v == value
  {
    forall n, v | field == n + "=" + v && '=' !in n
      ensures n == name && v == value
    {
      IndexOfAfterPrefix(n, v, '=');
      IndexOfAfterPrefix(name, value, '=');
      assert n + "=" + v == n + ['='] + v;
      assert name + "=" + value == name + ['='] + value;
      assert |n| == |name|;
      assert n == field[..|n|] && name == field[..|name|];
      assert v == field[|n| + 1..] && value == field[|name| + 1..];
    }
  }

  /** The pairs of a list of fields, in field order. */
  function FieldPairs(fields: seq<string>, unquote: string -> string): (pairs: seq<Pair>)
    ensures |pairs| <= |fields|
  {
    if |fields| == 0 then []
    else
      match ParseField(fields[0], unquote)
      case None => FieldPairs(fields[1..], unquote)
      case Some(p) => [p] + FieldPairs(fields[1..], unquote)
  }

  /**
   `parse_qsl(qs)`: the decoded pairs of the `&`-separated fields, in order. It undoes
   writing plain fields out as `name=value&...`, up to the decoding of each part.
   */
  function ParseQsl(qs: string, unquote: string -> string): (pairs: seq<Pair>)
    ensures forall raw {:trigger QueryText(raw)} :: qs == QueryText(raw) && (forall i :: 0 <= i < |raw| ==> PlainField(raw[i])) ==>
              pairs == DecodeAll(raw, unquote)
  {
    assert forall raw {:trigger QueryText(raw)} :: qs == QueryText(raw) && (forall i :: 0 <= i < |raw| ==> PlainField(raw[i])) ==>
             FieldPairs(Split(qs, '&'), unquote) == DecodeAll(raw, unquote) by {
      forall raw | qs == QueryText(raw) && (forall i :: 0 <= i < |raw| ==> PlainField(raw[i]))
        ensures FieldPairs(Split(qs, '&'), unquote) == DecodeAll(raw, unquote)
      {
        QueryTextFieldPairs(raw, unquote);
      }
    }
    FieldPairs(Split(qs, '&'), unquote)
  }

  /** The pairs of concatenated field lists are the concatenated pairs. */
  lemma {:induction false} FieldPairsAppend(a: seq<string>, b: seq<string>, unquote: string -> string)
    ensures FieldPairs(a + b, unquote) == FieldPairs(a, unquote) + FieldPairs(b, unquote)
  {
    if |a| > 0 {
      assert (a + b)[0] == a[0];
      assert (a + b)[1..] == a[1..] + b;
      var rest := FieldPairs(a[1..], unquote);
      FieldPairsAppend(a[1..], b, unquote);
      match ParseField(a[0], unquote) {
        case None =>
          assert FieldPairs(a + b, unquote) == FieldPairs(a[1..] + b, unquote);
          assert FieldPairs(a, unquote) == rest;
        case Some(p) =>
          assert FieldPairs(a + b, unquote) == [p] + FieldPairs(a[1..] + b, unquote);
          assert FieldPairs(a, unquote) == [p] + rest;
      }
    } else {
      assert a + b == b;
    }
  }

  /** Reordering the fields of a query string reorders its pairs and nothing more. */
  lemma {:induction false} FieldPairsPermutation(f1: seq<string>, f2: seq<string>, unquote: string -> string)
    requires multiset(f1) == multiset(f2)
    ensures multiset(FieldPairs(f1, unquote)) == multiset(FieldPairs(f2, unquote))
    decreases |f1|
  {
    if |f1| == 0 {
      assert |f2| == |multiset(f2)| == 0;
    } else {
      var x := f1[0];
      assert x in multiset(f2);
      var j :| 0 <= j < |f2| && f2[j] == x;
      var rest2 := f2[..j] + f2[j + 1..];
      assert multiset(f1[1..]) == multiset(rest2) by {
        Uncons(f1);
        RemoveAt(f2, j);
      }
      FieldPairsPermutation(f1[1..], rest2, unquote);
      assert FieldPairs(f1, unquote) == FieldPairs([x], unquote) + FieldPairs(f1[1..], unquote) by {
        Uncons(f1);
        FieldPairsAppend([x], f1[1..], unquote);
      }
      FieldPairsAt(f2, j, unquote);
    }
  }

  /** The pairs of three consecutive runs of fields are those of each run, in order. */
  lemma FieldPairsThree(a: seq<string>, x: seq<string>, b: seq<string>, unquote: string -> string)
    ensures FieldPairs(a + x + b, unquote) == FieldPairs(a, unquote) + FieldPairs(x, unquote) + FieldPairs(b, unquote)
  {
    FieldPairsAppend(a + x, b, unquote);
    FieldPairsAppend(a, x, unquote);
  }

  /** The pairs of a list of fields are those of field `j` and those of the other fields. */
  lemma FieldPairsAt(f: seq<string>, j: nat, unquote: string -> string)
    requires j < |f|
    ensures multiset(FieldPairs(f, unquote))
            == multiset(FieldPairs([f[j]], unquote)) + multiset(FieldPairs(f[..j] + f[j + 1..], unquote))
  {
    var a, x, b := f[..j], [f[j]], f[j + 1..];
    Around(f, j);
    FieldPairsThree(a, x, b, unquote);
    FieldPairsAppend(a, b, unquote);
  }

  /** A pair written `name=value`: the raw text of a field, and a line of the check-string. */
  function FieldText(p: Pair): string
  {
    p.0 + "=" + p.1
  }

  /** Each pair written `name=value`: the raw fields of a query string, or the lines of the check-string. */
  function FieldTexts(raw: seq<Pair>): (fields: seq<string>)
    ensures |fields| == |raw|
    ensures forall i :: 0 <= i < |raw| ==> fields[i] == FieldText(raw[i])
  {
    if |raw| == 0 then [] else [FieldText(raw[0])] + FieldTexts(raw[1..])
  }

  /** The pairs joined back into a query string, `a=1&b=2`, without any quoting. */
  function QueryText(raw: seq<Pair>): string
  {
    Join(FieldTexts(raw), '&')
  }

  /** Each raw name and value passed through the decoder. */
  function DecodeAll(raw: seq<Pair>, unquote: string -> string): (pairs: seq<Pair>)
    ensures |pairs| == |raw|
    ensures forall i :: 0 <= i < |raw| ==> pairs[i] == (unquote(raw[i].0), unquote(raw[i].1))
  {
    if |raw| == 0 then [] else [(unquote(raw[0].0), unquote(raw[0].1))] + DecodeAll(raw[1..], unquote)
  }

  /** A raw pair that survives parsing unchanged in shape: no separator inside, a value present. */
  predicate PlainField(p: Pair)
  {
    '&' !in p.0 && '&' !in p.1 && '=' !in p.0 && p.1 != ""
  }

  /** A plain field's text holds no `&`. */
  lemma PlainFieldText(p: Pair)
    requires PlainField(p)
    ensures '&' !in FieldText(p)
  {
  }

  /** Parsing the texts of plain fields gives each field's decoded name and value. */
  lemma {:induction false} FieldPairsOfTexts(raw: seq<Pair>, unquote: string -> string)
    requires forall i :: 0 <= i < |raw| ==> PlainField(raw[i])
    ensures FieldPairs(FieldTexts(raw), unquote) == DecodeAll(raw, unquote)
  {
    if |raw| > 0 {
      var fields := FieldTexts(raw);
      assert fields[1..] == FieldTexts(raw[1..]);
      FieldPairsOfTexts(raw[1..], unquote);
      ParseFieldOf(raw[0].0, raw[0].1, unquote);
    }
  }

  /** Splitting and parsing a query string built from plain fields gives back the decoded fields, in order. */
  lemma QueryTextFieldPairs(raw: seq<Pair>, unquote: string -> string)
    requires forall i :: 0 <= i < |raw| ==> PlainField(raw[i])
    ensures FieldPairs(Split(QueryText(raw), '&'), unquote) == DecodeAll(raw, unquote)
  {
    var fields := FieldTexts(raw);
    if |raw| == 0 {
      assert Split("", '&') == [""];
      assert ParseField("", unquote).None?;
    } else {
      forall i | 0 <= i < |fields|
        ensures '&' !in fields[i]
      {
        PlainFieldText(raw[i]);
      }
      SplitJoin(fields, '&');
      FieldPairsOfTexts(raw, unquote);
    }
  }

  // ---------------------------------------------------------------------------
  // Grouping by key

  /** The values recorded for `key`, in input order: the reference for what `parse_qs` keeps. */
  function ValuesOf(pairs: seq<Pair>, key: string): seq<string>
  {
    if |pairs| == 0 then []
    else
      ValuesOf(pairs[..|pairs| - 1], key)
      + (if pairs[|pairs| - 1].0 == key then [pairs[|pairs| - 1].1] else [])
  }

  /** The first value recorded for `key`, if any. */
  function FirstValue(pairs: seq<Pair>, key: string): Option<string>
  {
    var vs := ValuesOf(pairs, key);
    if |vs| == 0 then None else Some(vs[0])
  }

  /** No key occurs twice. */
  predicate DistinctKeys<V>(s: seq<(string, V)>)
  {
    forall i, j :: 0 <= i < j < |s| ==> s[i].0 != s[j].0
  }

  // ---------------------------------------------------------------------------
  // The recorded values

  /** Appending a pair leaves every other key's values as they were. */
  lemma ValuesOfAppend(pairs: seq<Pair>, p: Pair, k: string)
    requires k != p.0
    ensures ValuesOf(pairs + [p], k) == ValuesOf(pairs, k)
  {
    assert (pairs + [p])[..|pairs|] == pairs;
  }

  /** Every recorded value comes from a pair of the input under that key. */
  lemma {:induction false} ValuesOfFrom(pairs: seq<Pair>, k: string, v: string)
    requires v in ValuesOf(pairs, k)
    ensures (k, v) in pairs
  {
    var n := |pairs| - 1;
    if v in ValuesOf(pairs[..n], k) {
      ValuesOfFrom(pairs[..n], k, v);
      assert pairs[..n] <= pairs;
    }
  }

  /** With distinct keys each key present holds exactly its one value. */
  lemma {:induction false} ValuesOfDistinct(pairs: seq<Pair>, i: nat)
    requires DistinctKeys(pairs)
    requires i < |pairs|
    ensures ValuesOf(pairs, pairs[i].0) == [pairs[i].1]
  {
    var n := |pairs| - 1;
    var front := pairs[..n];
    if i < n {
      ValuesOfDistinct(front, i);
    } else {
      ValuesOfAbsent(front, pairs[i].0);
    }
  }

  /** A key no pair carries has no values. */
  lemma {:induction false} ValuesOfAbsent(pairs: seq<Pair>, k: string)
    requires forall i :: 0 <= i < |pairs| ==> pairs[i].0 != k
    ensures ValuesOf(pairs, k) == []
  {
    if |pairs| > 0 {
      ValuesOfAbsent(pairs[..|pairs| - 1], k);
    }
  }

  /** A value occurs under `key` as often as the pair does in the input. */
  lemma {:induction false} ValuesOfCount(pairs: seq<Pair>, key: string, v: string)
    ensures multiset(ValuesOf(pairs, key))[v] == multiset(pairs)[(key, v)]
  {
    if |pairs| > 0 {
      ValuesOfCount(pairs[..|pairs| - 1], key, v);
      ValuesOfLastCount(pairs, key, v);
      SnocCount(pairs, (key, v));
    }
  }

  /** The last pair adds one occurrence of `v` under `key` exactly when it is `(key, v)`. */
  lemma ValuesOfLastCount(pairs: seq<Pair>, key: string, v: string)
    requires |pairs| > 0
    ensures var n := |pairs| - 1;
            multiset(ValuesOf(pairs, key))[v]
            == multiset(ValuesOf(pairs[..n], key))[v] + (if pairs[n] == (key, v) then 1 else 0)
  {
    var n := |pairs| - 1;
    var before := ValuesOf(pairs[..n], key);
    if pairs[n].0 == key {
      assert ValuesOf(pairs, key) == before + [pairs[n].1];
      assert multiset(ValuesOf(pairs, key)) == multiset(before) + multiset{pairs[n].1};
    }
  }

  /** Reordering the pairs keeps, for each key, the same values with the same multiplicities. */
  lemma ValuesOfSameElements(p1: seq<Pair>, p2: seq<Pair>, k: string)
    requires multiset(p1) == multiset(p2)
    ensures multiset(ValuesOf(p1, k)) == multiset(ValuesOf(p2, k))
  {
    forall v
      ensures multiset(ValuesOf(p1, k))[v] == multiset(ValuesOf(p2, k))[v]
    {
      ValuesOfCount(p1, k, v);
      ValuesOfCount(p2, k, v);
    }
  }

  /** When all keys are distinct, reordering the pairs leaves a key's values unchanged. */
  lemma PermutationValuesOf(p1: seq<Pair>, p2: seq<Pair>, k: string)
    requires DistinctKeys(p1)
    requires multiset(p1) == multiset(p2)
    ensures ValuesOf(p1, k) == ValuesOf(p2, k)
  {
    var b := ValuesOf(p2, k);
    ValuesOfSameElements(p1, p2, k);
    if i :| 0 <= i < |p1| && p1[i].0 == k {
      ValuesOfDistinct(p1, i);
      assert |b| == |multiset(b)| == 1;
      assert b[0] in multiset(b);
      assert b == [b[0]];
    } else {
      ValuesOfAbsent(p1, k);
      assert |b| == |multiset(b)| == 0;
    }
  }

  /** When all keys are distinct, reordering the pairs leaves every key's values unchanged. */
  lemma PermutationValues(p1: seq<Pair>, p2: seq<Pair>)
    requires DistinctKeys(p1)
    requires multiset(p1) == multiset(p2)
    ensures forall k :: ValuesOf(p1, k) == ValuesOf(p2, k)
  {
    forall k
      ensures ValuesOf(p1, k) == ValuesOf(p2, k)
    {
      PermutationValuesOf(p1, p2, k);
    }
  }

  // ---------------------------------------------------------------------------
  // The grouped dict

  /** `d.get(key)` on the grouped dict. */
  function Lookup(g: seq<Entry>, key: string): Option<Values>
  {
    if |g| == 0 then None
    else if g[0].0 == key then Some(g[0].1)
    else Lookup(g[1..], key)
  }

  /** Lookup finds nothing exactly when no entry has the key, and otherwise one of the entries. */
  lemma {:induction false} LookupSpec(g: seq<Entry>, key: string)
    ensures Lookup(g, key).None? <==> forall i :: 0 <= i < |g| ==> g[i].0 != key
    ensures Lookup(g, key).Some? ==> (key, Lookup(g, key).value) in g
  {
    if |g| > 0 && g[0].0 != key {
      LookupSpec(g[1..], key);
      assert forall i :: 1 <= i < |g| ==> g[i] == g[1..][i - 1];
    }
  }

  /** With distinct keys, an entry is found under its own key. */
  lemma {:induction false} LookupEntry(g: seq<Entry>, i: nat)
    requires DistinctKeys(g)
    requires i < |g|
    ensures Lookup(g, g[i].0) == Some(g[i].1)
  {
    if i > 0 {
      LookupEntry(g[1..], i - 1);
    }
  }

  /** Record one more value: append it to its key's list, or open a new entry at the end. */
  function Add(g: seq<Entry>, p: Pair): (g': seq<Entry>)
    ensures Lookup(g', p.0) == Some(match Lookup(g, p.0) case Some(vs) => vs + [p.1] case None => [p.1])
    ensures forall k :: k != p.0 ==> Lookup(g', k) == Lookup(g, k)
  {
    if |g| == 0 then [(p.0, [p.1])]
    else if g[0].0 == p.0 then [(p.0, g[0].1 + [p.1])] + g[1..]
    else [g[0]] + Add(g[1..], p)
  }

  /** Adding a value keeps the keys distinct. */
  lemma {:induction false} AddDistinct(g: seq<Entry>, p: Pair)
    requires DistinctKeys(g)
    ensures DistinctKeys(Add(g, p))
  {
    if |g| > 0 && g[0].0 != p.0 {
      var tail := Add(g[1..], p);
      AddDistinct(g[1..], p);
      LookupSpec(g[1..], g[0].0);
      LookupSpec(tail, g[0].0);
      var r := [g[0]] + tail;
      forall i, j | 0 <= i < j < |r|
        ensures r[i].0 != r[j].0
      {
        if i > 0 {
          assert r[i] == tail[i - 1] && r[j] == tail[j - 1];
        } else {
          assert r[j] == tail[j - 1];
        }
      }
    }
  }

  /**
   `parse_qs`: the pairs grouped by key, keys in first-seen order, each key holding
   every value recorded for it, in input order (lemma `GroupLookup`).
   */
  function Group(pairs: seq<Pair>): (g: seq<Entry>)
    ensures DistinctKeys(g)
  {
    if |pairs| == 0 then []
    else
      var g0 := Group(pairs[..|pairs| - 1]);
      AddDistinct(g0, pairs[|pairs| - 1]);
      Add(g0, pairs[|pairs| - 1])
  }

  /** Each key of the grouping holds exactly the values the reference filter collects for it. */
  lemma {:induction false} GroupLookup(pairs: seq<Pair>, k: string)
    ensures Lookup(Group(pairs), k) == (if ValuesOf(pairs, k) == [] then None else Some(ValuesOf(pairs, k)))
  {
    if |pairs| > 0 {
      var front := pairs[..|pairs| - 1];
      var p := pairs[|pairs| - 1];
      var g0 := Group(front);
      assert Group(pairs) == Add(g0, p);
      GroupLookup(front, k);
      var before := ValuesOf(front, k);
      if p.0 == k {
        assert ValuesOf(pairs, k) == before + [p.1];
        if before == [] {
          assert ValuesOf(pairs, k) == [p.1];
          assert Lookup(Add(g0, p), k) == Some([p.1]);
        } else {
          assert Lookup(Add(g0, p), k) == Some(before + [p.1]);
        }
      } else {
        assert ValuesOf(pairs, k) == before;
        assert Lookup(Add(g0, p), k) == Lookup(g0, k);
      }
    }
  }

  /**
   `parsed.get(key, [default])[0]`: the default when no entry has the key, and otherwise
   the first value of the key's entry.
   */
  function GetFirst(g: seq<Entry>, key: string, default: string): (v: string)
    ensures (forall i :: 0 <= i < |g| ==> g[i].0 != key) ==> v == default
    ensures DistinctKeys(g) ==> forall i :: 0 <= i < |g| && g[i].0 == key ==> v == g[i].1[0]
  {
    assert (forall i :: 0 <= i < |g| ==> g[i].0 != key) ==> Lookup(g, key).None? by {
      LookupSpec(g, key);
    }
    assert DistinctKeys(g) ==> forall i :: 0 <= i < |g| && g[i].0 == key ==> Lookup(g, key) == Some(g[i].1) by {
      if DistinctKeys(g) {
        forall i | 0 <= i < |g| && g[i].0 == key {
          LookupEntry(g, i);
        }
      }
    }
    match Lookup(g, key)
    case Some(vs) => vs[0]
    case None => default
  }

  /** Read off the grouping, `.get(key, [default])[0]` is the first value for `key`, or `default`. */
  lemma GroupFirstOr(pairs: seq<Pair>, key: string, default: string)
    ensures GetFirst(Group(pairs), key, default) == FirstValue(pairs, key).GetOr(default)
  {
    GroupLookup(pairs, key);
  }
}
