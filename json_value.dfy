/**
  The values a patient record may hold, as Python's `json` module sees
  them, and the key order that `sort_keys=True` imposes on a dictionary
  (HEALTHCARE.py:17, 35).
 */
module JsonValue {

  /**
    A JSON-encodable Python value: None, a bool, an int, a str, a list, or
    a dict with str keys. A dict is a map: Python compares dicts without
    regard to insertion order and never holds a key twice.
   */
  datatype Value =
    | Null
    | Bool(b: bool)
    | Int(i: int)
    | Str(s: string)
    | List(items: seq<Value>)
    | Dict(fields: map<string, Value>)

  /** A value stored in a dict is smaller than the dict (termination measure). */
  lemma FieldSmaller(m: map<string, Value>, k: string)
    requires k in m
    ensures m[k] < Dict(m)
  {
    assert m[k] in m.Values;
  }

  /**
    Python's `<` on str: lexicographic by code point, a proper prefix
    coming first.
   */
  predicate LexLess(a: string, b: string)
  {
    if a == [] then b != []
    else b != [] && (a[0] < b[0] || (a[0] == b[0] && LexLess(a[1..], b[1..])))
  }

  lemma {:induction false} LexIrreflexive(a: string)
    ensures !LexLess(a, a)
  {
    if a != [] {
      LexIrreflexive(a[1..]);
    }
  }

  /** Any two distinct texts are ordered one way, and only one way. */
  lemma {:induction false} LexTotal(a: string, b: string)
    ensures a == b || LexLess(a, b) || LexLess(b, a)
    ensures !(LexLess(a, b) && LexLess(b, a))
  {
    if a != [] && b != [] {
      LexTotal(a[1..], b[1..]);
      if a[0] == b[0] && a[1..] == b[1..] {
        assert a == [a[0]] + a[1..] && b == [b[0]] + b[1..];
      }
    }
  }

  lemma {:induction false} LexTransitive(a: string, b: string, c: string)
    requires LexLess(a, b) && LexLess(b, c)
    ensures LexLess(a, c)
  {
    if a != [] && a[0] == b[0] && b[0] == c[0] {
      LexTransitive(a[1..], b[1..], c[1..]);
    }
  }

  /** k comes before every other key of the set. */
  predicate IsLeast(k: string, keys: set<string>)
  {
    k in keys && forall k' :: k' in keys && k' != k ==> LexLess(k, k')
  }

  /** A non-empty finite set of keys has a least key. */
  lemma {:induction false} LeastExists(keys: set<string>)
    requires keys != {}
    ensures exists k :: IsLeast(k, keys)
    decreases |keys|
  {
    var x :| x in keys;
    if keys == {x} {
      assert IsLeast(x, keys);
    } else {
      var others := keys - {x};
      LeastExists(others);
      var m :| IsLeast(m, others);
      LexTotal(m, x);
      if LexLess(x, m) {
        forall k' | k' in keys && k' != x ensures LexLess(x, k') {
          if k' != m {
            LexTransitive(x, m, k');
          }
        }
        assert IsLeast(x, keys);
      } else {
        assert IsLeast(m, keys);
      }
    }
  }

  /** At most one key of a set is least. */
  lemma LeastUnique(keys: set<string>, k1: string, k2: string)
    requires IsLeast(k1, keys) && IsLeast(k2, keys)
    ensures k1 == k2
  {
    if k1 != k2 {
      LexTotal(k1, k2);
    }
  }

  /** Each key comes before the next one. */
  predicate StrictlySorted(ks: seq<string>)
  {
    forall i, j :: 0 <= i < j < |ks| ==> LexLess(ks[i], ks[j])
  }

  /**
    The keys of a dict in the order `json.dumps(..., sort_keys=True)`
    writes them: the least key first, then the rest in the same order.
   */
  function SortedKeys(keys: set<string>): seq<string>
    decreases |keys|
  {
    if keys == {} then []
    else
      LeastExists(keys);
      forall k1, k2 | IsLeast(k1, keys) && IsLeast(k2, keys) ensures k1 == k2 {
        LeastUnique(keys, k1, k2);
      }
      var k :| IsLeast(k, keys);
      [k] + SortedKeys(keys - {k})
  }

  /** The least key of a set followed by a sorted listing of the other keys is sorted. */
  lemma ConsSorted(k: string, keys: set<string>, rest: seq<string>)
    requires IsLeast(k, keys) && StrictlySorted(rest)
    requires forall x :: x in rest ==> x in keys - {k}
    ensures StrictlySorted([k] + rest)
  {
    var r := [k] + rest;
    forall i, j | 0 <= i < j < |r| ensures LexLess(r[i], r[j]) {
      if i == 0 {
        assert r[j] == rest[j - 1] && r[j] in rest;
      } else {
        assert r[i] == rest[i - 1] && r[j] == rest[j - 1];
      }
    }
  }

  /** The sorted keys start with the least key. */
  lemma SortedKeysCons(keys: set<string>, k: string)
    requires IsLeast(k, keys)
    ensures SortedKeys(keys) == [k] + SortedKeys(keys - {k})
  {
    forall k1, k2 | IsLeast(k1, keys) && IsLeast(k2, keys) ensures k1 == k2 {
      LeastUnique(keys, k1, k2);
    }
  }

  /** The sorted keys list every key of the set once, in strictly increasing order. */
  lemma {:induction false} SortedKeysSpec(keys: set<string>)
    ensures |SortedKeys(keys)| == |keys|
    ensures forall k :: k in SortedKeys(keys) <==> k in keys
    ensures StrictlySorted(SortedKeys(keys))
    decreases |keys|
  {
    if keys != {} {
      LeastExists(keys);
      var k :| IsLeast(k, keys);
      SortedKeysCons(keys, k);
      SortedKeysSpec(keys - {k});
      ConsSorted(k, keys, SortedKeys(keys - {k}));
    }
  }

  /** The first key of a strictly sorted listing of a set is the set's least key. */
  lemma SortedHeadLeast(keys: set<string>, ks: seq<string>)
    requires ks != [] && StrictlySorted(ks)
    requires forall k :: k in ks <==> k in keys
    ensures IsLeast(ks[0], keys)
  {
    forall k' | k' in keys && k' != ks[0] ensures LexLess(ks[0], k') {
      var j :| 0 <= j < |ks| && ks[j] == k';
    }
  }

  /** The rest of a strictly sorted listing lists the set without its first key. */
  lemma SortedTail(keys: set<string>, ks: seq<string>)
    requires ks != [] && StrictlySorted(ks)
    requires forall k :: k in ks <==> k in keys
    ensures StrictlySorted(ks[1..])
    ensures forall k :: k in ks[1..] <==> k in keys - {ks[0]}
  {
    forall k ensures k in ks[1..] <==> k in keys - {ks[0]} {
      if k in ks[1..] {
        var j :| 1 <= j < |ks| && ks[j] == k;
        LexIrreflexive(ks[0]);
      }
      if k in keys - {ks[0]} {
        var j :| 0 <= j < |ks| && ks[j] == k;
        assert ks[1..][j - 1] == k;
      }
    }
  }

  /** A strictly sorted listing of a key set is the one SortedKeys gives. */
  lemma {:induction false} SortedKeysUnique(keys: set<string>, ks: seq<string>)
    requires StrictlySorted(ks)
    requires forall k :: k in ks <==> k in keys
    ensures SortedKeys(keys) == ks
    decreases |ks|
  {
    if ks == [] {
      assert keys == {};
    } else {
      assert keys != {} by {
        assert ks[0] in keys;
      }
      SortedHeadLeast(keys, ks);
      SortedKeysCons(keys, ks[0]);
      SortedTail(keys, ks);
      SortedKeysUnique(keys - {ks[0]}, ks[1..]);
    }
  }
}
