/**
 * A Python dict of string keys and string values, as the backup code uses it.
 *
 * A dict remembers the order in which its keys were first inserted, so it is
 * modelled as a sequence of entries with pairwise distinct keys (`UniqueKeys`).
 * `ToMap` is what `dict(pairs)` builds from any sequence of pairs, where a later
 * pair for a key overwrites an earlier one; `Put` is `d[k] = v`.
 */
module Dict {

  datatype Entry = Entry(key: string, value: string)

  function Keys(es: seq<Entry>): set<string>
  {
    set i | 0 <= i < |es| :: es[i].key
  }

  predicate UniqueKeys(es: seq<Entry>)
  {
    forall i, j :: 0 <= i < j < |es| ==> es[i].key != es[j].key
  }

  /** The mapping `dict(pairs)` builds: every key of the pairs, bound to the value of its last pair. */
  function ToMap(es: seq<Entry>): (m: map<string, string>)
    ensures m.Keys == Keys(es)
  {
    if es == [] then map[]
    else
      assert Keys(es) == {es[0].key} + Keys(es[1..]) by {
        forall k | k in Keys(es) ensures k in {es[0].key} + Keys(es[1..]) {
          var i :| 0 <= i < |es| && es[i].key == k;
          if i > 0 { assert es[1..][i - 1].key == k; }
        }
        forall k | k in Keys(es[1..]) ensures k in Keys(es) {
          var i :| 0 <= i < |es[1..]| && es[1..][i].key == k;
          assert es[i + 1].key == k;
        }
      }
      map[es[0].key := es[0].value] + ToMap(es[1..])
  }

  /** A key is bound to the value of the last pair that mentions it. */
  lemma {:induction false} ToMapLastWins(es: seq<Entry>, i: nat)
    requires i < |es|
    requires forall j :: i < j < |es| ==> es[j].key != es[i].key
    ensures es[i].key in ToMap(es) && ToMap(es)[es[i].key] == es[i].value
  {
    if i == 0 {
      assert es[0].key !in Keys(es[1..]);
    } else {
      ToMapLastWins(es[1..], i - 1);
    }
  }

  /**
   * `d[k] = v` on an insertion-ordered dict: a new key is appended at the end,
   * an existing key keeps its position (see `PutInPlace`).
   */
  function Put(es: seq<Entry>, k: string, v: string): (r: seq<Entry>)
    ensures Keys(r) == Keys(es) + {k}
    ensures k !in Keys(es) ==> r == es + [Entry(k, v)]
  {
    if es == [] then
      assert [Entry(k, v)][0].key == k;
      [Entry(k, v)]
    else if es[0].key == k then
      ToMapKeysCons(es);
      ToMapKeysCons([Entry(k, v)] + es[1..]);
      assert ([Entry(k, v)] + es[1..])[1..] == es[1..];
      [Entry(k, v)] + es[1..]
    else
      var rest := Put(es[1..], k, v);
      ToMapKeysCons(es);
      ToMapKeysCons([es[0]] + rest);
      assert ([es[0]] + rest)[1..] == rest;
      assert k in Keys(es[1..]) || k !in Keys(es);
      [es[0]] + rest
  }

  /** On a dict (distinct keys), `d[k] = v` overwrites the value of an existing key in its place. */
  lemma {:induction false} PutInPlace(es: seq<Entry>, k: string, v: string)
    requires UniqueKeys(es) && k in Keys(es)
    ensures |Put(es, k, v)| == |es|
    ensures forall i :: 0 <= i < |es| ==> Put(es, k, v)[i] == (if es[i].key == k then Entry(k, v) else es[i])
  {
    var r := Put(es, k, v);
    ToMapKeysCons(es);
    if es[0].key == k {
      assert r == [Entry(k, v)] + es[1..];
      NotInTail(es);
      forall i | 0 < i < |es| ensures r[i] == es[i] { assert r[i] == es[1..][i - 1]; }
    } else {
      var rest := Put(es[1..], k, v);
      assert r == [es[0]] + rest;
      PutInPlace(es[1..], k, v);
      forall i | 0 < i < |es| ensures r[i] == (if es[i].key == k then Entry(k, v) else es[i]) {
        assert r[i] == rest[i - 1] && es[i] == es[1..][i - 1];
      }
    }
  }

  /** `d[k] = v` keeps the keys of a dict distinct. */
  lemma {:induction false} PutKeepsKeysUnique(es: seq<Entry>, k: string, v: string)
    requires UniqueKeys(es)
    ensures UniqueKeys(Put(es, k, v))
  {
    if es != [] {
      var r := Put(es, k, v);
      NotInTail(es);
      if es[0].key == k {
        assert r == [Entry(k, v)] + es[1..];
        forall i, j | 0 <= i < j < |r| ensures r[i].key != r[j].key {
          assert r[j] == es[j];
          if i > 0 { assert r[i] == es[i]; }
        }
      } else {
        var rest := Put(es[1..], k, v);
        assert r == [es[0]] + rest;
        PutKeepsKeysUnique(es[1..], k, v);
        forall i, j | 0 <= i < j < |r| ensures r[i].key != r[j].key {
          assert r[j] == rest[j - 1];
          if i > 0 { assert r[i] == rest[i - 1]; }
          else { assert r[j].key in Keys(rest); }
        }
      }
    }
  }

  /** On a dict, `d[k] = v` binds `k` to `v` and leaves every other key's value alone. */
  lemma {:induction false} PutUpdates(es: seq<Entry>, k: string, v: string)
    requires UniqueKeys(es)
    ensures ToMap(Put(es, k, v)) == ToMap(es)[k := v]
  {
    if es != [] {
      NotInTail(es);
      UniqueTail(es);
      if es[0].key == k {
        PutUpdatesHead(es, k, v);
      } else {
        PutUpdates(es[1..], k, v);
        PutUpdatesTail(es, k, v);
      }
    }
  }

  lemma PutUpdatesHead(es: seq<Entry>, k: string, v: string)
    requires es != [] && es[0].key == k && es[0].key !in Keys(es[1..])
    ensures ToMap(Put(es, k, v)) == ToMap(es)[k := v]
  {
    var r := Put(es, k, v);
    assert r[1..] == es[1..];
    assert ToMap(r) == map[k := v] + ToMap(es[1..]);
  }

  lemma PutUpdatesTail(es: seq<Entry>, k: string, v: string)
    requires es != [] && es[0].key != k
    requires ToMap(Put(es[1..], k, v)) == ToMap(es[1..])[k := v]
    ensures ToMap(Put(es, k, v)) == ToMap(es)[k := v]
  {
    var r := Put(es, k, v);
    var rest := Put(es[1..], k, v);
    assert r == [es[0]] + rest;
    assert r[1..] == rest;
    var m0 := map[es[0].key := es[0].value];
    var t := ToMap(es[1..]);
    assert ToMap(r) == m0 + t[k := v];
    MapUnionUpdate(m0, t, k, v);
  }

  lemma MapUnionUpdate(m0: map<string, string>, t: map<string, string>, k: string, v: string)
    requires k !in m0
    ensures m0 + t[k := v] == (m0 + t)[k := v]
  {
  }

  lemma UniqueTail(es: seq<Entry>)
    requires es != [] && UniqueKeys(es)
    ensures UniqueKeys(es[1..])
  {
    forall i, j | 0 <= i < j < |es[1..]| ensures es[1..][i].key != es[1..][j].key {
      assert es[1..][i] == es[i + 1] && es[1..][j] == es[j + 1];
    }
  }

  lemma NotInTail(es: seq<Entry>)
    requires es != [] && UniqueKeys(es)
    ensures es[0].key !in Keys(es[1..])
  {
  }

  lemma ToMapKeysCons(es: seq<Entry>)
    requires es != []
    ensures Keys(es) == {es[0].key} + Keys(es[1..])
  {
    assert ToMap(es).Keys == Keys(es);
  }
}
