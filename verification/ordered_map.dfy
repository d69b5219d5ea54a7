/** Insertion-ordered dictionaries: the Python `dict` / `OrderedDict` the
    generators iterate over. Assigning to a present key replaces its value in
    place; assigning to a new key appends it, so iteration order is first
    insertion order. */
module OrderedMaps {
  import opened Text

  /** Keys are strings throughout the generators. */
  type ODict<V> = seq<(string, V)>

  function Keys<V>(d: ODict<V>): (r: seq<string>)
    ensures |r| == |d|
    ensures forall i :: 0 <= i < |d| ==> r[i] == d[i].0
  {
    if |d| == 0 then [] else [d[0].0] + Keys(d[1..])
  }

  function Values<V>(d: ODict<V>): (r: seq<V>)
    ensures |r| == |d|
    ensures forall i :: 0 <= i < |d| ==> r[i] == d[i].1
  {
    if |d| == 0 then [] else [d[0].1] + Values(d[1..])
  }

  predicate UniqueKeys<V>(d: ODict<V>) {
    forall i, j :: 0 <= i < j < |d| ==> d[i].0 != d[j].0
  }

  /** Position of `k` in `d`, or -1 when absent. */
  function IndexOf<V>(d: ODict<V>, k: string): (r: int)
    ensures -1 <= r < |d|
    ensures r >= 0 ==> d[r].0 == k
    ensures forall j :: r < j < |d| ==> d[j].0 != k
    ensures r < 0 <==> k !in Keys(d)
    decreases |d|
  {
    if |d| == 0 then -1
    else
      var n := |d| - 1;
      KeysSnoc(d);
      if d[n].0 == k then n
      else
        var r := IndexOf(d[..n], k);
        assert forall j :: 0 <= j < n ==> d[..n][j] == d[j];
        r
  }

  /** The keys of a non-empty dictionary: those before its last pair, then
      the last key. */
  lemma KeysSnoc<V>(d: ODict<V>)
    requires |d| > 0
    ensures Keys(d) == Keys(d[..|d| - 1]) + [d[|d| - 1].0]
  {
    SnocKeys(d, Keys(d), Keys(d[..|d| - 1]));
  }

  /** Any list holding the keys of `d` is the list of keys of all but the
      last pair, then the last key. */
  lemma SnocKeys<V>(d: ODict<V>, ks: seq<string>, init: seq<string>)
    requires |d| > 0 && |ks| == |d| && |init| == |d| - 1
    requires forall i :: 0 <= i < |d| ==> ks[i] == d[i].0
    requires forall i :: 0 <= i < |d[..|d| - 1]| ==> init[i] == d[..|d| - 1][i].0
    ensures ks == init + [d[|d| - 1].0]
  {
    var r := init + [d[|d| - 1].0];
    forall j | 0 <= j < |ks| ensures ks[j] == r[j] {
      if j < |d| - 1 {
        assert init[j] == d[..|d| - 1][j].0;
      }
    }
  }

  /** `d.get(k)`: the value stored under `k`, if any. */
  function Get<V>(d: ODict<V>, k: string): (r: Option<V>)
    ensures r.None? <==> k !in Keys(d)
  {
    var i := IndexOf(d, k);
    if i < 0 then None else Some(d[i].1)
  }

  /** `d[k] = v`: replaces the value in place when `k` is present, appends
      the pair otherwise. */
  function Put<V>(d: ODict<V>, k: string, v: V): (r: ODict<V>)
    ensures k in Keys(d) ==> Keys(r) == Keys(d)
    ensures k !in Keys(d) ==> r == d + [(k, v)] && Keys(r) == Keys(d) + [k]
  {
    var i := IndexOf(d, k);
    if i < 0 then d + [(k, v)] else d[i := (k, v)]
  }

  /** A dictionary built by assigning `pairs` in order (a dict display or
      comprehension such as `{ i[0]: i[1] for i in pairs }`). */
  function FromPairs<V>(pairs: seq<(string, V)>): ODict<V>
    decreases |pairs|
  {
    if |pairs| == 0 then [] else Put(FromPairs(pairs[..|pairs| - 1]), pairs[|pairs| - 1].0, pairs[|pairs| - 1].1)
  }

  predicate DistinctKeys<V>(pairs: seq<(string, V)>) {
    forall i, j :: 0 <= i < j < |pairs| ==> pairs[i].0 != pairs[j].0
  }

  /** With distinct keys, building a dictionary keeps every pair, in order. */
  lemma {:induction false} FromDistinctPairs<V>(pairs: seq<(string, V)>)
    requires DistinctKeys(pairs)
    ensures FromPairs(pairs) == pairs
    decreases |pairs|
  {
    if |pairs| > 0 {
      var init := pairs[..|pairs| - 1];
      var last := pairs[|pairs| - 1];
      FromDistinctPairs(init);
      assert last.0 !in Keys(init) by {
        forall i | 0 <= i < |init| ensures Keys(init)[i] != last.0 {
          assert init[i] == pairs[i];
        }
      }
      assert init + [last] == pairs;
    }
  }

  /** Reading back what was just stored. */
  lemma GetPutSame<V>(d: ODict<V>, k: string, v: V)
    ensures Get(Put(d, k, v), k) == Some(v)
  {
    var r := Put(d, k, v);
    var i := IndexOf(r, k);
    assert k in Keys(r) by {
      if k in Keys(d) {
        assert Keys(r) == Keys(d);
      } else {
        assert r[|r| - 1] == (k, v);
        assert Keys(r)[|r| - 1] == k;
      }
    }
    PutLastIndex(d, k, v);
  }

  /** The value under `k` after `Put(d, k, v)` is found where `Put` wrote it. */
  lemma PutLastIndex<V>(d: ODict<V>, k: string, v: V)
    ensures IndexOf(Put(d, k, v), k) >= 0 && Put(d, k, v)[IndexOf(Put(d, k, v), k)] == (k, v)
  {
    var i := IndexOf(d, k);
    if i < 0 {
      assert Put(d, k, v) == d + [(k, v)];
    } else {
      IndexOfUpdate(d, i, k, v, k);
    }
  }

  /** The last position holding `k` is the only answer `IndexOf` can give. */
  lemma IndexOfUnique<V>(d: ODict<V>, k: string, r: int)
    requires -1 <= r < |d|
    requires r >= 0 ==> d[r].0 == k
    requires forall j :: r < j < |d| ==> d[j].0 != k
    ensures IndexOf(d, k) == r
  {
  }

  /** Overwriting the last entry for `k` leaves the search for any key where
      it was. */
  lemma IndexOfUpdate<V>(d: ODict<V>, i: int, k: string, v: V, k2: string)
    requires 0 <= i < |d| && d[i].0 == k && i == IndexOf(d, k)
    ensures IndexOf(d[i := (k, v)], k2) == IndexOf(d, k2)
  {
    var d2 := d[i := (k, v)];
    var r := IndexOf(d, k2);
    assert forall j :: 0 <= j < |d| ==> d2[j].0 == d[j].0;
    IndexOfUnique(d2, k2, r);
  }

  /** Storing under one key does not change what another key reads. */
  lemma GetPutOther<V>(d: ODict<V>, k: string, v: V, k2: string)
    requires k2 != k
    ensures Get(Put(d, k, v), k2) == Get(d, k2)
  {
    var i := IndexOf(d, k);
    if i < 0 {
      var r := d + [(k, v)];
      assert r[..|d|] == d;
      assert Get(r, k2) == Get(d, k2) by {
        assert IndexOf(r, k2) == IndexOf(d, k2);
      }
    } else {
      IndexOfUpdate(d, i, k, v, k2);
    }
  }

  /** `Put` keeps every existing key where it was. */
  lemma PutKeepsOrder<V>(d: ODict<V>, k: string, v: V)
    ensures |Keys(d)| <= |Keys(Put(d, k, v))|
    ensures Keys(Put(d, k, v))[..|d|] == Keys(d)
  {
    var r := Put(d, k, v);
    var i := IndexOf(d, k);
    if i >= 0 {
      assert Keys(r) == Keys(d);
    } else {
      assert Keys(r) == Keys(d) + [k];
    }
  }
}
