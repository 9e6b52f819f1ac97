/** Ordered key/value lists: the key-order-preserving maps behind toml_edit's
    `Table` and `InlineTable`. Lookup returns the first entry with the key.
    Two insertions are distinguished, as toml_edit distinguishes them:
    `GetOrInsert` never overwrites, `Set` (index assignment, `t[k] = v`, and
    `insert`) overwrites in place or appends. */
module Assoc {
  import opened Wrappers

  function Keys<V>(t: seq<(string, V)>): (r: seq<string>)
    ensures |r| == |t|
    ensures forall i :: 0 <= i < |t| ==> r[i] == t[i].0
  {
    if |t| == 0 then [] else [t[0].0] + Keys(t[1..])
  }

  function Get<V>(t: seq<(string, V)>, k: string): (r: Option<V>)
    ensures r.Some? <==> k in Keys(t)
  {
    if |t| == 0 then None
    else if t[0].0 == k then Some(t[0].1)
    else Get(t[1..], k)
  }

  predicate HasKey<V>(t: seq<(string, V)>, k: string) {
    k in Keys(t)
  }

  predicate DistinctKeys<V>(t: seq<(string, V)>) {
    forall i, j :: 0 <= i < j < |t| ==> t[i].0 != t[j].0
  }

  /** The first entry under `k` gets value `v`; the order is unchanged. */
  function Replace<V(==)>(t: seq<(string, V)>, k: string, v: V): (r: seq<(string, V)>)
    ensures Keys(r) == Keys(t)
    ensures forall j :: Get(r, j) == (if j == k && HasKey(t, k) then Some(v) else Get(t, j))
  {
    if |t| == 0 then []
    else if t[0].0 == k then [(k, v)] + t[1..]
    else [t[0]] + Replace(t[1..], k, v)
  }

  /** Index assignment (`t[k] = v`, `t.insert(k, v)`): overwrite in place, or append. */
  function Set<V(==)>(t: seq<(string, V)>, k: string, v: V): (r: seq<(string, V)>)
    ensures Get(r, k) == Some(v)
    ensures forall j :: j != k ==> Get(r, j) == Get(t, j)
    ensures Keys(r) == if HasKey(t, k) then Keys(t) else Keys(t) + [k]
  {
    if HasKey(t, k) then Replace(t, k, v) else AppendGet(t, k, v); t + [(k, v)]
  }

  /** `get_or_insert(k, v)`: an existing entry under `k` is never overwritten. */
  function GetOrInsert<V(==)>(t: seq<(string, V)>, k: string, v: V): (r: seq<(string, V)>)
    ensures HasKey(t, k) ==> r == t
    ensures !HasKey(t, k) ==> Get(r, k) == Some(v) && Keys(r) == Keys(t) + [k]
    ensures forall j :: j != k ==> Get(r, j) == Get(t, j)
  {
    if HasKey(t, k) then t else AppendGet(t, k, v); t + [(k, v)]
  }

  /** `t.remove(k)`: drop the entry, keep the order of the rest. */
  function Remove<V>(t: seq<(string, V)>, k: string): (r: seq<(string, V)>)
    ensures !HasKey(r, k)
    ensures forall j :: j != k ==> Get(r, j) == Get(t, j)
    ensures |r| <= |t|
  {
    if |t| == 0 then []
    else if t[0].0 == k then Remove(t[1..], k)
    else [t[0]] + Remove(t[1..], k)
  }

  /** Removing an absent key changes nothing. */
  lemma {:induction false} RemoveAbsent<V>(t: seq<(string, V)>, k: string)
    requires !HasKey(t, k)
    ensures Remove(t, k) == t
    decreases |t|
  {
    if |t| > 0 {
      assert Keys(t)[0] == t[0].0;
      RemoveAbsent(t[1..], k);
    }
  }

  /** Removing a key never introduces one. */
  lemma {:induction false} RemoveKeysShrink<V>(t: seq<(string, V)>, k: string)
    ensures forall j :: HasKey(Remove(t, k), j) ==> HasKey(t, j)
  {
    forall j | HasKey(Remove(t, k), j) ensures HasKey(t, j) {
      assert Get(Remove(t, k), j).Some?;
    }
  }

  /** Writing back the value a key already has changes nothing. */
  lemma {:induction false} SetToCurrent<V>(t: seq<(string, V)>, k: string)
    requires HasKey(t, k)
    ensures Set(t, k, Get(t, k).value) == t
    decreases |t|
  {
    if t[0].0 != k {
      SetToCurrent(t[1..], k);
      assert [t[0]] + t[1..] == t;
    } else {
      assert [(k, t[0].1)] + t[1..] == t;
    }
  }

  lemma {:induction false} AppendGet<V>(t: seq<(string, V)>, k: string, v: V)
    requires !HasKey(t, k)
    ensures Get(t + [(k, v)], k) == Some(v)
    ensures forall j :: j != k ==> Get(t + [(k, v)], j) == Get(t, j)
    ensures Keys(t + [(k, v)]) == Keys(t) + [k]
    decreases |t|
  {
    if |t| > 0 {
      assert (t + [(k, v)])[1..] == t[1..] + [(k, v)];
      AppendGet(t[1..], k, v);
    }
  }

  lemma {:induction false} ReplaceKeepsDistinct<V>(t: seq<(string, V)>, k: string, v: V)
    requires DistinctKeys(t)
    ensures DistinctKeys(Replace(t, k, v))
  {
    var r := Replace(t, k, v);
    assert Keys(r) == Keys(t);
    forall i, j | 0 <= i < j < |r| ensures r[i].0 != r[j].0 {
      assert Keys(r)[i] == Keys(t)[i] && Keys(r)[j] == Keys(t)[j];
    }
  }

  lemma {:induction false} SetKeepsDistinct<V>(t: seq<(string, V)>, k: string, v: V)
    requires DistinctKeys(t)
    ensures DistinctKeys(Set(t, k, v))
  {
    if HasKey(t, k) {
      ReplaceKeepsDistinct(t, k, v);
    } else {
      var r := t + [(k, v)];
      forall i, j | 0 <= i < j < |r| ensures r[i].0 != r[j].0 {
        if j == |t| {
          assert Keys(t)[i] == t[i].0;
        }
      }
    }
  }
}
