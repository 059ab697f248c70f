/**
  A Python `dict` with string keys, modelled as the sequence of its items in
  insertion order (the order `dict.items()` yields them).
 */
module PyDict {
  import opened Wrappers

  type Dict<V> = seq<(string, V)>

  /** The keys in insertion order. */
  function Keys<V>(d: Dict<V>): (ks: seq<string>)
    ensures |ks| == |d|
    ensures forall i :: 0 <= i < |d| ==> ks[i] == d[i].0
  {
    seq(|d|, i requires 0 <= i < |d| => d[i].0)
  }

  predicate Distinct(ks: seq<string>) {
    forall i, j :: 0 <= i < j < |ks| ==> ks[i] != ks[j]
  }

  /** A real Python dict never holds a key twice. */
  predicate IsDict<V>(d: Dict<V>) {
    Distinct(Keys(d))
  }

  /** The position of key `k`, if present (the first one, should `d` repeat it). */
  function Find<V>(d: Dict<V>, k: string): (r: Option<nat>)
    ensures r.Some? ==> r.value < |d| && d[r.value].0 == k
    ensures r.Some? ==> forall j :: 0 <= j < r.value ==> d[j].0 != k
    ensures r.None? <==> k !in Keys(d)
  {
    if d == [] then None
    else if d[0].0 == k then Some(0)
    else match Find(d[1..], k)
      case None => None
      case Some(i) => Some(i + 1)
  }

  /** The position of a key known to be present. */
  function IndexOf<V>(d: Dict<V>, k: string): (i: nat)
    requires k in Keys(d)
    ensures i < |d| && d[i].0 == k
    ensures Get(d, k) == Some(d[i].1)
  {
    Find(d, k).value
  }

  /** `d[k]` for a key known to be present. */
  function At<V>(d: Dict<V>, k: string): (v: V)
    requires k in Keys(d)
    ensures Get(d, k) == Some(v)
  {
    d[IndexOf(d, k)].1
  }

  /** `d.get(k)`. */
  function Get<V>(d: Dict<V>, k: string): Option<V> {
    match Find(d, k)
    case None => None
    case Some(i) => Some(d[i].1)
  }

  /** `d.get(k, default)`. */
  function GetOr<V>(d: Dict<V>, k: string, default: V): V {
    match Get(d, k)
    case None => default
    case Some(v) => v
  }

  /**
    `d[k] = v`: an existing key keeps its position and takes the new value,
    a new key goes at the end.
   */
  function Put<V>(d: Dict<V>, k: string, v: V): (r: Dict<V>)
    ensures k in Keys(d) ==> |r| == |d| && Keys(r) == Keys(d)
    ensures k !in Keys(d) ==> r == d + [(k, v)]
    ensures Get(r, k) == Some(v)
    ensures forall k' :: k' != k ==> Get(r, k') == Get(d, k')
  {
    match Find(d, k)
    case None =>
      assert Find(d + [(k, v)], k) == Some(|d|) by { FindAppend(d, k, v, k); }
      forall k' | k' != k ensures Get(d + [(k, v)], k') == Get(d, k') {
        FindAppend(d, k, v, k');
      }
      d + [(k, v)]
    case Some(i) =>
      var r := d[i := (k, v)];
      assert Keys(r) == Keys(d);
      assert Find(r, k) == Some(i) by { FindPositional(r, k, i); }
      forall k' | k' != k ensures Get(r, k') == Get(d, k') {
        FindUpdate(d, i, k, v, k');
      }
      r
  }

  /** Assigning to a present key replaces its item where it stands. */
  lemma PutExisting<V>(d: Dict<V>, k: string, v: V)
    requires k in Keys(d)
    ensures Put(d, k, v) == d[IndexOf(d, k) := (k, v)]
  {
  }

  /** The first index holding `k` is exactly `i`. */
  lemma FindPositional<V>(d: Dict<V>, k: string, i: nat)
    requires i < |d| && d[i].0 == k
    requires forall j :: 0 <= j < i ==> d[j].0 != k
    ensures Find(d, k) == Some(i)
  {
    var r := Find(d, k);
    assert k in Keys(d);
    if r.value < i {
    } else if r.value > i {
    }
  }

  lemma {:induction false} FindAppend<V>(d: Dict<V>, k: string, v: V, k': string)
    requires k !in Keys(d)
    ensures Find(d + [(k, v)], k') == if k' == k then Some(|d|) else Find(d, k')
  {
    var e := d + [(k, v)];
    if k' == k {
      FindPositional(e, k, |d|);
    } else {
      match Find(d, k')
      case None =>
        assert k' !in Keys(e);
      case Some(i) =>
        FindPositional(e, k', i);
    }
  }

  lemma FindUpdate<V>(d: Dict<V>, i: nat, k: string, v: V, k': string)
    requires i < |d| && d[i].0 == k && k' != k
    ensures Find(d[i := (k, v)], k') == Find(d, k')
  {
    var r := d[i := (k, v)];
    match Find(d, k')
    case None =>
      assert Keys(r) == Keys(d);
    case Some(j) =>
      FindPositional(r, k', j);
  }

  /** Writing a key keeps a dict a dict. */
  lemma PutIsDict<V>(d: Dict<V>, k: string, v: V)
    requires IsDict(d)
    ensures IsDict(Put(d, k, v))
  {
    if k !in Keys(d) {
      var r := Put(d, k, v);
      forall i, j | 0 <= i < j < |r| ensures Keys(r)[i] != Keys(r)[j] {
        if j == |d| {
          assert Keys(r)[i] == Keys(d)[i];
        } else {
          assert Keys(r)[i] == Keys(d)[i] && Keys(r)[j] == Keys(d)[j];
        }
      }
    }
  }

  /** After `d[k] = v` the keys are those of `d` and `k`. */
  lemma PutKeys<V>(d: Dict<V>, k: string, v: V)
    ensures forall k' :: k' in Keys(Put(d, k, v)) <==> k' == k || k' in Keys(d)
  {
    if k !in Keys(d) {
      KeysConcat(d, [(k, v)]);
    }
  }

  lemma KeysConcat<V>(a: Dict<V>, b: Dict<V>)
    ensures Keys(a + b) == Keys(a) + Keys(b)
  {
  }

  /** A lookup in `a + b` finds the key in `a` if it is there, otherwise in `b`. */
  lemma {:induction false} GetConcat<V>(a: Dict<V>, b: Dict<V>, k: string)
    ensures Get(a + b, k) == if k in Keys(a) then Get(a, k) else Get(b, k)
  {
    if a == [] {
      assert a + b == b;
    } else if a[0].0 == k {
      assert (a + b)[0] == a[0];
    } else {
      GetConcat(a[1..], b, k);
      assert (a + b)[1..] == a[1..] + b;
      assert k in Keys(a) <==> k in Keys(a[1..]);
      GetTail(a + b, k);
      GetTail(a, k);
    }
  }

  /** A key other than the first one is looked up in the rest. */
  lemma GetTail<V>(d: Dict<V>, k: string)
    requires d != [] && d[0].0 != k
    ensures Get(d, k) == Get(d[1..], k)
  {
  }

  /** Appending at most one item under a new key `k`: lookups of other keys are unaffected. */
  lemma AppendOptional<V>(a: Dict<V>, p: Dict<V>, k: string)
    requires |p| <= 1 && (p != [] ==> p[0].0 == k) && k !in Keys(a)
    ensures forall k' :: k' in Keys(a + p) <==> k' in Keys(a) || (p != [] && k' == k)
    ensures Get(a + p, k) == if p == [] then None else Some(p[0].1)
    ensures forall k' :: k' != k ==> Get(a + p, k') == Get(a, k')
  {
    if p == [] {
      assert a + p == a;
    } else {
      assert p == [(k, p[0].1)];
      PutKeys(a, k, p[0].1);
    }
  }
}
