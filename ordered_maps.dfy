/**
 * Python dictionaries (dict, defaultdict, OrderedDict) iterate their keys in the order the keys
 * were first inserted; assigning to an existing key keeps its place.
 */
module OrderedMaps {

  datatype OrderedMap<K(==), V> = OrderedMap(keys: seq<K>, values: map<K, V>)
  {
    /** The key list holds every key of the map exactly once. */
    ghost predicate Valid() {
      NoDuplicates(keys)
      && (forall k | k in values :: k in keys)
      && (forall i | 0 <= i < |keys| :: keys[i] in values)
    }

    /** d[k] = v */
    function Put(k: K, v: V): (r: OrderedMap<K, V>)
      ensures k in r.values && r.values[k] == v
      ensures forall j | j in values && j != k :: j in r.values && r.values[j] == values[j]
      ensures r.values.Keys == values.Keys + {k}
      ensures r.keys == (if k in values then keys else keys + [k])
    {
      if k in values then OrderedMap(keys, values[k := v]) else OrderedMap(keys + [k], values[k := v])
    }

    /** d[k] = v keeps every key listed exactly once. */
    lemma PutValid(k: K, v: V)
      requires Valid()
      ensures Put(k, v).Valid()
    {
      if k !in values {
        assert (keys + [k])[..|keys|] == keys;
      }
    }

    /** d.items(): every key with its value, in key order. */
    function Items(): (items: seq<(K, V)>)
      requires Valid()
      ensures |items| == |keys|
      ensures forall i | 0 <= i < |keys| :: items[i].0 == keys[i] && items[i].1 == values[keys[i]]
    {
      seq(|keys|, i requires 0 <= i < |keys| && Valid() => (keys[i], values[keys[i]]))
    }

    /** Storing a key's own value again changes nothing. */
    lemma PutSame(k: K)
      requires k in values
      ensures Put(k, values[k]) == this
    {
      assert values[k := values[k]] == values;
    }

    /** A second assignment to the same key overrides the first. */
    lemma PutPut(k: K, v: V, w: V)
      ensures Put(k, v).Put(k, w) == Put(k, w)
    {
      assert values[k := v][k := w] == values[k := w];
    }
  }

  /** No value occurs twice in xs, checked one appended value at a time. */
  predicate NoDuplicates<K(==)>(xs: seq<K>)
  {
    |xs| == 0 || (xs[|xs| - 1] !in xs[..|xs| - 1] && NoDuplicates(xs[..|xs| - 1]))
  }

  /** NoDuplicates means that any two positions hold different values. */
  lemma {:induction false} NoDuplicatesSpec<K>(xs: seq<K>)
    ensures NoDuplicates(xs) <==> forall i, j | 0 <= i < j < |xs| :: xs[i] != xs[j]
  {
    if |xs| > 0 {
      var n := |xs| - 1;
      NoDuplicatesSpec(xs[..n]);
      if NoDuplicates(xs) {
        forall i, j | 0 <= i < j < |xs|
          ensures xs[i] != xs[j]
        {
          if j == n {
            assert xs[i] == xs[..n][i];
          } else {
            assert xs[i] == xs[..n][i] && xs[j] == xs[..n][j];
          }
        }
      }
      if forall i, j | 0 <= i < j < |xs| :: xs[i] != xs[j] {
        assert forall i, j | 0 <= i < j < n :: xs[..n][i] != xs[..n][j];
        forall i | 0 <= i < n
          ensures xs[..n][i] != xs[n]
        {
        }
      }
    }
  }

  function Empty<K(==), V>(): (r: OrderedMap<K, V>)
    ensures r.Valid() && r.keys == [] && r.values == map[]
  {
    OrderedMap([], map[])
  }

  /** The distinct values of xs in the order of their first appearance. */
  function FirstSeen<K(==)>(xs: seq<K>): (d: seq<K>)
    ensures forall i, j | 0 <= i < j < |d| :: d[i] != d[j]
    ensures forall i | 0 <= i < |d| :: d[i] in xs
    ensures forall i | 0 <= i < |xs| :: xs[i] in d
  {
    if |xs| == 0 then []
    else
      var d := FirstSeen(xs[..|xs| - 1]);
      var x := xs[|xs| - 1];
      assert xs == xs[..|xs| - 1] + [x];
      if x in d then d else d + [x]
  }

  /** xs.index(x): the position of the first occurrence of x. */
  function First<K(==)>(xs: seq<K>, x: K): (i: nat)
    requires x in xs
    ensures i < |xs| && xs[i] == x
    ensures forall j | 0 <= j < i :: xs[j] != x
  {
    if xs[0] == x then 0 else 1 + First(xs[1..], x)
  }

  /** A value's first occurrence does not move when a value is appended. */
  lemma FirstPrefix<K>(ys: seq<K>, x: K, v: K)
    requires v in ys
    ensures First(ys + [x], v) == First(ys, v)
  {
    var xs := ys + [x];
    var a, b := First(ys, v), First(xs, v);
    assert xs[a] == v;
  }

  /** FirstSeen lists the values in the order of their first appearance in xs. */
  lemma {:induction false} FirstSeenOrdered<K>(xs: seq<K>)
    ensures forall i, j | 0 <= i < j < |FirstSeen(xs)| :: First(xs, FirstSeen(xs)[i]) < First(xs, FirstSeen(xs)[j])
  {
    if |xs| > 0 {
      var n := |xs| - 1;
      var ys, x := xs[..n], xs[n];
      assert xs == ys + [x];
      FirstSeenOrdered(ys);
      var d := FirstSeen(ys);
      forall i | 0 <= i < |d|
        ensures First(xs, d[i]) == First(ys, d[i]) < n
      {
        FirstPrefix(ys, x, d[i]);
      }
      if x !in d {
        FirstSeenHas(ys, x);
      }
    }
  }

  /** A further value is kept at the end exactly when it is new. */
  lemma FirstSeenSnoc<K>(xs: seq<K>, x: K)
    ensures FirstSeen(xs + [x]) == if x in xs then FirstSeen(xs) else FirstSeen(xs) + [x]
  {
    assert (xs + [x])[..|xs|] == xs;
  }

  /** FirstSeen keeps exactly the values of xs. */
  lemma FirstSeenHas<K>(xs: seq<K>, x: K)
    ensures x in FirstSeen(xs) <==> x in xs
  {
    if x in xs {
      var i :| 0 <= i < |xs| && xs[i] == x;
    }
  }

  /** A map whose keys were inserted in the order of xs, after d[x] = v, was inserted in the order of xs + [x]. */
  lemma PutFirstSeen<K, V>(d: OrderedMap<K, V>, xs: seq<K>, x: K, v: V)
    requires d.Valid() && d.keys == FirstSeen(xs)
    ensures d.Put(x, v).keys == FirstSeen(xs + [x])
  {
    FirstSeenSnoc(xs, x);
    FirstSeenHas(xs, x);
  }

  /** The first value seen is the first one kept. */
  lemma {:induction false} FirstSeenHead<K>(xs: seq<K>)
    requires |xs| > 0
    ensures |FirstSeen(xs)| > 0 && FirstSeen(xs)[0] == xs[0]
  {
    var n := |xs| - 1;
    if n > 0 {
      FirstSeenHead(xs[..n]);
      assert xs[..n][0] == xs[0];
    }
  }
}
