/**
 * A java.util.TreeMap<String, String> as the sequence of its entries in
 * iteration order: keys strictly ascending under String.compareTo.
 */
module TreeMaps {
  import opened JavaStrings

  type Entry = (string, string)

  /** The keys of a sequence of entries. */
  function Keys(es: seq<Entry>): set<string> {
    if es == [] then {} else {es[0].0} + Keys(es[1..])
  }

  /** Every key comes before all keys after it: the order a TreeMap iterates in. */
  predicate Sorted(es: seq<Entry>) {
    es == [] || ((forall k :: k in Keys(es[1..]) ==> Less(es[0].0, k)) && Sorted(es[1..]))
  }

  /** The map a sequence of entries stands for. */
  function ToMap(es: seq<Entry>): (m: map<string, string>)
    ensures m.Keys == Keys(es)
  {
    if es == [] then map[] else ToMap(es[1..])[es[0].0 := es[0].1]
  }

  /** `TreeMap.put(k, v)`: the entry for `k` is replaced, or a new one is inserted in key order. */
  function Put(es: seq<Entry>, k: string, v: string): (r: seq<Entry>)
    ensures Keys(r) == Keys(es) + {k}
  {
    if es == [] then [(k, v)]
    else if es[0].0 == k then
      assert ([(k, v)] + es[1..])[1..] == es[1..];
      [(k, v)] + es[1..]
    else if Less(k, es[0].0) then
      assert ([(k, v)] + es)[1..] == es;
      [(k, v)] + es
    else
      var rest := Put(es[1..], k, v);
      assert ([es[0]] + rest)[1..] == rest;
      [es[0]] + rest
  }

  /** `put` keeps the entries in key order. */
  lemma {:induction false} PutSorted(es: seq<Entry>, k: string, v: string)
    requires Sorted(es)
    ensures Sorted(Put(es, k, v))
  {
    if es != [] {
      var r := Put(es, k, v);
      if es[0].0 == k {
        assert r[1..] == es[1..];
      } else if Less(k, es[0].0) {
        assert r[1..] == es;
        forall x | x in Keys(es) ensures Less(k, x) {
          if x != es[0].0 { LessTransitive(k, es[0].0, x); }
        }
      } else {
        LessTotal(k, es[0].0);
        PutSorted(es[1..], k, v);
        assert r[1..] == Put(es[1..], k, v);
      }
    }
  }

  /** `put` changes the map at `k` and nowhere else. */
  lemma {:induction false} PutToMap(es: seq<Entry>, k: string, v: string)
    ensures ToMap(Put(es, k, v)) == ToMap(es)[k := v]
  {
    if es != [] {
      var r := Put(es, k, v);
      if es[0].0 == k {
        assert r[1..] == es[1..];
        assert ToMap(r) == ToMap(es[1..])[k := v];
      } else if Less(k, es[0].0) {
        assert r[1..] == es;
      } else {
        var rest := Put(es[1..], k, v);
        PutToMap(es[1..], k, v);
        assert r[1..] == rest;
        assert ToMap(r) == ToMap(rest)[es[0].0 := es[0].1];
        assert ToMap(r) == ToMap(es[1..])[k := v][es[0].0 := es[0].1];
      }
    }
  }

  /** Position `i` of a sorted sequence holds a key below every later one. */
  lemma {:induction false} SortedAt(es: seq<Entry>, i: int, j: int)
    requires Sorted(es) && 0 <= i < j < |es|
    ensures Less(es[i].0, es[j].0)
    decreases i
  {
    if i == 0 {
      KeysAt(es[1..], j - 1);
    } else {
      SortedAt(es[1..], i - 1, j - 1);
    }
  }

  lemma {:induction false} KeysAt(es: seq<Entry>, i: int)
    requires 0 <= i < |es|
    ensures es[i].0 in Keys(es)
    decreases i
  {
    if i > 0 { KeysAt(es[1..], i - 1); }
  }

  /** Every key of a sequence of entries stands at some position. */
  lemma {:induction false} KeyIndex(es: seq<Entry>, k: string) returns (i: nat)
    requires k in Keys(es)
    ensures i < |es| && es[i].0 == k
  {
    if es[0].0 == k {
      i := 0;
    } else {
      var j := KeyIndex(es[1..], k);
      i := j + 1;
    }
  }

  /** In a sorted sequence the map holds, for the key at each position, the value beside it. */
  lemma {:induction false} ToMapAt(es: seq<Entry>, i: int)
    requires Sorted(es) && 0 <= i < |es|
    ensures es[i].0 in ToMap(es) && ToMap(es)[es[i].0] == es[i].1
    decreases i
  {
    if i > 0 {
      ToMapAt(es[1..], i - 1);
      SortedAt(es, 0, i);
      LessIrreflexive(es[0].0);
    }
  }

  /**
   * A map has one sorted sequence of entries: the TreeMap's iteration order
   * does not depend on the order the entries were put in.
   */
  lemma {:induction false} SortedUnique(a: seq<Entry>, b: seq<Entry>)
    requires Sorted(a) && Sorted(b) && ToMap(a) == ToMap(b)
    ensures a == b
    decreases |a|
  {
    if a != [] && b != [] {
      var ka, kb := a[0].0, b[0].0;
      if ka != kb {
        assert ka in Keys(b) && kb in Keys(a);
        assert Less(kb, ka) by { LessIrreflexive(ka); }
        assert Less(ka, kb) by { LessIrreflexive(kb); }
        LessAsymmetric(ka, kb);
      }
      assert ka == kb;
      LessIrreflexive(ka);
      assert ka !in Keys(a[1..]) && ka !in Keys(b[1..]);
      assert ToMap(a[1..]) == ToMap(a) - {ka};
      assert ToMap(b[1..]) == ToMap(b) - {ka};
      SortedUnique(a[1..], b[1..]);
      assert a[0] == b[0];
      assert a == [a[0]] + a[1..] && b == [b[0]] + b[1..];
    }
  }
}
