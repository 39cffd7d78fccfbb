/** Insertion-ordered string-keyed maps, the model of Java's `LinkedHashMap`
    (and of the swagger containers built on it: `Paths`, `Content`,
    `ApiResponses`, `Scopes`, `ServerVariables`, extension maps). `put` on a
    present key replaces the value and keeps the key's position; on a new key
    it appends. */
module OrderedMaps {
  import opened Wrappers

  type OMap<V> = seq<(string, V)>

  function Keys<V>(m: OMap<V>): set<string> {
    set i | 0 <= i < |m| :: m[i].0
  }

  lemma KeysCons<V>(e: (string, V), t: OMap<V>)
    ensures Keys([e] + t) == {e.0} + Keys(t)
  {
    var r := [e] + t;
    assert r[0] == e;
    assert e.0 in Keys(r);
    forall x | x in Keys(r) ensures x in {e.0} + Keys(t) {
      var i :| 0 <= i < |r| && r[i].0 == x;
      if i > 0 { assert t[i - 1] == r[i]; }
    }
    forall x | x in Keys(t) ensures x in Keys(r) {
      var i :| 0 <= i < |t| && t[i].0 == x;
      assert r[i + 1] == t[i];
    }
  }

  lemma KeysAppend<V>(a: OMap<V>, b: OMap<V>)
    ensures Keys(a + b) == Keys(a) + Keys(b)
  {
    var r := a + b;
    forall x | x in Keys(r) ensures x in Keys(a) + Keys(b) {
      var i :| 0 <= i < |r| && r[i].0 == x;
      if i >= |a| { assert b[i - |a|] == r[i]; } else { assert a[i] == r[i]; }
    }
    forall x | x in Keys(a) + Keys(b) ensures x in Keys(r) {
      if x in Keys(a) {
        var i :| 0 <= i < |a| && a[i].0 == x;
        assert r[i] == a[i];
      } else {
        var i :| 0 <= i < |b| && b[i].0 == x;
        assert r[|a| + i] == b[i];
      }
    }
  }

  predicate DistinctKeys<V>(m: OMap<V>) {
    forall i, j :: 0 <= i < j < |m| ==> m[i].0 != m[j].0
  }

  function KeySeq<V>(m: OMap<V>): (r: seq<string>)
    ensures |r| == |m|
    ensures forall i :: 0 <= i < |m| ==> r[i] == m[i].0
  {
    seq(|m|, i requires 0 <= i < |m| => m[i].0)
  }

  /** `map.get(k)`: the value of the first entry with key `k`. */
  function Get<V>(m: OMap<V>, k: string): (r: Option<V>)
    ensures r.Some? <==> k in Keys(m)
  {
    if |m| == 0 then None
    else if m[0].0 == k then Some(m[0].1)
    else
      KeysCons(m[0], m[1..]);
      assert [m[0]] + m[1..] == m;
      Get(m[1..], k)
  }

  /** `map.put(k, v)`. */
  function Put<V>(m: OMap<V>, k: string, v: V): (r: OMap<V>)
    ensures Keys(r) == Keys(m) + {k}
    ensures k in Keys(m) ==> |r| == |m| && KeySeq(r) == KeySeq(m)
    ensures k !in Keys(m) ==> r == m + [(k, v)]
  {
    if |m| == 0 then
      var r := [(k, v)];
      assert r[0].0 == k;
      assert Keys(r) == {k};
      r
    else if m[0].0 == k then
      ReplaceHead(m, k, v);
      [(k, v)] + m[1..]
    else
      var t := Put(m[1..], k, v);
      PutBehindHead(m, k, v, t);
      [m[0]] + t
  }

  /** Replacing the first entry's value keeps the keys and their order. */
  lemma ReplaceHead<V>(m: OMap<V>, k: string, v: V)
    requires |m| > 0 && m[0].0 == k
    ensures Keys([(k, v)] + m[1..]) == Keys(m)
    ensures KeySeq([(k, v)] + m[1..]) == KeySeq(m)
  {
    KeysCons(m[0], m[1..]);
    KeysCons((k, v), m[1..]);
    assert [m[0]] + m[1..] == m;
  }

  /** A `put` into the entries after a first entry with another key. */
  lemma PutBehindHead<V>(m: OMap<V>, k: string, v: V, t: OMap<V>)
    requires |m| > 0 && m[0].0 != k
    requires Keys(t) == Keys(m[1..]) + {k}
    requires k in Keys(m[1..]) ==> |t| == |m[1..]| && KeySeq(t) == KeySeq(m[1..])
    requires k !in Keys(m[1..]) ==> t == m[1..] + [(k, v)]
    ensures Keys([m[0]] + t) == Keys(m) + {k}
    ensures k in Keys(m) ==> |[m[0]] + t| == |m| && KeySeq([m[0]] + t) == KeySeq(m)
    ensures k !in Keys(m) ==> [m[0]] + t == m + [(k, v)]
  {
    KeysCons(m[0], m[1..]);
    KeysCons(m[0], t);
    assert [m[0]] + m[1..] == m;
    if k in Keys(m) {
      KeySeqCons(m, t);
    }
  }

  /** Equal key sequences after the same first entry. */
  lemma KeySeqCons<V>(m: OMap<V>, t: OMap<V>)
    requires |m| > 0 && |t| == |m| - 1 && KeySeq(t) == KeySeq(m[1..])
    ensures KeySeq([m[0]] + t) == KeySeq(m)
  {
    var r := [m[0]] + t;
    forall i | 0 <= i < |m| ensures KeySeq(r)[i] == KeySeq(m)[i] {
      if i > 0 {
        assert KeySeq(t)[i - 1] == KeySeq(m[1..])[i - 1];
      }
    }
  }

  /** A `put` is visible to `get`, and leaves every other key alone. */
  lemma {:induction false} GetPut<V>(m: OMap<V>, k: string, v: V, k': string)
    ensures Get(Put(m, k, v), k') == if k' == k then Some(v) else Get(m, k')
  {
    if |m| > 0 && m[0].0 != k {
      GetPut(m[1..], k, v, k');
      assert Put(m, k, v)[1..] == Put(m[1..], k, v);
    }
  }

  /** `put` keeps keys distinct. */
  lemma PutDistinct<V>(m: OMap<V>, k: string, v: V)
    requires DistinctKeys(m)
    ensures DistinctKeys(Put(m, k, v))
  {
    var r := Put(m, k, v);
    if k in Keys(m) {
      assert forall i :: 0 <= i < |r| ==> r[i].0 == KeySeq(r)[i] == KeySeq(m)[i];
    }
  }

  /** `map.putAll` of a list of entries, in list order. */
  function PutAll<V>(m: OMap<V>, entries: seq<(string, V)>): (r: OMap<V>)
    ensures Keys(r) == Keys(m) + Keys(entries)
    decreases |entries|
  {
    if |entries| == 0 then m
    else
      KeysCons(entries[0], entries[1..]);
      assert [entries[0]] + entries[1..] == entries;
      PutAll(Put(m, entries[0].0, entries[0].1), entries[1..])
  }

  /** Building a map from entries with distinct keys reproduces the entries. */
  lemma {:induction false} PutAllFresh<V>(m: OMap<V>, entries: seq<(string, V)>)
    requires DistinctKeys(entries)
    requires Keys(m) !! Keys(entries)
    ensures PutAll(m, entries) == m + entries
    decreases |entries|
  {
    if |entries| > 0 {
      var e := entries[0];
      var rest := entries[1..];
      TailDistinct(entries);
      PutFresh(m, e, rest);
      PutAllFresh(m + [e], rest);
      AppendCons(m, entries);
    }
  }

  lemma AppendCons<T>(m: seq<T>, entries: seq<T>)
    requires |entries| > 0
    ensures (m + [entries[0]]) + entries[1..] == m + entries
  {
    assert entries == [entries[0]] + entries[1..];
  }

  /** One step of `PutAllFresh`: a fresh key is appended. */
  lemma PutFresh<V>(m: OMap<V>, e: (string, V), rest: seq<(string, V)>)
    requires e.0 !in Keys(m) && e.0 !in Keys(rest) && Keys(m) !! Keys(rest)
    ensures Put(m, e.0, e.1) == m + [e]
    ensures PutAll(m, [e] + rest) == PutAll(m + [e], rest)
    ensures Keys(m + [e]) !! Keys(rest)
  {
    assert ([e] + rest)[0] == e;
    assert ([e] + rest)[1..] == rest;
  }

  /** The tail of a map with distinct keys has distinct keys, none of them the head's. */
  lemma TailDistinct<V>(entries: OMap<V>)
    requires |entries| > 0 && DistinctKeys(entries)
    ensures DistinctKeys(entries[1..])
    ensures entries[0].0 !in Keys(entries[1..])
    ensures Keys(entries) == {entries[0].0} + Keys(entries[1..])
  {
    var rest := entries[1..];
    assert [entries[0]] + rest == entries;
    KeysCons(entries[0], rest);
    forall i, j | 0 <= i < j < |rest| ensures rest[i].0 != rest[j].0 {
      assert rest[i] == entries[i + 1] && rest[j] == entries[j + 1];
    }
    forall i | 0 <= i < |rest| ensures rest[i].0 != entries[0].0 {
      assert rest[i] == entries[i + 1];
    }
  }

  /** Every value stored by `put` is the new one or one that was there. */
  lemma {:induction false} PutValues<V>(m: OMap<V>, k: string, v: V, i: nat)
    requires i < |Put(m, k, v)|
    ensures Put(m, k, v)[i].1 == v || exists j :: 0 <= j < |m| && m[j].1 == Put(m, k, v)[i].1
  {
    var r := Put(m, k, v);
    if |m| > 0 && m[0].0 != k && i > 0 {
      PutValues(m[1..], k, v, i - 1);
      assert r[i] == Put(m[1..], k, v)[i - 1];
      if Put(m[1..], k, v)[i - 1].1 != v {
        var j :| 0 <= j < |m[1..]| && m[1..][j].1 == Put(m[1..], k, v)[i - 1].1;
        assert m[j + 1].1 == r[i].1;
      }
    } else if |m| > 0 && i > 0 {
      assert r[i] == m[i];
    }
  }

  /** Whatever holds of every value put in holds of every value in the result. */
  lemma {:induction false} PutAllValues<V>(m: OMap<V>, entries: OMap<V>, P: V -> bool)
    requires forall e | e in m :: P(e.1)
    requires forall e | e in entries :: P(e.1)
    ensures forall e | e in PutAll(m, entries) :: P(e.1)
    decreases |entries|
  {
    if |entries| > 0 {
      var m' := Put(m, entries[0].0, entries[0].1);
      forall e | e in m' ensures P(e.1) {
        var i :| 0 <= i < |m'| && m'[i] == e;
        PutValues(m, entries[0].0, entries[0].1, i);
      }
      assert forall e | e in entries[1..] :: e in entries;
      PutAllValues(m', entries[1..], P);
    }
  }

  /** A key no entry uses keeps its value through `putAll`. */
  lemma {:induction false} PutAllKept<V>(m: OMap<V>, entries: OMap<V>, k: string)
    requires forall j :: 0 <= j < |entries| ==> entries[j].0 != k
    ensures Get(PutAll(m, entries), k) == Get(m, k)
    decreases |entries|
  {
    if |entries| > 0 {
      GetPut(m, entries[0].0, entries[0].1, k);
      assert forall j :: 0 <= j < |entries[1..]| ==> entries[1..][j] == entries[j + 1];
      PutAllKept(Put(m, entries[0].0, entries[0].1), entries[1..], k);
    }
  }

  /** An entry whose key no later entry reuses is what `putAll` leaves
      under that key. */
  lemma {:induction false} PutAllLands<V>(m: OMap<V>, entries: OMap<V>, i: nat)
    requires i < |entries|
    requires forall j :: i < j < |entries| ==> entries[j].0 != entries[i].0
    ensures Get(PutAll(m, entries), entries[i].0) == Some(entries[i].1)
    decreases |entries|
  {
    var m' := Put(m, entries[0].0, entries[0].1);
    var rest := entries[1..];
    assert forall j :: 0 <= j < |rest| ==> rest[j] == entries[j + 1];
    if i == 0 {
      GetPut(m, entries[0].0, entries[0].1, entries[0].0);
      PutAllKept(m', rest, entries[0].0);
    } else {
      PutAllLands(m', rest, i - 1);
    }
  }
}
