/**
 * What one bucket of kmod's hash table holds, as a value: a sequence of
 * (key, value) entries kept strictly ascending by strcmp. The operations
 * of shared/hash.c are specified against these functions: Get is what
 * hash_find looks up, Upsert what hash_add stores, Remove what hash_del
 * leaves, Flatten the order hash_iter_next walks the buckets in.
 */
module Buckets {
  import opened Wrappers
  import opened KeyOrder

  datatype Entry<V> = Entry(key: Key, value: V)

  /** Strictly ascending keys, so no key occurs twice. */
  ghost predicate Sorted<V>(s: seq<Entry<V>>) {
    forall i, j :: 0 <= i < j < |s| ==> Less(s[i].key, s[j].key)
  }

  /** The value stored under k, scanning from the front. */
  function Get<V>(s: seq<Entry<V>>, k: Key): Option<V> {
    if s == [] then None
    else if s[0].key == k then Some(s[0].value)
    else Get(s[1..], k)
  }

  /** s with e stored under e.key: the old entry replaced, or e inserted in order. */
  function Upsert<V>(s: seq<Entry<V>>, e: Entry<V>): seq<Entry<V>> {
    if s == [] then [e]
    else if Strcmp(e.key, s[0].key) == 0 then [e] + s[1..]
    else if Strcmp(e.key, s[0].key) < 0 then [e] + s
    else [s[0]] + Upsert(s[1..], e)
  }

  /** s without the entry stored under k. */
  function Remove<V>(s: seq<Entry<V>>, k: Key): seq<Entry<V>> {
    if s == [] then []
    else if s[0].key == k then s[1..]
    else [s[0]] + Remove(s[1..], k)
  }

  /** The entries of all buckets, bucket by bucket. */
  function Flatten<V>(bs: seq<seq<Entry<V>>>): seq<Entry<V>> {
    if bs == [] then [] else Flatten(bs[..|bs| - 1]) + bs[|bs| - 1]
  }

  function Values<V>(s: seq<Entry<V>>): (vs: seq<V>)
    ensures |vs| == |s| && forall i :: 0 <= i < |s| ==> vs[i] == s[i].value
  {
    seq(|s|, i requires 0 <= i < |s| => s[i].value)
  }

  /** The values of two runs of entries, one after the other. */
  lemma ValuesAppend<V>(a: seq<Entry<V>>, b: seq<Entry<V>>)
    ensures Values(a + b) == Values(a) + Values(b)
  {
  }

  // ---------------------------------------------------------------------
  // Lookup

  /** Get finds k exactly when some entry holds it. */
  lemma {:induction false} GetNone<V>(s: seq<Entry<V>>, k: Key)
    ensures Get(s, k).None? <==> forall i :: 0 <= i < |s| ==> s[i].key != k
  {
    if s != [] {
      GetNone(s[1..], k);
      assert forall i :: 1 <= i < |s| ==> s[i] == s[1..][i - 1];
    }
  }

  /** What Get finds is stored in s. */
  lemma {:induction false} GetIn<V>(s: seq<Entry<V>>, k: Key)
    requires Get(s, k).Some?
    ensures Entry(k, Get(s, k).value) in s
  {
    if s[0].key != k {
      GetIn(s[1..], k);
    }
  }

  /** In a sorted bucket, the entry holding k is the one Get returns. */
  lemma {:induction false} GetAt<V>(s: seq<Entry<V>>, i: nat)
    requires Sorted(s) && i < |s|
    ensures Get(s, s[i].key) == Some(s[i].value)
  {
    if i > 0 {
      LessTotal(s[0].key, s[i].key);
      GetAt(s[1..], i - 1);
    }
  }

  // ---------------------------------------------------------------------
  // Upsert (hash_add)

  /** After an upsert, e.key maps to e.value and every other key is untouched. */
  lemma {:induction false} GetUpsert<V>(s: seq<Entry<V>>, e: Entry<V>, k: Key)
    ensures Get(Upsert(s, e), k) == if k == e.key then Some(e.value) else Get(s, k)
  {
    if s != [] {
      StrcmpZero(e.key, s[0].key);
      if Strcmp(e.key, s[0].key) > 0 {
        GetUpsert(s[1..], e, k);
      }
    }
  }

  /** Everything in an upsert came from s or is e. */
  lemma {:induction false} UpsertFrom<V>(s: seq<Entry<V>>, e: Entry<V>, x: Entry<V>)
    requires x in Upsert(s, e)
    ensures x == e || x in s
  {
    if s != [] && Strcmp(e.key, s[0].key) > 0 && x != s[0] {
      UpsertFrom(s[1..], e, x);
    }
  }

  /** An upsert keeps the bucket sorted. */
  lemma {:induction false} UpsertSorted<V>(s: seq<Entry<V>>, e: Entry<V>)
    requires Sorted(s)
    ensures Sorted(Upsert(s, e))
  {
    if s != [] {
      var c := Strcmp(e.key, s[0].key);
      StrcmpZero(e.key, s[0].key);
      StrcmpFlip(e.key, s[0].key);
      if c == 0 {
        var r := Upsert(s, e);
        assert r[0].key == s[0].key && r[1..] == s[1..];
        assert forall i :: 0 <= i < |r| ==> r[i].key == s[i].key;
      } else if c < 0 {
        var r := Upsert(s, e);
        forall i, j | 0 <= i < j < |r| ensures Less(r[i].key, r[j].key) {
          if i == 0 {
            if j > 1 { LessTrans(e.key, s[0].key, s[j - 1].key); }
          }
        }
      } else {
        UpsertSorted(s[1..], e);
        var t := Upsert(s[1..], e);
        var r := [s[0]] + t;
        forall i, j | 0 <= i < j < |r| ensures Less(r[i].key, r[j].key) {
          if i == 0 {
            assert r[j] in t;
            UpsertFrom(s[1..], e, r[j]);
          }
        }
      }
    }
  }

  /** Upserting a new key adds one entry; replacing a key keeps the length. */
  lemma {:induction false} UpsertLength<V>(s: seq<Entry<V>>, e: Entry<V>)
    requires Sorted(s)
    ensures |Upsert(s, e)| == |s| + (if Get(s, e.key).None? then 1 else 0)
  {
    if s != [] {
      var c := Strcmp(e.key, s[0].key);
      StrcmpZero(e.key, s[0].key);
      if c < 0 {
        GetNone(s, e.key);
        forall i | 0 <= i < |s| ensures s[i].key != e.key {
          if i > 0 { LessTrans(e.key, s[0].key, s[i].key); LessTotal(e.key, s[i].key); }
        }
      } else if c > 0 {
        UpsertLength(s[1..], e);
      }
    }
  }

  /**
   * The linear scan of hash_add: if every entry before p sorts before e.key
   * and the entry at p (if any) sorts after it, the upsert inserts e at p.
   */
  lemma {:induction false} UpsertInsertAt<V>(s: seq<Entry<V>>, e: Entry<V>, p: nat)
    requires p <= |s|
    requires forall j :: 0 <= j < p ==> Less(s[j].key, e.key)
    requires p < |s| ==> Less(e.key, s[p].key)
    ensures Upsert(s, e) == s[..p] + [e] + s[p..]
  {
    if p == 0 {
      if s != [] { StrcmpFlip(e.key, s[0].key); }
    } else {
      StrcmpFlip(s[0].key, e.key);
      UpsertInsertAt(s[1..], e, p - 1);
      assert s[1..][..p - 1] == s[1..p] && s[1..][p - 1..] == s[p..];
      assert s[..p] == [s[0]] + s[1..p];
    }
  }

  /** ... and if the entry at p holds e.key, the upsert overwrites it in place. */
  lemma {:induction false} UpsertReplaceAt<V>(s: seq<Entry<V>>, e: Entry<V>, p: nat)
    requires p < |s| && s[p].key == e.key
    requires forall j :: 0 <= j < p ==> Less(s[j].key, e.key)
    ensures Upsert(s, e) == s[..p] + [e] + s[p + 1..]
  {
    if p == 0 {
      StrcmpZero(e.key, s[0].key);
    } else {
      StrcmpFlip(s[0].key, e.key);
      UpsertReplaceAt(s[1..], e, p - 1);
      assert s[1..][..p - 1] == s[1..p] && s[1..][p..] == s[p + 1..];
      assert s[..p] == [s[0]] + s[1..p];
    }
  }

  // ---------------------------------------------------------------------
  // Remove (hash_del)

  /** After a removal k is gone and every other key is untouched. */
  lemma {:induction false} GetRemove<V>(s: seq<Entry<V>>, k: Key, k': Key)
    requires Sorted(s)
    ensures Get(Remove(s, k), k') == if k' == k then None else Get(s, k')
  {
    if s != [] {
      if s[0].key == k {
        if k' == k {
          GetNone(s[1..], k);
          forall i | 1 <= i < |s| ensures s[i].key != k {
            LessTotal(s[0].key, s[i].key);
          }
        }
      } else {
        GetRemove(s[1..], k, k');
      }
    }
  }

  /** Removing the entry at i closes the gap: the memmove of hash_del. */
  lemma {:induction false} RemoveAt<V>(s: seq<Entry<V>>, i: nat)
    requires Sorted(s) && i < |s|
    ensures Remove(s, s[i].key) == s[..i] + s[i + 1..]
  {
    if i > 0 {
      LessTotal(s[0].key, s[i].key);
      RemoveAt(s[1..], i - 1);
      assert s[1..][..i - 1] == s[1..i] && s[1..][i..] == s[i + 1..];
      assert s[..i] == [s[0]] + s[1..i];
    }
  }

  /** Dropping one entry keeps a bucket sorted. */
  lemma DropSorted<V>(s: seq<Entry<V>>, i: nat)
    requires Sorted(s) && i < |s|
    ensures Sorted(s[..i] + s[i + 1..])
  {
    var r := s[..i] + s[i + 1..];
    forall a, b | 0 <= a < b < |r| ensures Less(r[a].key, r[b].key) {
      var a', b' := if a < i then a else a + 1, if b < i then b else b + 1;
      assert r[a] == s[a'] && r[b] == s[b'];
    }
  }

  // ---------------------------------------------------------------------
  // Flatten (hash_iter_next, hash_get_count, hash_free)

  /** Replacing one bucket changes the total by the difference in its size. */
  lemma {:induction false} FlattenUpdateLength<V>(bs: seq<seq<Entry<V>>>, i: nat, s: seq<Entry<V>>)
    requires i < |bs|
    ensures |Flatten(bs[i := s])| == |Flatten(bs)| - |bs[i]| + |s|
  {
    var n := |bs| - 1;
    if i < n {
      assert bs[i := s][..n] == bs[..n][i := s];
      FlattenUpdateLength(bs[..n], i, s);
    } else {
      assert bs[i := s][..n] == bs[..n];
    }
  }

  /** The first b buckets flatten to a prefix of the whole. */
  lemma {:induction false} FlattenPrefix<V>(bs: seq<seq<Entry<V>>>, b: nat)
    requires b <= |bs|
    ensures Flatten(bs[..b]) <= Flatten(bs)
  {
    if b < |bs| {
      var n := |bs| - 1;
      assert bs[..n][..b] == bs[..b];
      FlattenPrefix(bs[..n], b);
    } else {
      assert bs[..b] == bs;
    }
  }

  /** Every flattened entry comes from some bucket. */
  lemma {:induction false} FlattenMember<V>(bs: seq<seq<Entry<V>>>, x: Entry<V>)
    requires x in Flatten(bs)
    ensures exists i :: 0 <= i < |bs| && x in bs[i]
  {
    var n := |bs| - 1;
    if x !in bs[n] {
      FlattenMember(bs[..n], x);
      var i :| 0 <= i < n && x in bs[..n][i];
      assert x in bs[i];
    }
  }

  /** Every entry of a bucket is among the flattened entries. */
  lemma InFlatten<V>(bs: seq<seq<Entry<V>>>, i: nat, x: Entry<V>)
    requires i < |bs| && x in bs[i]
    ensures x in Flatten(bs)
  {
    var e :| 0 <= e < |bs[i]| && bs[i][e] == x;
    FlattenAt(bs, i, e);
  }

  /** One more bucket appends its entries. */
  lemma FlattenStep<V>(bs: seq<seq<Entry<V>>>, b: nat)
    requires b < |bs|
    ensures Flatten(bs[..b + 1]) == Flatten(bs[..b]) + bs[b]
  {
    assert bs[..b + 1][..b] == bs[..b];
  }

  /** Entry e of bucket b sits at offset |Flatten(bs[..b])| + e of the whole. */
  lemma FlattenAt<V>(bs: seq<seq<Entry<V>>>, b: nat, e: nat)
    requires b < |bs| && e < |bs[b]|
    ensures |Flatten(bs[..b])| + e < |Flatten(bs)|
    ensures Flatten(bs)[|Flatten(bs[..b])| + e] == bs[b][e]
  {
    FlattenStep(bs, b);
    FlattenPrefix(bs, b + 1);
  }
}
