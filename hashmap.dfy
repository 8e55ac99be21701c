/**
 * kmod's string-keyed hash table (shared/hash.c): a power-of-two number
 * of buckets fixed at creation, each bucket a dynamic array of
 * (key, value) entries kept sorted by strcmp and grown and shrunk in steps
 * of hash->step slots.
 *
 * The table is a class with the fields of struct hash and its flexible
 * bucket array. Each bucket holds its live entries as a sequence (C's
 * entries[0 .. used)) and its allocated size `total`; realloc and memmove
 * become reassignments of that bucket. Ghost fields give the abstract
 * view: Contents (the live entries of each bucket), Capacity (each
 * bucket's total) and Freed (every value handed to free_value, in call
 * order).
 */
module HashMap {
  import opened Wrappers
  import opened KeyOrder
  import opened SuperFast
  import opened Bits
  import opened Buckets

  const ENOENT: int := 2
  const ENOMEM: int := 12
  const EEXIST: int := 17

  /** hash->step as hash_new sets it: n_buckets / 32, clamped to [4, 64]. */
  function StepFor(nBuckets: nat): (step: nat)
    ensures 4 <= step <= 64
    ensures 4 < step < 64 ==> step == nBuckets / 32
    ensures step == 4 <==> nBuckets / 32 <= 4
    ensures step == 64 <==> nBuckets / 32 >= 64
  {
    var s := nBuckets / 32;
    if s < 4 then 4 else if s > 64 then 64 else s
  }

  /** The bucket a hash value selects among n: hashval & (n_buckets - 1). */
  function Mask(hashval: bv32, n: nat): (i: nat)
    requires 1 <= n
    ensures i < n
  {
    BitAnd(hashval as nat, n - 1)
  }

  /** With a power-of-two bucket count the mask is the hash value modulo the count. */
  lemma MaskIsMod(hashval: bv32, n: nat)
    requires IsPow2(n)
    ensures Mask(hashval, n) == hashval as nat % n
  {
    BitAndLowMask(hashval as nat, n);
  }

  /** The bucket hash_add, hash_find and hash_del pick for key among n. */
  function BucketOf(key: Key, n: nat): (i: nat)
    requires 1 <= n
    ensures i < n
  {
    Mask(Digest(key), n)
  }

  /**
   * hash_del's new total for a bucket left with `used` entries: one step
   * more than the steps in use, when that frees at least one whole step
   * and the shrinking realloc succeeds; otherwise the old total.
   */
  function ShrunkTotal(used: nat, total: nat, step: nat, shrinkFails: bool): (t: nat)
    requires 0 < step
    ensures t <= total
    ensures t < total <==> !shrinkFails && used / step + 1 < total / step
    ensures t < total ==> used < t && t % step == 0 && t - step <= used
  {
    if used / step + 1 < total / step && !shrinkFails then
      StepRound(used, total, step);
      (used / step + 1) * step
    else
      total
  }

  /** Rounding used up to whole steps stays below a total of more steps. */
  lemma StepRound(used: nat, total: nat, step: nat)
    requires 0 < step && used / step + 1 < total / step
    ensures used < (used / step + 1) * step < total
    ensures (used / step + 1) * step % step == 0 && (used / step + 1) * step - step <= used
  {
    var q, t, m := used / step, total / step, (used / step + 1) * step;
    assert used == step * q + used % step;
    assert m == step * q + step;
    assert total == step * t + total % step;
    assert m < step * t by { MulLess(q + 1, t, step); }
    assert m % step == 0 by { DivModUnique(m, step, q + 1, 0); }
  }

  /** One more step keeps a total a whole number of steps. */
  lemma StepMore(total: nat, step: nat)
    requires 0 < step && total % step == 0
    ensures (total + step) % step == 0
  {
    assert total == step * (total / step) + 0;
    assert total + step == step * (total / step + 1) + 0;
    DivModUnique(total + step, step, total / step + 1, 0);
  }

  lemma MulLess(a: nat, b: nat, c: nat)
    requires a < b && 0 < c
    ensures a * c < b * c
  {
    assert b * c == a * c + (b - a) * c;
    MulAtLeast(c, b - a);
  }

  /** struct hash_bucket: the live entries and the allocated slots. */
  datatype Bucket<V> = Bucket(entries: seq<Entry<V>>, total: nat)

  /**
   * What holds of the entries s of bucket i (with cap slots) of a table
   * with n buckets, the given step and hash function h: fewer entries than
   * slots once allocated, capacity a multiple of the step, entries in
   * strcmp order, every key hashing to i.
   */
  ghost predicate BucketOk<V>(s: seq<Entry<V>>, cap: nat, i: nat, step: nat, n: nat, h: Key -> bv32)
    requires 1 <= n
  {
    && |s| <= cap && (cap > 0 ==> |s| < cap)
    && step > 0 && cap % step == 0
    && Sorted(s)
    && forall j :: 0 <= j < |s| ==> Mask(h(s[j].key), n) == i
  }

  /** Every bucket of a table with n buckets is well formed. */
  ghost predicate TableOk<V>(cs: seq<seq<Entry<V>>>, caps: seq<nat>, step: nat, n: nat, h: Key -> bv32)
    requires 1 <= n
  {
    && |cs| == |caps| == n
    && forall i {:trigger BucketOk(cs[i], caps[i], i, step, n, h)} :: 0 <= i < n ==> BucketOk(cs[i], caps[i], i, step, n, h)
  }

  /** The well-formedness of bucket i of a well-formed table. */
  lemma TableOkAt<V>(cs: seq<seq<Entry<V>>>, caps: seq<nat>, step: nat, n: nat, h: Key -> bv32, i: nat)
    requires 1 <= n && TableOk(cs, caps, step, n, h) && i < n
    ensures BucketOk(cs[i], caps[i], i, step, n, h)
  {
  }

  /** Replacing one bucket by a well-formed one keeps the table well formed. */
  lemma TableOkUpdate<V>(cs: seq<seq<Entry<V>>>, caps: seq<nat>, step: nat, n: nat, h: Key -> bv32,
                         i: nat, s: seq<Entry<V>>, cap: nat)
    requires 1 <= n && TableOk(cs, caps, step, n, h) && i < n && BucketOk(s, cap, i, step, n, h)
    ensures TableOk(cs[i := s], caps[i := cap], step, n, h)
  {
  }

  /** The bucket array holding the given entries and capacities. */
  function Pack<V>(cs: seq<seq<Entry<V>>>, caps: seq<nat>): (bs: seq<Bucket<V>>)
    requires |cs| == |caps|
    ensures |bs| == |cs| && forall i :: 0 <= i < |bs| ==> bs[i] == Bucket(cs[i], caps[i])
  {
    seq(|cs|, i requires 0 <= i < |cs| => Bucket(cs[i], caps[i]))
  }

  lemma PackUpdate<V>(cs: seq<seq<Entry<V>>>, caps: seq<nat>, i: nat, s: seq<Entry<V>>, cap: nat)
    requires |cs| == |caps| && i < |cs|
    ensures Pack(cs[i := s], caps[i := cap]) == Pack(cs, caps)[i := Bucket(s, cap)]
  {
  }

  /**
   * The scan of hash_add and hash_add_unique over a bucket's entries: the
   * first position whose key does not sort before key, and whether it
   * holds key itself.
   */
  method Scan<V>(s: seq<Entry<V>>, key: Key) returns (p: nat, found: bool)
    requires Sorted(s)
    ensures p <= |s|
    ensures forall j :: 0 <= j < p ==> Less(s[j].key, key)
    ensures found ==> p < |s| && s[p].key == key
    ensures !found && p < |s| ==> Less(key, s[p].key)
    ensures !found ==> forall j :: 0 <= j < |s| ==> s[j].key != key
  {
    p := 0;
    while p < |s|
      invariant p <= |s|
      invariant forall j :: 0 <= j < p ==> Less(s[j].key, key)
    {
      var c := Strcmp(key, s[p].key);
      if c == 0 {
        StrcmpZero(key, s[p].key);
        return p, true;
      } else if c < 0 {
        forall j | 0 <= j < |s| ensures s[j].key != key {
          if j < p {
            LessTotal(s[j].key, key);
          } else if j > p {
            LessTrans(key, s[p].key, s[j].key);
            LessTotal(key, s[j].key);
          } else {
            LessTotal(key, s[j].key);
          }
        }
        return p, false;
      }
      StrcmpFlip(key, s[p].key);
      p := p + 1;
    }
    forall j | 0 <= j < |s| ensures s[j].key != key {
      LessTotal(s[j].key, key);
    }
    found := false;
  }

  /**
   * bsearch over a bucket's entries with hash_entry_cmp, halving as glibc
   * does: the index of the entry holding key, or -1 when there is none.
   */
  method BSearch<V>(s: seq<Entry<V>>, key: Key) returns (idx: int)
    requires Sorted(s)
    ensures -1 <= idx < |s|
    ensures 0 <= idx ==> s[idx].key == key
    ensures idx == -1 <==> forall j :: 0 <= j < |s| ==> s[j].key != key
  {
    var lo, hi := 0, |s|;
    while lo < hi
      invariant 0 <= lo <= hi <= |s|
      invariant forall j :: 0 <= j < lo ==> Less(s[j].key, key)
      invariant forall j :: hi <= j < |s| ==> Less(key, s[j].key)
    {
      var mid := (lo + hi) / 2;
      var c := Strcmp(key, s[mid].key);
      if c < 0 {
        forall j | mid < j < |s| ensures Less(key, s[j].key) {
          LessTrans(key, s[mid].key, s[j].key);
        }
        hi := mid;
      } else if c > 0 {
        StrcmpFlip(key, s[mid].key);
        forall j | 0 <= j < mid ensures Less(s[j].key, key) {
          LessTrans(s[j].key, s[mid].key, key);
        }
        lo := mid + 1;
      } else {
        StrcmpZero(key, s[mid].key);
        return mid;
      }
    }
    forall j | 0 <= j < |s| ensures s[j].key != key {
      LessTotal(s[j].key, key);
    }
    idx := -1;
  }


  /** The capacities after bucket pos grows by one step, when it has to. */
  ghost function Grown(caps: seq<nat>, pos: nat, step: nat, grow: bool): seq<nat>
    requires pos < |caps|
  {
    if grow then caps[pos := caps[pos] + step] else caps
  }

  /** struct hash. */
  class Hash<V> {
    var count: nat
    const step: nat
    const nBuckets: nat
    const hasFreeValue: bool
    const buckets: array<Bucket<V>>

    /** The hash function buckets are picked by; Valid fixes it to hash_superfast. */
    ghost const hashFn: Key -> bv32

    ghost var Contents: seq<seq<Entry<V>>>
    ghost var Capacity: seq<nat>
    ghost var Freed: seq<V>

    /** The bucket array holds Contents and Capacity. */
    ghost predicate Shape()
      reads this, buckets
    {
      && 1 <= nBuckets
      && buckets.Length == nBuckets && |Contents| == nBuckets && |Capacity| == nBuckets
      && buckets[..] == Pack(Contents, Capacity)
    }

    /** The shape of the table, whichever function picks the buckets. */
    ghost predicate Inv()
      reads this, buckets
    {
      && 1 <= nBuckets && IsPow2(nBuckets) && step == StepFor(nBuckets)
      && buckets.Length == nBuckets && |Contents| == nBuckets && |Capacity| == nBuckets
      && buckets[..] == Pack(Contents, Capacity)
      && TableOk(Contents, Capacity, step, nBuckets, hashFn)
      && count == |Flatten(Contents)|
    }

    /** The table's invariant: Inv, with buckets picked by hash_superfast. */
    ghost predicate Valid()
      reads this, buckets
    {
      Inv() && hashFn == Digest
    }

    /** The bucket key belongs in. */
    ghost function Slot(key: Key): (i: nat)
      requires 1 <= nBuckets
      ensures i < nBuckets
    {
      Mask(hashFn(key), nBuckets)
    }

    /** The value the table maps k to. */
    ghost function Lookup(k: Key): Option<V>
      reads this`Contents
      requires 1 <= nBuckets == |Contents|
    {
      Get(Contents[Slot(k)], k)
    }

    /** Bucket i is full enough that an insertion first grows it. */
    ghost predicate Crowded(i: nat)
      reads this`Contents, this`Capacity
      requires i < |Contents| == |Capacity|
    {
      |Contents[i]| + 1 >= Capacity[i]
    }

    /** hash_new, once calloc has succeeded: every bucket empty and unallocated. */
    constructor (n: nat, freeValue: bool)
      requires n <= 0x8000_0000
      ensures Valid() && fresh(buckets)
      ensures nBuckets == AlignPower2(n) && hasFreeValue == freeValue
      ensures count == 0 && Freed == []
      ensures Contents == seq(nBuckets, _ => []) && Capacity == seq(nBuckets, _ => 0)
    {
      var nb := AlignPower2(n);
      nBuckets := nb;
      step := StepFor(nb);
      hasFreeValue := freeValue;
      hashFn := Digest;
      buckets := new Bucket<V>[nb](_ => Bucket([], 0));
      count := 0;
      Contents := seq(nb, _ => []);
      Capacity := seq(nb, _ => 0);
      Freed := [];
      new;
      FlattenEmpty(Contents);
    }

    /** hash_superfast(key, strlen(key)) & (n_buckets - 1). */
    method Locate(key: Key) returns (pos: nat)
      requires 1 <= nBuckets && hashFn == Digest
      ensures pos == Slot(key) == BucketOf(key, nBuckets)
    {
      var hashval := HashSuperfast(key);
      pos := Mask(hashval, nBuckets);
    }

    /**
     * Stores bucket pos as the entries s in cap slots, with the new entry
     * count and the values handed to free_value on the way.
     */
    method Store(pos: nat, s: seq<Entry<V>>, cap: nat, newCount: nat, ghost freed: seq<V>)
      requires Inv() && pos < nBuckets && BucketOk(s, cap, pos, step, nBuckets, hashFn)
      requires newCount == |Flatten(Contents[pos := s])|
      modifies this, buckets
      ensures Inv()
      ensures Contents == old(Contents)[pos := s] && Capacity == old(Capacity)[pos := cap]
      ensures count == newCount && Freed == old(Freed) + freed
    {
      TableOkUpdate(Contents, Capacity, step, nBuckets, hashFn, pos, s, cap);
      PackUpdate(Contents, Capacity, pos, s, cap);
      buckets[pos] := Bucket(s, cap);
      Contents := Contents[pos := s];
      Capacity := Capacity[pos := cap];
      count := newCount;
      Freed := Freed + freed;
    }

    /**
     * The realloc at the top of hash_add and hash_add_unique: a bucket
     * whose next entry would fill it grows by one step, unless realloc
     * fails, which is -ENOMEM.
     */
    method Reserve(pos: nat, reallocFails: bool) returns (r: int)
      requires Inv() && pos < nBuckets
      modifies this, buckets
      ensures Inv()
      ensures r == 0 || r == -ENOMEM
      ensures r == -ENOMEM <==> reallocFails && old(Crowded(pos))
      ensures Contents == old(Contents) && count == old(count) && Freed == old(Freed)
      ensures r == 0 ==> !Crowded(pos)
      ensures Capacity == Grown(old(Capacity), pos, step, r == 0 && old(Crowded(pos)))
    {
      var b := buckets[pos];
      TableOkAt(Contents, Capacity, step, nBuckets, hashFn, pos);
      if |b.entries| + 1 >= b.total {
        if reallocFails {
          return -ENOMEM;
        }
        StepMore(b.total, step);
        assert Contents[pos := b.entries] == Contents;
        FlattenUpdateLength(Contents, pos, b.entries);
        Store(pos, b.entries, b.total + step, count, []);
      }
      r := 0;
    }

    /**
     * hash_add's overwrite of entry p, which holds e.key: its value is
     * handed to free_value, when the table has one, and replaced.
     */
    method Overwrite(pos: nat, p: nat, e: Entry<V>)
      requires Inv() && pos == Slot(e.key) && p < |Contents[pos]| && Contents[pos][p].key == e.key
      modifies this, buckets
      ensures Inv()
      ensures Contents == old(Contents)[pos := Upsert(old(Contents[pos]), e)]
      ensures Contents[pos] == old(Contents[pos])[p := e]
      ensures count == old(count) && Capacity == old(Capacity)
      ensures Freed == old(Freed) + if hasFreeValue then [old(Contents[pos][p].value)] else []
    {
      var b := buckets[pos];
      ghost var s := b.entries;
      TableOkAt(Contents, Capacity, step, nBuckets, hashFn, pos);
      var next := b.entries[p := e];
      UpsertReplaceAt(s, e, p);
      assert next == s[..p] + [e] + s[p + 1..];
      GetAt(s, p);
      BucketOkUpsert(s, b.total, pos, step, nBuckets, hashFn, e);
      assert Capacity[pos := b.total] == Capacity;
      FlattenUpdateLength(Contents, pos, next);
      Store(pos, next, b.total, count, if hasFreeValue then [b.entries[p].value] else []);
    }

    /**
     * hash_add's memmove and store of a new entry at p, the first position
     * whose key sorts after e.key.
     */
    method InsertAt(pos: nat, p: nat, e: Entry<V>)
      requires Inv() && pos == Slot(e.key) && !Crowded(pos) && p <= |Contents[pos]|
      requires forall j :: 0 <= j < p ==> Less(Contents[pos][j].key, e.key)
      requires p < |Contents[pos]| ==> Less(e.key, Contents[pos][p].key)
      modifies this, buckets
      ensures Inv()
      ensures Contents == old(Contents)[pos := Upsert(old(Contents[pos]), e)]
      ensures Contents[pos] == old(Contents[pos])[..p] + [e] + old(Contents[pos])[p..]
      ensures count == old(count) + 1 && Capacity == old(Capacity) && Freed == old(Freed)
    {
      var b := buckets[pos];
      ghost var s := b.entries;
      TableOkAt(Contents, Capacity, step, nBuckets, hashFn, pos);
      var next := b.entries[..p] + [e] + b.entries[p..];
      UpsertInsertAt(s, e, p);
      BucketOkUpsert(s, b.total, pos, step, nBuckets, hashFn, e);
      assert Capacity[pos := b.total] == Capacity;
      FlattenUpdateLength(Contents, pos, next);
      Store(pos, next, b.total, count + 1, []);
    }

    /**
     * hash_add: add key with value, or replace the value stored under key
     * (handing the old one to free_value, when the table has one).
     */
    method Add(key: Key, value: V, reallocFails: bool) returns (r: int)
      requires Valid()
      modifies this, buckets
      ensures Valid()
      ensures r == 0 || r == -ENOMEM
      ensures r == -ENOMEM <==> reallocFails && old(Crowded(Slot(key)))
      ensures r == -ENOMEM ==>
        Contents == old(Contents) && Capacity == old(Capacity) && count == old(count) && Freed == old(Freed)
      ensures r == 0 ==> Contents == old(Contents)[Slot(key) := Upsert(old(Contents[Slot(key)]), Entry(key, value))]
      ensures r == 0 ==> Capacity == Grown(old(Capacity), Slot(key), step, old(Crowded(Slot(key))))
      ensures r == 0 ==> count == old(count) + if old(Lookup(key)).None? then 1 else 0
      ensures r == 0 ==>
        Freed == old(Freed) + if hasFreeValue && old(Lookup(key)).Some? then [old(Lookup(key)).value] else []
      ensures r == 0 ==> forall k :: Lookup(k) == if k == key then Some(value) else old(Lookup(k))
    {
      var pos := Locate(key);
      r := Reserve(pos, reallocFails);
      if r != 0 {
        return;
      }
      Place(pos, Entry(key, value));
      LookupUpsert(old(Contents), nBuckets, hashFn, Entry(key, value));
    }

    /**
     * The scan of hash_add over a bucket with room for one more entry:
     * overwrite the entry holding e.key, or insert e before the first
     * greater key.
     */
    method Place(pos: nat, e: Entry<V>)
      requires Inv() && pos == Slot(e.key) && !Crowded(pos)
      modifies this, buckets
      ensures Inv()
      ensures Contents == old(Contents)[pos := Upsert(old(Contents[pos]), e)]
      ensures Capacity == old(Capacity)
      ensures count == old(count) + if old(Lookup(e.key)).None? then 1 else 0
      ensures Freed == old(Freed) + if hasFreeValue && old(Lookup(e.key)).Some? then [old(Lookup(e.key)).value] else []
    {
      TableOkAt(Contents, Capacity, step, nBuckets, hashFn, pos);
      var p, found := Scan(buckets[pos].entries, e.key);
      if found {
        GetAt(Contents[pos], p);
        Overwrite(pos, p, e);
      } else {
        GetNone(Contents[pos], e.key);
        InsertAt(pos, p, e);
      }
    }

    /**
     * hash_add_unique: add key with value, or fail with -EEXIST, leaving
     * the entries as they were, when key is already present. The bucket
     * grows before the check, so a growth stays even then.
     */
    method AddUnique(key: Key, value: V, reallocFails: bool) returns (r: int)
      requires Valid()
      modifies this, buckets
      ensures Valid()
      ensures r == 0 || r == -ENOMEM || r == -EEXIST
      ensures r == -ENOMEM <==> reallocFails && old(Crowded(Slot(key)))
      ensures r == -EEXIST <==> !(reallocFails && old(Crowded(Slot(key)))) && old(Lookup(key)).Some?
      ensures Freed == old(Freed)
      ensures r == -ENOMEM ==> Capacity == old(Capacity)
      ensures r != -ENOMEM ==> Capacity == Grown(old(Capacity), Slot(key), step, old(Crowded(Slot(key))))
      ensures r != 0 ==> Contents == old(Contents) && count == old(count)
      ensures r == 0 ==> Contents == old(Contents)[Slot(key) := Upsert(old(Contents[Slot(key)]), Entry(key, value))]
      ensures r == 0 ==> count == old(count) + 1
      ensures r == 0 ==> forall k :: Lookup(k) == if k == key then Some(value) else old(Lookup(k))
    {
      var pos := Locate(key);
      r := Reserve(pos, reallocFails);
      if r != 0 {
        return;
      }
      r := PlaceNew(pos, Entry(key, value));
      if r == 0 {
        LookupUpsert(old(Contents), nBuckets, hashFn, Entry(key, value));
      }
    }

    /**
     * The scan of hash_add_unique over a bucket with room for one more
     * entry: -EEXIST when e.key is there, otherwise e inserted before the
     * first greater key.
     */
    method PlaceNew(pos: nat, e: Entry<V>) returns (r: int)
      requires Inv() && pos == Slot(e.key) && !Crowded(pos)
      modifies this, buckets
      ensures Inv() && Capacity == old(Capacity) && Freed == old(Freed)
      ensures r == 0 || r == -EEXIST
      ensures r == -EEXIST <==> old(Lookup(e.key)).Some?
      ensures r != 0 ==> Contents == old(Contents) && count == old(count)
      ensures r == 0 ==> Contents == old(Contents)[pos := Upsert(old(Contents[pos]), e)]
      ensures r == 0 ==> count == old(count) + 1
    {
      TableOkAt(Contents, Capacity, step, nBuckets, hashFn, pos);
      var p, found := Scan(buckets[pos].entries, e.key);
      if found {
        GetAt(Contents[pos], p);
        return -EEXIST;
      }
      GetNone(Contents[pos], e.key);
      InsertAt(pos, p, e);
      r := 0;
    }

    /** hash_find: the value stored under key, if any. */
    method Find(key: Key) returns (r: Option<V>)
      requires Valid()
      ensures r == Lookup(key)
    {
      var pos := Locate(key);
      var b := buckets[pos];
      TableOkAt(Contents, Capacity, step, nBuckets, hashFn, pos);
      if b.total == 0 {
        return None;
      }
      var idx := BSearch(b.entries, key);
      if idx == -1 {
        GetNone(b.entries, key);
        return None;
      }
      GetAt(b.entries, idx);
      r := Some(b.entries[idx].value);
    }

    /**
     * hash_del's removal of entry idx of bucket pos: its value goes to
     * free_value, when the table has one, the entries after it move down,
     * and the bucket shrinks to one step above the steps still in use when
     * that frees a whole step and the realloc succeeds.
     */
    method Drop(pos: nat, idx: nat, shrinkFails: bool)
      requires Inv() && pos < nBuckets && idx < |Contents[pos]|
      modifies this, buckets
      ensures Inv()
      ensures Contents == old(Contents)[pos := old(Contents[pos])[..idx] + old(Contents[pos])[idx + 1..]]
      ensures count == old(count) - 1
      ensures Freed == old(Freed) + if hasFreeValue then [old(Contents[pos][idx].value)] else []
      ensures Capacity == old(Capacity)[pos := ShrunkTotal(|Contents[pos]|, old(Capacity[pos]), step, shrinkFails)]
    {
      var b := buckets[pos];
      ghost var s := b.entries;
      TableOkAt(Contents, Capacity, step, nBuckets, hashFn, pos);
      var next := b.entries[..idx] + b.entries[idx + 1..];
      var total := b.total;
      var stepsUsed := |next| / step;
      var stepsTotal := b.total / step;
      if stepsUsed + 1 < stepsTotal && !shrinkFails {
        total := (stepsUsed + 1) * step;
      }
      assert total == ShrunkTotal(|next|, b.total, step, shrinkFails);
      BucketOkDrop(s, b.total, pos, step, nBuckets, hashFn, idx, total, shrinkFails);
      FlattenUpdateLength(Contents, pos, next);
      Store(pos, next, total, count - 1, if hasFreeValue then [b.entries[idx].value] else []);
    }

    /**
     * hash_del: remove the entry stored under key, or fail with -ENOENT
     * when there is none.
     */
    method Del(key: Key, shrinkFails: bool) returns (r: int)
      requires Valid()
      modifies this, buckets
      ensures Valid()
      ensures r == 0 || r == -ENOENT
      ensures r == -ENOENT <==> old(Lookup(key)).None?
      ensures r == -ENOENT ==>
        Contents == old(Contents) && Capacity == old(Capacity) && count == old(count) && Freed == old(Freed)
      ensures r == 0 ==> Contents == old(Contents)[Slot(key) := Remove(old(Contents[Slot(key)]), key)]
      ensures r == 0 ==> count == old(count) - 1
      ensures r == 0 ==> Freed == old(Freed) + if hasFreeValue then [old(Lookup(key)).value] else []
      ensures r == 0 ==>
        Capacity == old(Capacity)[Slot(key) := ShrunkTotal(|Contents[Slot(key)]|, old(Capacity[Slot(key)]), step, shrinkFails)]
      ensures r == 0 ==> forall k :: Lookup(k) == if k == key then None else old(Lookup(k))
    {
      var pos := Locate(key);
      var b := buckets[pos];
      TableOkAt(Contents, Capacity, step, nBuckets, hashFn, pos);
      if b.total == 0 {
        return -ENOENT;
      }
      var idx := BSearch(b.entries, key);
      if idx == -1 {
        GetNone(b.entries, key);
        return -ENOENT;
      }
      GetAt(b.entries, idx);
      RemoveAt(b.entries, idx);
      Drop(pos, idx, shrinkFails);
      LookupRemove(old(Contents), nBuckets, hashFn, key);
      r := 0;
    }

    /** hash_get_count. */
    function GetCount(): (r: nat)
      reads this, buckets
      requires Inv()
      ensures r == |Flatten(Contents)|
    {
      count
    }

    /**
     * hash_free: when the table has a free_value, every stored value is
     * handed to it, bucket by bucket, in each bucket in key order.
     * Releasing the memory itself is not modelled.
     */
    method Free()
      requires Inv()
      modifies this
      ensures Freed == old(Freed) + if hasFreeValue then Values(Flatten(old(Contents))) else []
    {
      var vs := FreeWalk(this);
      Freed := Freed + vs;
    }
  }

  /**
   * hash_new: NULL when calloc fails, and otherwise a new table whose
   * buckets are all empty and unallocated.
   */
  method HashNew<V>(n: nat, freeValue: bool, callocFails: bool) returns (h: Hash?<V>)
    requires n <= 0x8000_0000
    ensures h == null <==> callocFails
    ensures h != null ==> fresh(h) && fresh(h.buckets) && h.Valid()
    ensures h != null ==> h.nBuckets == AlignPower2(n) && h.step == StepFor(h.nBuckets) && h.hasFreeValue == freeValue
    ensures h != null ==> h.count == 0 && h.Freed == []
    ensures h != null ==> h.Contents == seq(h.nBuckets, _ => []) && h.Capacity == seq(h.nBuckets, _ => 0)
  {
    if callocFails {
      return null;
    }
    h := new Hash(n, freeValue);
  }

  /**
   * hash_free: nothing for NULL; otherwise every stored value goes to
   * free_value, when the table has one, bucket by bucket and in key order.
   */
  method HashFree<V>(h: Hash?<V>)
    requires h != null ==> h.Inv()
    modifies h
    ensures h != null ==> h.Freed == old(h.Freed) + if h.hasFreeValue then Values(Flatten(old(h.Contents))) else []
  {
    if h == null {
      return;
    }
    h.Free();
  }

  /** The free_value calls of hash_free for one bucket: its values, in key order. */
  method FreeBucket<V>(entries: seq<Entry<V>>) returns (freed: seq<V>)
    ensures freed == Values(entries)
  {
    freed := [];
    var j := 0;
    while j < |entries|
      invariant j <= |entries| && freed == Values(entries[..j])
    {
      assert entries[..j + 1] == entries[..j] + [entries[j]];
      ValuesAppend(entries[..j], [entries[j]]);
      freed := freed + [entries[j].value];
      j := j + 1;
    }
    assert entries[..j] == entries;
  }

  /**
   * The walk of hash_free over the buckets: the values it hands to
   * free_value, in order, or none when the table has no free_value.
   */
  method FreeWalk<V>(t: Hash<V>) returns (freed: seq<V>)
    requires t.Shape()
    ensures freed == if t.hasFreeValue then Values(Flatten(t.Contents)) else []
  {
    ghost var cs := t.Contents;
    freed := [];
    var i := 0;
    while i < t.nBuckets
      invariant i <= t.nBuckets
      invariant freed == if t.hasFreeValue then Values(Flatten(cs[..i])) else []
    {
      var b := t.buckets[i];
      assert b.entries == cs[i];
      if t.hasFreeValue && |b.entries| != 0 {
        var vs := FreeBucket(b.entries);
        freed := freed + vs;
      }
      FlattenStep(cs, i);
      ValuesAppend(Flatten(cs[..i]), cs[i]);
      i := i + 1;
    }
    assert cs[..i] == cs;
  }

  /** A table with nothing in it. */
  lemma {:induction false} FlattenEmpty<V>(bs: seq<seq<Entry<V>>>)
    requires forall i :: 0 <= i < |bs| ==> bs[i] == []
    ensures Flatten(bs) == []
  {
    if bs != [] {
      FlattenEmpty(bs[..|bs| - 1]);
    }
  }

  /** Storing an entry into the bucket its key hashes to keeps that bucket well formed. */
  lemma BucketOkUpsert<V>(s: seq<Entry<V>>, cap: nat, i: nat, step: nat, n: nat, h: Key -> bv32, e: Entry<V>)
    requires 1 <= n && BucketOk(s, cap, i, step, n, h) && Mask(h(e.key), n) == i
    requires Get(s, e.key).None? ==> |s| + 1 < cap
    ensures BucketOk(Upsert(s, e), cap, i, step, n, h)
    ensures |Upsert(s, e)| == |s| + if Get(s, e.key).None? then 1 else 0
  {
    UpsertLength(s, e);
    UpsertSorted(s, e);
    var r := Upsert(s, e);
    forall j | 0 <= j < |r| ensures Mask(h(r[j].key), n) == i {
      UpsertFrom(s, e, r[j]);
    }
  }

  /** Removing entry idx and shrinking as hash_del does keeps a bucket well formed. */
  lemma BucketOkDrop<V>(s: seq<Entry<V>>, cap: nat, i: nat, step: nat, n: nat, h: Key -> bv32,
                        idx: nat, total: nat, shrinkFails: bool)
    requires 1 <= n && BucketOk(s, cap, i, step, n, h) && idx < |s|
    requires total == ShrunkTotal(|s| - 1, cap, step, shrinkFails)
    ensures BucketOk(s[..idx] + s[idx + 1..], total, i, step, n, h)
  {
    DropSorted(s, idx);
    var r := s[..idx] + s[idx + 1..];
    forall j | 0 <= j < |r| ensures Mask(h(r[j].key), n) == i {
      assert r[j] == if j < idx then s[j] else s[j + 1];
    }
  }

  /** After storing e in its bucket, e.key maps to e.value and every other key is as before. */
  lemma LookupUpsert<V>(cs: seq<seq<Entry<V>>>, n: nat, h: Key -> bv32, e: Entry<V>)
    requires 1 <= n == |cs|
    ensures var cs' := cs[Mask(h(e.key), n) := Upsert(cs[Mask(h(e.key), n)], e)];
      forall k :: Get(cs'[Mask(h(k), n)], k) == if k == e.key then Some(e.value) else Get(cs[Mask(h(k), n)], k)
  {
    var pos := Mask(h(e.key), n);
    var cs' := cs[pos := Upsert(cs[pos], e)];
    forall k ensures Get(cs'[Mask(h(k), n)], k) == if k == e.key then Some(e.value) else Get(cs[Mask(h(k), n)], k) {
      if Mask(h(k), n) == pos {
        GetUpsert(cs[pos], e, k);
      }
    }
  }

  /** After removing key from its sorted bucket, key maps to nothing and every other key is as before. */
  lemma LookupRemove<V>(cs: seq<seq<Entry<V>>>, n: nat, h: Key -> bv32, key: Key)
    requires 1 <= n == |cs| && Sorted(cs[Mask(h(key), n)])
    ensures var cs' := cs[Mask(h(key), n) := Remove(cs[Mask(h(key), n)], key)];
      forall k :: Get(cs'[Mask(h(k), n)], k) == if k == key then None else Get(cs[Mask(h(k), n)], k)
  {
    var pos := Mask(h(key), n);
    var cs' := cs[pos := Remove(cs[pos], key)];
    forall k ensures Get(cs'[Mask(h(k), n)], k) == if k == key then None else Get(cs[Mask(h(k), n)], k) {
      if Mask(h(k), n) == pos {
        GetRemove(cs[pos], key, k);
      }
    }
  }

  /** No key is stored twice. */
  ghost predicate KeysDistinct<V>(s: seq<Entry<V>>) {
    forall i, j :: 0 <= i < j < |s| ==> s[i].key != s[j].key
  }

  /** The first m buckets of a well-formed table hold only keys that hash below m. */
  lemma {:induction false} FlattenSlots<V>(cs: seq<seq<Entry<V>>>, caps: seq<nat>, step: nat, n: nat, h: Key -> bv32, m: nat)
    requires 1 <= n && TableOk(cs, caps, step, n, h) && m <= n
    ensures forall i :: 0 <= i < |Flatten(cs[..m])| ==> Mask(h(Flatten(cs[..m])[i].key), n) < m
  {
    if m > 0 {
      FlattenSlots(cs, caps, step, n, h, m - 1);
      FlattenStep(cs, m - 1);
      TableOkAt(cs, caps, step, n, h, m - 1);
      var a, b := Flatten(cs[..m - 1]), cs[m - 1];
      var f := a + b;
      forall i | 0 <= i < |f| ensures Mask(h(f[i].key), n) < m {
        if i >= |a| {
          assert f[i] == b[i - |a|];
        } else {
          assert f[i] == a[i];
        }
      }
    }
  }

  /** The first m buckets of a well-formed table hold no key twice. */
  lemma {:induction false} FlattenKeys<V>(cs: seq<seq<Entry<V>>>, caps: seq<nat>, step: nat, n: nat, h: Key -> bv32, m: nat)
    requires 1 <= n && TableOk(cs, caps, step, n, h) && m <= n
    ensures KeysDistinct(Flatten(cs[..m]))
  {
    if m > 0 {
      FlattenKeys(cs, caps, step, n, h, m - 1);
      FlattenSlots(cs, caps, step, n, h, m - 1);
      FlattenStep(cs, m - 1);
      TableOkAt(cs, caps, step, n, h, m - 1);
      var a, b := Flatten(cs[..m - 1]), cs[m - 1];
      var f := a + b;
      forall i, j | 0 <= i < j < |f| ensures f[i].key != f[j].key {
        if j < |a| {
          assert f[i] == a[i] && f[j] == a[j];
        } else if i >= |a| {
          assert f[i] == b[i - |a|] && f[j] == b[j - |a|];
          LessTotal(f[i].key, f[j].key);
        } else {
          assert f[i] == a[i] && f[j] == b[j - |a|];
        }
      }
    }
  }

  /** A table holds each key at most once, so its count is the number of distinct keys. */
  lemma KeysUnique<V>(t: Hash<V>)
    requires t.Inv()
    ensures KeysDistinct(Flatten(t.Contents))
    ensures t.GetCount() == |Flatten(t.Contents)|
  {
    FlattenKeys(t.Contents, t.Capacity, t.step, t.nBuckets, t.hashFn, t.nBuckets);
    assert t.Contents[..t.nBuckets] == t.Contents;
  }

  /** Lookup is the table read as a map: k maps to v exactly when the entry (k, v) is stored. */
  lemma LookupMeans<V>(t: Hash<V>, k: Key, v: V)
    requires t.Inv()
    ensures t.Lookup(k) == Some(v) <==> Entry(k, v) in Flatten(t.Contents)
  {
    var pos := t.Slot(k);
    TableOkAt(t.Contents, t.Capacity, t.step, t.nBuckets, t.hashFn, pos);
    if t.Lookup(k) == Some(v) {
      GetIn(t.Contents[pos], k);
      InFlatten(t.Contents, pos, Entry(k, v));
    }
    if Entry(k, v) in Flatten(t.Contents) {
      FlattenMember(t.Contents, Entry(k, v));
      var i :| 0 <= i < t.nBuckets && Entry(k, v) in t.Contents[i];
      TableOkAt(t.Contents, t.Capacity, t.step, t.nBuckets, t.hashFn, i);
      var e :| 0 <= e < |t.Contents[i]| && t.Contents[i][e] == Entry(k, v);
      GetAt(t.Contents[i], e);
    }
  }

  /**
   * struct hash_iter: the position of the last entry returned, as a
   * bucket and an index into it (-1 before the first call).
   */
  class HashIter<V> {
    const hash: Hash<V>
    var bucket: nat
    var entry: int

    ghost predicate Valid()
      reads this, hash, hash.buckets
    {
      && hash.Shape() && bucket <= hash.nBuckets
      && (bucket < hash.nBuckets ==> -1 <= entry < |hash.Contents[bucket]|)
      && (bucket == hash.nBuckets ==> entry == 0)
    }

    /** How many entries, in Flatten order, have been returned so far. */
    ghost function Seen(): (r: nat)
      reads this, hash, hash.buckets
      requires Valid()
      ensures r <= |Flatten(hash.Contents)|
    {
      Offset(hash.Contents, bucket, entry)
    }

    /** hash_iter_init. */
    constructor (h: Hash<V>)
      requires h.Inv()
      ensures Valid() && hash == h && Seen() == 0
    {
      hash := h;
      bucket := 0;
      entry := -1;
    }

    /**
     * hash_iter_next: the entry after the last one returned, in bucket
     * order and within a bucket in key order, or None once every entry
     * has been returned.
     */
    method Next() returns (r: Option<Entry<V>>)
      requires Valid() && bucket < hash.nBuckets
      modifies this
      ensures Valid()
      ensures r.Some? <==> old(Seen()) < |Flatten(hash.Contents)|
      ensures r.Some? ==> r.value == Flatten(hash.Contents)[old(Seen())] && Seen() == old(Seen()) + 1
      ensures r.None? ==> bucket == hash.nBuckets
    {
      var b, e;
      b, e, r := IterStep(hash, bucket, entry);
      bucket, entry := b, e;
    }
  }

  /** The position after (bucket, entry) as an offset into Flatten(cs), as Seen counts it. */
  ghost function Offset<V>(cs: seq<seq<Entry<V>>>, bucket: nat, entry: int): (r: nat)
    requires bucket <= |cs| && (bucket < |cs| ==> -1 <= entry < |cs[bucket]|)
    ensures r <= |Flatten(cs)|
  {
    if bucket < |cs| then
      FlattenStep(cs, bucket);
      FlattenPrefix(cs, bucket + 1);
      |Flatten(cs[..bucket])| + entry + 1
    else
      |Flatten(cs)|
  }

  /**
   * One call of hash_iter_next on table t from position (bucket, entry):
   * the new position and the entry found there, if any.
   */
  method IterStep<V>(t: Hash<V>, bucket: nat, entry: int) returns (bucket': nat, entry': int, r: Option<Entry<V>>)
    requires t.Shape() && bucket < t.nBuckets && -1 <= entry < |t.Contents[bucket]|
    ensures bucket' <= t.nBuckets
    ensures bucket' < t.nBuckets ==> 0 <= entry' < |t.Contents[bucket']|
    ensures bucket' == t.nBuckets ==> entry' == 0
    ensures r.Some? <==> Offset(t.Contents, bucket, entry) < |Flatten(t.Contents)|
    ensures r.Some? ==>
      r.value == Flatten(t.Contents)[Offset(t.Contents, bucket, entry)] &&
      Offset(t.Contents, bucket', entry') == Offset(t.Contents, bucket, entry) + 1
    ensures r.None? ==> bucket' == t.nBuckets
  {
    ghost var cs := t.Contents;
    FlattenStep(cs, bucket);
    var b := t.buckets[bucket];
    assert b.entries == cs[bucket];
    bucket', entry' := bucket, entry + 1;
    if entry' >= |b.entries| {
      bucket' := SkipEmpty(t, bucket + 1);
      entry' := 0;
      if bucket' >= t.nBuckets {
        assert cs[..bucket'] == cs;
        return bucket', entry', None;
      }
      b := t.buckets[bucket'];
      assert b.entries == cs[bucket'];
    }
    FlattenAt(cs, bucket', entry');
    r := Some(b.entries[entry']);
  }

  /**
   * The scan of hash_iter_next for the next bucket holding an entry: the
   * first such bucket at or after from, or n_buckets when there is none.
   */
  method SkipEmpty<V>(t: Hash<V>, from: nat) returns (i: nat)
    requires t.Shape() && from <= t.nBuckets
    ensures from <= i <= t.nBuckets
    ensures forall j :: from <= j < i ==> t.Contents[j] == []
    ensures i < t.nBuckets ==> t.Contents[i] != []
    ensures Flatten(t.Contents[..i]) == Flatten(t.Contents[..from])
  {
    ghost var cs := t.Contents;
    i := from;
    while i < t.nBuckets
      invariant from <= i <= t.nBuckets
      invariant forall j :: from <= j < i ==> cs[j] == []
      invariant Flatten(cs[..i]) == Flatten(cs[..from])
    {
      assert t.buckets[i].entries == cs[i];
      if |t.buckets[i].entries| > 0 {
        return;
      }
      FlattenStep(cs, i);
      assert Flatten(cs[..i]) + cs[i] == Flatten(cs[..i]);
      i := i + 1;
    }
  }

  /** Iterating a table from hash_iter_init until hash_iter_next fails yields every entry once, in Flatten order. */
  method Entries<V>(t: Hash<V>) returns (es: seq<Entry<V>>)
    requires t.Inv()
    ensures es == Flatten(t.Contents)
  {
    var it := new HashIter(t);
    es := [];
    while it.bucket < t.nBuckets
      invariant it.Valid() && it.hash == t
      invariant es == Flatten(t.Contents)[..it.Seen()]
      decreases |Flatten(t.Contents)| - it.Seen(), t.nBuckets - it.bucket
    {
      es := Pull(it, es);
    }
    assert it.Seen() == |Flatten(t.Contents)|;
  }

  /** One hash_iter_next of the loop in Entries, appending the entry it returns to es. */
  method Pull<V>(it: HashIter<V>, es: seq<Entry<V>>) returns (es': seq<Entry<V>>)
    requires it.Valid() && it.bucket < it.hash.nBuckets
    requires es == Flatten(it.hash.Contents)[..it.Seen()]
    modifies it
    ensures it.Valid() && es' == Flatten(it.hash.Contents)[..it.Seen()]
    ensures old(it.Seen()) < it.Seen() || it.bucket == it.hash.nBuckets
  {
    var r := it.Next();
    es' := es;
    if r.Some? {
      es' := es + [r.value];
    }
  }
}
