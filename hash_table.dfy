/**
 * The fixed-size chained hash table of lispy.h (lines 25-36 and 177-274).
 *
 * `hash_t` is a class whose bucket array is allocated once: its `size`
 * (a power of two) and the array itself are constants, so no operation can
 * resize the table.  Each bucket is a chain of cells whose payloads are
 * entries; the `length` field of `hash_t` is never initialised or used and
 * is not modelled.
 */
module HashTables {
  import opened Options
  import opened Bytes
  import opened Chains
  import opened Fingerprints

  /** The address of a value the caller keeps ownership of. */
  type Ref = nat

  /**
   * The `value` of an entry together with its `allocated` flag: either the
   * caller's pointer, stored as it is, or a copy the table made.
   */
  datatype Value = Borrowed(ref: Ref) | Owned(bytes: seq<bv8>)
  {
    /**
     * The `allocated` flag.  The borrowed path of `hash_put` never sets it;
     * the model reads it as 0 there.
     */
    predicate Allocated()
    {
      Owned?
    }
  }

  /** `hash_entry_t`: the key copy, the value, and the cached fingerprint `hash_key`. */
  datatype Entry = Entry(key: seq<bv8>, value: Value, hashKey: bv32)

  /** A bucket: the chain `hash->array[b]`. */
  type Bucket = seq<Cell<Entry>>

  /** A `hash_entry_t **` that `hash_get` returns: the payload slot of one cell. */
  datatype Slot = Slot(bucket: nat, pos: nat)

  /** A power of two, in the bits of a `uint32_t`. */
  predicate PowerOfTwo(size: bv32)
  {
    size != 0 && size & (size - 1) == 0
  }

  /** The bucket of a fingerprint: `hash_key & (size - 1)`, always a valid index. */
  function BucketOf(fp: bv32, size: bv32): (b: nat)
    requires PowerOfTwo(size)
    ensures b < U32(size)
  {
    U32(fp & (size - 1))
  }

  /** The cached fingerprints of a bucket, in chain order. */
  function Fps(s: Bucket): seq<bv32>
  {
    seq(|s|, i requires 0 <= i < |s| => s[i].data.hashKey)
  }

  /**
   * The scan of `hash_get`: the position of the first entry whose cached
   * fingerprint is `fp`, comparing fingerprints only.
   */
  function FindFp(s: Bucket, fp: bv32): (r: Option<nat>)
    ensures r.Some? ==> r.value < |s| && s[r.value].data.hashKey == fp
    ensures r.Some? ==> forall j :: 0 <= j < r.value ==> s[j].data.hashKey != fp
    ensures r.None? ==> forall j :: 0 <= j < |s| ==> s[j].data.hashKey != fp
  {
    if s == [] then None
    else if s[0].data.hashKey == fp then Some(0)
    else
      match FindFp(s[1..], fp)
      case None => None
      case Some(j) => Some(j + 1)
  }

  /** The entry `hash_get` finds for fingerprint `fp`, if any. */
  function EntryAt(s: Bucket, fp: bv32): Option<Entry>
  {
    match FindFp(s, fp)
    case None => None
    case Some(j) => Some(s[j].data)
  }

  /**
   * The entry `hash_put` builds: a `strcpy` copy of the key, the fingerprint
   * of the key, and the value by reference when `value_len` is 0, else a
   * copy of the first `value_len` bytes the caller's pointer refers to
   * (`callerBytes`).
   */
  function NewEntry(magic: seq<bv64>, key: seq<bv8>, value: Ref, valueLen: bv32, callerBytes: seq<bv8>): (r: Entry)
    requires |magic| == 256 && U32(valueLen) <= |callerBytes|
    ensures CLen(r.key) == |r.key| && CStr(r.key) == CStr(key)
    ensures r.hashKey == Fingerprint(magic, key) == Fingerprint(magic, r.key)
    ensures r.value.Allocated() <==> valueLen != 0
    ensures r.value.Owned? ==> r.value.bytes == callerBytes[..U32(valueLen)]
    ensures r.value.Borrowed? ==> r.value.ref == value
  {
    CStrIsCopy(key);
    SameStringSameFingerprint(magic, key, CStr(key));
    Entry(CStr(key),
          if valueLen != 0 then Owned(callerBytes[..U32(valueLen)]) else Borrowed(value),
          Fingerprint(magic, key))
  }

  /**
   * A bucket after `hash_put` of entry `e`: the entry that `hash_get` finds
   * for `e`'s fingerprint is overwritten in its own cell; without one, `e`
   * is pushed on the bucket.
   */
  function Upsert(s: Bucket, e: Entry): (r: Bucket)
    ensures |r| == if FindFp(s, e.hashKey).Some? then |s| else |s| + 1
    ensures forall c :: c in s && c.data.hashKey != e.hashKey ==> c in r
  {
    assert forall c :: c in s ==> exists k :: 0 <= k < |s| && s[k] == c;
    match FindFp(s, e.hashKey)
    case None => Prepend(s, e)
    case Some(j) => Overwrite(s, j, e)
  }

  /** The test of `hash_key_free`: the same fingerprint and `strcmp` equal to `key`. */
  predicate Matches(e: Entry, fp: bv32, key: seq<bv8>): (m: bool)
    ensures m ==> e.hashKey == fp && CLen(e.key) == CLen(key)
    ensures m ==> forall j :: 0 <= j < CLen(key) ==> e.key[j] == key[j]
  {
    e.hashKey == fp && CStr(e.key) == CStr(key)
  }

  /** A bucket after `hash_key_free`: every matching cell unlinked, the rest in order. */
  function RemoveMatching(s: Bucket, fp: bv32, key: seq<bv8>): (r: Bucket)
    ensures |r| <= |s|
    ensures forall c :: c in r ==> c in s && !Matches(c.data, fp, key)
  {
    if s == [] then []
    else if Matches(s[0].data, fp, key) then RemoveMatching(s[1..], fp, key)
    else [s[0]] + RemoveMatching(s[1..], fp, key)
  }

  /**
   * An entry stored in bucket `b`: its fingerprint is the cached one, it
   * selects bucket `b`, and its key is a NUL-free copy.
   */
  ghost predicate EntryOk(e: Entry, b: nat, size: bv32, magic: seq<bv64>)
    requires PowerOfTwo(size) && |magic| == 256
  {
    e.hashKey == Fingerprint(magic, e.key) && BucketOf(e.hashKey, size) == b
    && CLen(e.key) == |e.key|
  }

  /**
   * Bucket `b` is a well-formed chain of entries that belong to it, no two
   * of which share a fingerprint.
   */
  ghost predicate BucketOk(s: Bucket, b: nat, size: bv32, magic: seq<bv64>)
    requires PowerOfTwo(size) && |magic| == 256
  {
    WellFormed(s) && NoDup(Fps(s))
    && forall c :: c in s ==> EntryOk(c.data, b, size, magic)
  }

  /** Every bucket of the array is well formed and holds only its own entries. */
  ghost predicate TableOk(bs: seq<Bucket>, size: bv32, magic: seq<bv64>)
    requires PowerOfTwo(size) && |magic| == 256
  {
    forall b :: 0 <= b < |bs| ==> BucketOk(bs[b], b, size, magic)
  }

  /** Replacing one bucket by a well-formed one keeps the table well formed. */
  lemma TableUpdate(bs: seq<Bucket>, b: nat, nb: Bucket, size: bv32, magic: seq<bv64>)
    requires PowerOfTwo(size) && |magic| == 256 && b < |bs|
    requires TableOk(bs, size, magic) && BucketOk(nb, b, size, magic)
    ensures TableOk(bs[b := nb], size, magic)
  {
  }

  /** The first match is the only index with its properties. */
  lemma FindFpAt(s: Bucket, fp: bv32, j: nat)
    requires j < |s| && s[j].data.hashKey == fp
    requires forall k :: 0 <= k < j ==> s[k].data.hashKey != fp
    ensures FindFp(s, fp) == Some(j)
  {
  }

  /**
   * After `hash_put` of `e`, a lookup of `e`'s fingerprint finds `e`, and a
   * lookup of any other fingerprint finds what it found before.
   */
  lemma UpsertThenFind(s: Bucket, e: Entry, fp: bv32)
    ensures EntryAt(Upsert(s, e), fp) == if fp == e.hashKey then Some(e) else EntryAt(s, fp)
  {
    var t := Upsert(s, e);
    match FindFp(s, e.hashKey)
    case None =>
      assert t[1..] == s;
      if fp != e.hashKey {
        match FindFp(s, fp)
        case None =>
        case Some(j) => FindFpAt(t, fp, j + 1);
      }
    case Some(j) =>
      if fp == e.hashKey {
        FindFpAt(t, fp, j);
      } else {
        match FindFp(s, fp)
        case None =>
        case Some(i) => FindFpAt(t, fp, i);
      }
  }

  /**
   * The shape of `hash_put`: a replace keeps the bucket's length and cells
   * and changes only the found cell's entry; an insert puts a fresh cell in
   * front of the unchanged bucket.
   */
  lemma UpsertShape(s: Bucket, e: Entry)
    requires WellFormed(s)
    ensures FindFp(s, e.hashKey).Some? ==>
      var j := FindFp(s, e.hashKey).value;
      |Upsert(s, e)| == |s| && Ids(Upsert(s, e)) == Ids(s) && Upsert(s, e)[j].data == e
      && forall k :: 0 <= k < |s| && k != j ==> Upsert(s, e)[k] == s[k]
    ensures FindFp(s, e.hashKey).None? ==>
      |Upsert(s, e)| == |s| + 1 && Upsert(s, e)[0].data == e && Upsert(s, e)[1..] == s
      && Upsert(s, e)[0].id !in Ids(s)
    ensures WellFormed(Upsert(s, e))
  {
    match FindFp(s, e.hashKey)
    case None => PrependThenPop(s, e);
    case Some(j) => OverwriteOnlyAt(s, j, e, j);
  }

  /** An insert by `hash_put` keeps a bucket well formed when the new entry belongs to it. */
  lemma PrependKeepsBucketOk(s: Bucket, e: Entry, b: nat, size: bv32, magic: seq<bv64>)
    requires PowerOfTwo(size) && |magic| == 256
    requires BucketOk(s, b, size, magic) && EntryOk(e, b, size, magic)
    requires FindFp(s, e.hashKey).None?
    ensures BucketOk(Prepend(s, e), b, size, magic)
  {
    PrependThenPop(s, e);
    var t := Prepend(s, e);
    assert Fps(t) == [e.hashKey] + Fps(s) by {
      assert t[1..] == s;
    }
    assert e.hashKey !in Fps(s) by {
      forall j | 0 <= j < |Fps(s)| ensures Fps(s)[j] != e.hashKey {
        assert Fps(s)[j] == s[j].data.hashKey;
      }
    }
    NoDupCons(e.hashKey, Fps(s));
    forall c | c in t ensures EntryOk(c.data, b, size, magic) {
      if c != t[0] {
        assert c in t[1..];
      }
    }
  }

  /** A replace by `hash_put` keeps a bucket well formed when the new entry belongs to it. */
  lemma OverwriteKeepsBucketOk(s: Bucket, e: Entry, j: nat, b: nat, size: bv32, magic: seq<bv64>)
    requires PowerOfTwo(size) && |magic| == 256
    requires BucketOk(s, b, size, magic) && EntryOk(e, b, size, magic)
    requires j < |s| && s[j].data.hashKey == e.hashKey
    ensures BucketOk(Overwrite(s, j, e), b, size, magic)
  {
    OverwriteOnlyAt(s, j, e, j);
    var t := Overwrite(s, j, e);
    assert Fps(t) == Fps(s);
    forall c | c in t ensures EntryOk(c.data, b, size, magic) {
      var i :| 0 <= i < |t| && t[i] == c;
      if i != j {
        assert t[i] == s[i];
      }
    }
  }

  /** `hash_put` keeps a bucket well formed when the new entry belongs to it. */
  lemma UpsertKeepsBucketOk(s: Bucket, e: Entry, b: nat, size: bv32, magic: seq<bv64>)
    requires PowerOfTwo(size) && |magic| == 256
    requires BucketOk(s, b, size, magic) && EntryOk(e, b, size, magic)
    ensures BucketOk(Upsert(s, e), b, size, magic)
  {
    match FindFp(s, e.hashKey)
    case None => PrependKeepsBucketOk(s, e, b, size, magic);
    case Some(j) => OverwriteKeepsBucketOk(s, e, j, b, size, magic);
  }

  /** The cells `hash_key_free` keeps are the cells of the bucket that do not match. */
  lemma {:induction false} RemoveMatchingKeeps(s: Bucket, fp: bv32, key: seq<bv8>)
    ensures forall c :: c in RemoveMatching(s, fp, key) <==> c in s && !Matches(c.data, fp, key)
    ensures |RemoveMatching(s, fp, key)| <= |s|
  {
    if s != [] {
      RemoveMatchingKeeps(s[1..], fp, key);
      assert s == [s[0]] + s[1..];
    }
  }

  /** Scanning one more cell: the filter of a longer prefix. */
  lemma {:induction false} RemoveMatchingSnoc(s: Bucket, c: Cell<Entry>, fp: bv32, key: seq<bv8>)
    ensures RemoveMatching(s + [c], fp, key)
         == RemoveMatching(s, fp, key) + (if Matches(c.data, fp, key) then [] else [c])
  {
    if s != [] {
      assert (s + [c])[1..] == s[1..] + [c];
      RemoveMatchingSnoc(s[1..], c, fp, key);
    } else {
      assert [] + [c] == [c];
    }
  }

  /**
   * One turn of the `hash_key_free` loop.  `chain` is the bucket so far:
   * the kept cells of the first `k` original cells, then the unscanned
   * rest; the cursor `p` is at the first unscanned cell.  Unlinking a
   * matching cell, or stepping over one that does not match, gives the
   * same picture for `k + 1`.
   */
  lemma RemoveStep(orig: Bucket, chain: Bucket, k: nat, p: nat, fp: bv32, key: seq<bv8>)
    requires k < |orig|
    requires chain == RemoveMatching(orig[..k], fp, key) + orig[k..]
    requires p == |RemoveMatching(orig[..k], fp, key)|
    ensures p < |chain| && chain[p] == orig[k]
    ensures Matches(orig[k].data, fp, key) ==>
      chain[..p] + chain[p + 1..] == RemoveMatching(orig[..k + 1], fp, key) + orig[k + 1..]
      && p == |RemoveMatching(orig[..k + 1], fp, key)|
    ensures !Matches(orig[k].data, fp, key) ==>
      chain == RemoveMatching(orig[..k + 1], fp, key) + orig[k + 1..]
      && p + 1 == |RemoveMatching(orig[..k + 1], fp, key)|
  {
    assert orig[..k + 1] == orig[..k] + [orig[k]];
    RemoveMatchingSnoc(orig[..k], orig[k], fp, key);
    var kept := RemoveMatching(orig[..k], fp, key);
    assert chain[..p] == kept && chain[p + 1..] == orig[k + 1..];
    assert orig[k..] == [orig[k]] + orig[k + 1..];
  }

  /** Putting a new value in front of a sequence without repeats makes none. */
  lemma NoDupCons<X>(x: X, t: seq<X>)
    requires x !in t && NoDup(t)
    ensures NoDup([x] + t)
  {
    var u := [x] + t;
    forall i, j | 0 <= i < j < |u| ensures u[i] != u[j] {
      assert u[j] == t[j - 1];
      if i > 0 {
        assert u[i] == t[i - 1];
      }
    }
  }

  /** The head cell of a bucket with distinct addresses and fingerprints shares neither with its tail. */
  lemma HeadApart(s: Bucket)
    requires s != [] && WellFormed(s) && NoDup(Fps(s))
    ensures forall c :: c in s[1..] ==> c.id != s[0].id && c.data.hashKey != s[0].data.hashKey
    ensures WellFormed(s[1..]) && NoDup(Fps(s[1..]))
  {
    HeadFingerprintUnique(s);
    assert Ids(s[1..]) == Ids(s)[1..];
    forall c | c in s[1..] ensures c.id != s[0].id && c.data.hashKey != s[0].data.hashKey {
      var i :| 0 <= i < |s[1..]| && s[1..][i] == c;
      assert Ids(s)[0] != Ids(s)[i + 1];
    }
  }

  /** A cell whose address and fingerprint occur nowhere in `r` can go in front of it. */
  lemma ConsApart(c: Cell<Entry>, r: Bucket)
    requires WellFormed(r) && NoDup(Fps(r))
    requires forall d :: d in r ==> d.id != c.id && d.data.hashKey != c.data.hashKey
    ensures WellFormed([c] + r) && NoDup(Fps([c] + r))
  {
    assert Ids([c] + r) == [c.id] + Ids(r);
    assert Fps([c] + r) == [c.data.hashKey] + Fps(r);
    forall k | 0 <= k < |r| ensures Ids(r)[k] != c.id && Fps(r)[k] != c.data.hashKey {
      assert r[k] in r;
    }
    NoDupCons(c.id, Ids(r));
    NoDupCons(c.data.hashKey, Fps(r));
  }

  /** `hash_key_free` keeps a chain well formed and its fingerprints distinct. */
  lemma {:induction false} RemoveMatchingKeepsDistinct(s: Bucket, fp: bv32, key: seq<bv8>)
    requires WellFormed(s) && NoDup(Fps(s))
    ensures WellFormed(RemoveMatching(s, fp, key)) && NoDup(Fps(RemoveMatching(s, fp, key)))
  {
    if s != [] {
      HeadApart(s);
      RemoveMatchingKeepsDistinct(s[1..], fp, key);
      if !Matches(s[0].data, fp, key) {
        RemoveMatchingKeeps(s[1..], fp, key);
        ConsApart(s[0], RemoveMatching(s[1..], fp, key));
      }
    }
  }

  /** `hash_key_free` keeps a bucket well formed. */
  lemma RemoveMatchingKeepsBucketOk(s: Bucket, fp: bv32, key: seq<bv8>, b: nat, size: bv32, magic: seq<bv64>)
    requires PowerOfTwo(size) && |magic| == 256
    requires BucketOk(s, b, size, magic)
    ensures BucketOk(RemoveMatching(s, fp, key), b, size, magic)
  {
    RemoveMatchingKeeps(s, fp, key);
    RemoveMatchingKeepsDistinct(s, fp, key);
  }

  /** With no matching cell, `hash_key_free` leaves the bucket as it is. */
  lemma {:induction false} NothingToRemove(s: Bucket, fp: bv32, key: seq<bv8>)
    requires forall c :: c in s ==> !Matches(c.data, fp, key)
    ensures RemoveMatching(s, fp, key) == s
  {
    if s != [] {
      NothingToRemove(s[1..], fp, key);
      assert s == [s[0]] + s[1..];
    }
  }

  /**
   * In a bucket where fingerprints are distinct, `hash_key_free` unlinks at
   * most one cell, although it scans the whole chain.
   */
  lemma {:induction false} RemoveAtMostOne(s: Bucket, fp: bv32, key: seq<bv8>)
    requires NoDup(Fps(s))
    ensures |s| - 1 <= |RemoveMatching(s, fp, key)| <= |s|
  {
    RemoveMatchingKeeps(s, fp, key);
    if s != [] {
      assert NoDup(Fps(s[1..])) by {
        assert Fps(s[1..]) == Fps(s)[1..];
      }
      if Matches(s[0].data, fp, key) {
        forall c | c in s[1..] ensures !Matches(c.data, fp, key) {
          var i :| 0 <= i < |s[1..]| && s[1..][i] == c;
          assert Fps(s)[0] != Fps(s)[i + 1];
        }
        NothingToRemove(s[1..], fp, key);
      } else {
        RemoveAtMostOne(s[1..], fp, key);
      }
    }
  }

  /** A lookup skips a head cell with another fingerprint. */
  lemma EntryAtTail(s: Bucket, q: bv32)
    requires s != [] && s[0].data.hashKey != q
    ensures EntryAt(s, q) == EntryAt(s[1..], q)
  {
  }

  /** In a bucket where fingerprints are distinct, the head's fingerprint occurs nowhere else. */
  lemma HeadFingerprintUnique(s: Bucket)
    requires s != [] && NoDup(Fps(s))
    ensures FindFp(s[1..], s[0].data.hashKey) == None
    ensures NoDup(Fps(s[1..]))
  {
    assert Fps(s[1..]) == Fps(s)[1..];
    forall i | 0 <= i < |s[1..]| ensures s[1..][i].data.hashKey != s[0].data.hashKey {
      assert Fps(s)[0] != Fps(s)[i + 1];
    }
  }

  /** The case of `RemoveThenFind` where the head cell carries the fingerprint looked up. */
  lemma RemoveThenFindAtHead(s: Bucket, fp: bv32, key: seq<bv8>)
    requires s != [] && NoDup(Fps(s))
    ensures var q := s[0].data.hashKey;
      EntryAt(RemoveMatching(s, fp, key), q)
        == if Matches(s[0].data, fp, key) then None else Some(s[0].data)
  {
    var q := s[0].data.hashKey;
    HeadFingerprintUnique(s);
    if Matches(s[0].data, fp, key) {
      RemoveMatchingKeeps(s[1..], fp, key);
      var r := RemoveMatching(s[1..], fp, key);
      forall i | 0 <= i < |r| ensures r[i].data.hashKey != q {
        assert r[i] in s[1..];
      }
    } else {
      FindFpAt([s[0]] + RemoveMatching(s[1..], fp, key), q, 0);
    }
  }

  /**
   * Lookup after delete, in a bucket where fingerprints are distinct: the
   * lookup of `key`'s fingerprint comes back empty when the entry it found
   * carried `key` itself; when it carried another key with the same
   * fingerprint, that entry is still found.  Other fingerprints find what
   * they found before.
   */
  lemma {:induction false} RemoveThenFind(s: Bucket, fp: bv32, key: seq<bv8>, q: bv32)
    requires NoDup(Fps(s))
    ensures EntryAt(RemoveMatching(s, fp, key), q)
         == if q == fp && EntryAt(s, q).Some? && Matches(EntryAt(s, q).value, fp, key)
            then None else EntryAt(s, q)
  {
    if s != [] {
      if s[0].data.hashKey == q {
        RemoveThenFindAtHead(s, fp, key);
      } else {
        HeadFingerprintUnique(s);
        RemoveThenFind(s[1..], fp, key, q);
        EntryAtTail(s, q);
        if !Matches(s[0].data, fp, key) {
          EntryAtTail([s[0]] + RemoveMatching(s[1..], fp, key), q);
          assert ([s[0]] + RemoveMatching(s[1..], fp, key))[1..] == RemoveMatching(s[1..], fp, key);
        }
      }
    }
  }

  /**
   * Storing the bucket `hash_put` builds back in its place keeps the table
   * well formed, and the entry's fingerprint then finds the entry.
   */
  lemma PutKeepsTable(bs: seq<Bucket>, b: nat, e: Entry, size: bv32, magic: seq<bv64>)
    requires PowerOfTwo(size) && |magic| == 256 && b < |bs| && TableOk(bs, size, magic)
    requires EntryOk(e, b, size, magic)
    ensures TableOk(bs[b := Upsert(bs[b], e)], size, magic)
    ensures EntryAt(Upsert(bs[b], e), e.hashKey) == Some(e)
  {
    UpsertKeepsBucketOk(bs[b], e, b, size, magic);
    UpsertThenFind(bs[b], e, e.hashKey);
    TableUpdate(bs, b, Upsert(bs[b], e), size, magic);
  }

  /**
   * Storing the filtered bucket back keeps the table well formed, and a
   * lookup of the deleted fingerprint then finds what `RemoveThenFind` says.
   */
  lemma DeleteKeepsTable(bs: seq<Bucket>, b: nat, fp: bv32, key: seq<bv8>, size: bv32, magic: seq<bv64>)
    requires PowerOfTwo(size) && |magic| == 256 && b < |bs| && TableOk(bs, size, magic)
    ensures TableOk(bs[b := RemoveMatching(bs[b], fp, key)], size, magic)
    ensures EntryAt(RemoveMatching(bs[b], fp, key), fp)
         == if EntryAt(bs[b], fp).Some? && Matches(EntryAt(bs[b], fp).value, fp, key)
            then None else EntryAt(bs[b], fp)
  {
    assert BucketOk(bs[b], b, size, magic);
    RemoveMatchingKeepsBucketOk(bs[b], fp, key, b, size, magic);
    TableUpdate(bs, b, RemoveMatching(bs[b], fp, key), size, magic);
    RemoveThenFind(bs[b], fp, key, fp);
  }

  /** A fingerprint table whose every word is 1. */
  function AllOnes(): (m: seq<bv64>)
    ensures |m| == 256 && forall i :: 0 <= i < 256 ==> m[i] == 1
  {
    seq(256, _ => 1)
  }

  /**
   * Lookup compares fingerprints only.  With the all-ones table the keys
   * "a" and "b" both hash to 1, so a put of "b" after a put of "a" into an
   * empty bucket overwrites "a"'s entry, and a lookup of "a" then finds
   * "b"'s entry; a delete of "a" then finds no entry whose key is "a"
   * and leaves the bucket as it is.
   */
  lemma CollisionOverwrites(ra: Ref, rb: Ref)
    ensures Fingerprint(AllOnes(), [0x61]) == 1 && Fingerprint(AllOnes(), [0x62]) == 1
    ensures var ea := NewEntry(AllOnes(), [0x61], ra, 0, []);
      var eb := NewEntry(AllOnes(), [0x62], rb, 0, []);
      Upsert(Upsert([], ea), eb) == [Cell(0, eb)]
      && EntryAt(Upsert(Upsert([], ea), eb), Fingerprint(AllOnes(), [0x61])) == Some(eb)
      && eb.key == [0x62] && eb.value == Borrowed(rb)
      && RemoveMatching(Upsert(Upsert([], ea), eb), 1, [0x61]) == Upsert(Upsert([], ea), eb)
  {
    var m := AllOnes();
    SingleByteFingerprint(m, 0x61);
    SingleByteFingerprint(m, 0x62);
    assert Word(m, 0x61 ^ 0x5B) == 1 && Word(m, 0x62 ^ 0x5B) == 1;
    CLenOfNulFree([0x61]);
    CLenOfNulFree([0x62]);
    var ea := NewEntry(m, [0x61], ra, 0, []);
    var eb := NewEntry(m, [0x62], rb, 0, []);
    assert Upsert([], ea) == [Cell(0, ea)];
    FindFpAt([Cell(0, ea)], 1, 0);
    FindFpAt([Cell(0, eb)], 1, 0);
  }

  /**
   * The loop of `hash_key_free` (lines 260-272) on one chain: a cursor walks
   * the slots; a cell whose entry matches is unlinked and the cursor stays
   * put, any other cell is stepped over.
   */
  method UnlinkMatching(bucket: Bucket, fp: bv32, key: seq<bv8>) returns (chain: Bucket)
    ensures chain == RemoveMatching(bucket, fp, key)
  {
    chain := bucket;
    ghost var k := 0;
    var p := 0;
    while p < |chain|
      invariant 0 <= k <= |bucket|
      invariant chain == RemoveMatching(bucket[..k], fp, key) + bucket[k..]
      invariant p == |RemoveMatching(bucket[..k], fp, key)|
      decreases |chain| - p
    {
      RemoveStep(bucket, chain, k, p, fp, key);
      var entry := chain[p].data;
      if entry.hashKey == fp && CStr(entry.key) == CStr(key) {
        chain := chain[..p] + chain[p + 1..];
      } else {
        p := p + 1;
      }
      k := k + 1;
    }
    assert k == |bucket| && bucket[..k] == bucket;
  }

  /** `hash_t`: the bucket array of `size` chains and the fingerprint table it hashes with. */
  class HashTable {
    const magic: seq<bv64>
    const size: bv32
    const buckets: array<Bucket>

    ghost predicate Valid()
      reads buckets
    {
      |magic| == 256 && PowerOfTwo(size) && buckets.Length == U32(size)
      && TableOk(buckets[..], size, magic)
    }

    /** The bucket `key` hashes to. */
    ghost function BucketFor(key: seq<bv8>): nat
      requires |magic| == 256 && PowerOfTwo(size)
    {
      BucketOf(Fingerprint(magic, key), size)
    }

    /** The entry a lookup of `key` finds. */
    ghost function Lookup(key: seq<bv8>): Option<Entry>
      reads buckets
      requires Valid()
    {
      EntryAt(buckets[BucketFor(key)], Fingerprint(magic, key))
    }

    /**
     * `new_hash` (lines 177-185): `2^n` buckets, all NULL.  `1 << n` is an
     * `int` shift, defined only while the result fits.
     */
    constructor (magic: seq<bv64>, n: bv8)
      requires |magic| == 256 && n < 31
      ensures Valid() && fresh(buckets)
      ensures this.magic == magic && size == 1 << n
      ensures forall b :: 0 <= b < buckets.Length ==> buckets[b] == []
    {
      this.magic := magic;
      size := 1 << n;
      buckets := new Bucket[U32(1 << n)](_ => []);
    }

    /**
     * `hash_get` (lines 201-215): the slot of the first entry in the key's
     * bucket whose cached fingerprint equals the key's, or NULL.  The key
     * string itself is never compared.
     */
    method Get(key: seq<bv8>) returns (r: Option<Slot>)
      requires Valid()
      ensures var b := BucketFor(key); var fp := Fingerprint(magic, key);
        match r
        case None => forall j :: 0 <= j < |buckets[b]| ==> buckets[b][j].data.hashKey != fp
        case Some(slot) =>
          slot.bucket == b && slot.pos < |buckets[b]| && buckets[b][slot.pos].data.hashKey == fp
          && forall j :: 0 <= j < slot.pos ==> buckets[b][j].data.hashKey != fp
      ensures var b := BucketFor(key);
        r == match FindFp(buckets[b], Fingerprint(magic, key))
             case None => None
             case Some(j) => Some(Slot(b, j))
    {
      var hashKey := FhashRaw(magic, key);
      var b := BucketOf(hashKey, size);
      var p := 0;
      while p < |buckets[b]|
        invariant 0 <= p <= |buckets[b]|
        invariant forall j :: 0 <= j < p ==> buckets[b][j].data.hashKey != hashKey
      {
        if buckets[b][p].data.hashKey == hashKey {
          FindFpAt(buckets[b], hashKey, p);
          return Some(Slot(b, p));
        }
        p := p + 1;
      }
      return None;
    }

    /**
     * `hash_get_value` (lines 247-254): the value of the entry `hash_get`
     * finds, or NULL.
     */
    method GetValue(key: seq<bv8>) returns (r: Option<Value>)
      requires Valid()
      ensures r.Some? <==> Lookup(key).Some?
      ensures r.Some? ==> r.value == Lookup(key).value.value
    {
      var slot := Get(key);
      if slot.Some? {
        return Some(buckets[slot.value.bucket][slot.value.pos].data.value);
      }
      return None;
    }

    /**
     * `hash_put` (lines 218-245): builds the entry, then overwrites the
     * entry `hash_get` finds in its cell, or pushes the entry on the
     * key's bucket.  No other bucket changes, and a lookup of the key then
     * finds the new entry.
     */
    method Put(key: seq<bv8>, value: Ref, valueLen: bv32, callerBytes: seq<bv8>)
      requires Valid()
      requires U32(valueLen) <= |callerBytes|
      modifies buckets
      ensures Valid()
      ensures var b := BucketFor(key);
        buckets[b] == Upsert(old(buckets[b]), NewEntry(magic, key, value, valueLen, callerBytes))
      ensures forall j :: 0 <= j < buckets.Length && j != BucketFor(key) ==> buckets[j] == old(buckets[j])
      ensures Lookup(key) == Some(NewEntry(magic, key, value, valueLen, callerBytes))
    {
      var hash32 := FhashRaw(magic, key);
      var b := BucketOf(hash32, size);
      var entry := Entry(CStr(key),
                         if valueLen != 0 then Owned(callerBytes[..U32(valueLen)]) else Borrowed(value),
                         hash32);
      assert entry == NewEntry(magic, key, value, valueLen, callerBytes);
      ghost var before := buckets[..];
      PutKeepsTable(before, b, entry, size, magic);
      var h := Get(key);
      var chain := buckets[b];
      if h == None {
        chain := [Cell(FreshId(chain), entry)] + chain;
      } else {
        var pos := h.value.pos;
        chain := chain[pos := Cell(chain[pos].id, entry)];
      }
      assert chain == Upsert(before[b], entry);
      buckets[b] := chain;
      assert buckets[..] == before[b := chain];
    }

    /**
     * `hash_key_free` (lines 255-274): walks the key's bucket through its
     * slots and unlinks every cell whose entry has the key's fingerprint and
     * `strcmp`-equal key, keeping the rest in order.  Returns NULL.  The
     * chain is edited in a local and stored back into its bucket once.
     */
    method Delete(key: seq<bv8>) returns (r: Option<Value>)
      requires Valid()
      modifies buckets
      ensures Valid() && r == None
      ensures var b := BucketFor(key);
        buckets[b] == RemoveMatching(old(buckets[b]), Fingerprint(magic, key), key)
      ensures forall j :: 0 <= j < buckets.Length && j != BucketFor(key) ==> buckets[j] == old(buckets[j])
      ensures Lookup(key)
           == if old(Lookup(key)).Some? && CStr(old(Lookup(key)).value.key) == CStr(key)
              then None else old(Lookup(key))
    {
      var hashKey := FhashRaw(magic, key);
      var b := BucketOf(hashKey, size);
      ghost var before := buckets[..];
      var chain := UnlinkMatching(buckets[b], hashKey, key);
      DeleteKeepsTable(before, b, hashKey, key, size, magic);
      buckets[b] := chain;
      assert buckets[..] == before[b := chain];
      return None;
    }
  }
}
