/**
 * `fhash_raw` (lispy.h:187-199): the 32-bit fingerprint of a NUL-terminated
 * key, a left fold over its bytes driven by the 256-entry table
 * `hash_magic` of 64-bit words.  The table comes from `lispy_magic.h`, which
 * is not part of this model, so it is a parameter `magic`.
 */
module Fingerprints {
  import opened Bytes

  /** The three variables of the scan: `hash_key`, `status` and the position counter `i`. */
  datatype ScanState = ScanState(hashKey: bv32, status: bv8, i: bv32)

  /** `hash_key = 0`, `status = 0x5a`, `i = 0`. */
  const Seed := ScanState(0, 0x5A, 0)

  /** Assigning a `uint64_t` to the `uint32_t` accumulator keeps its low 32 bits. */
  function Low32(w: bv64): bv32
  {
    (w & 0xFFFF_FFFF) as bv32
  }

  /** The low word of table entry `idx`, the amount one byte XORs into `hash_key`. */
  function Word(magic: seq<bv64>, idx: bv8): bv32
    requires |magic| == 256
  {
    Low32(magic[idx])
  }

  /**
   * Byte 0 xor byte 3 of `hash_key` as it lies in memory, read
   * little-endian: the low byte and the high byte.
   */
  function StatusOf(h: bv32): bv8
  {
    ((h & 0xFF) ^ (h >> 24)) as bv8
  }

  /**
   * The table index `(*key ^ i ^ status) & 255`, computed in 32 bits.  The
   * byte is widened with zeros; a signed `char` would be sign-extended, but
   * the mask drops every bit above the low byte either way.
   */
  function Index(b: bv8, i: bv32, status: bv8): bv8
  {
    (((b as bv32) ^ i ^ (status as bv32)) & 255) as bv8
  }

  /**
   * One turn of the loop on byte `b`: `++i` (wrapping at 2^32), then the
   * accumulator and the status byte.
   */
  function Absorb(magic: seq<bv64>, st: ScanState, b: bv8): (r: ScanState)
    requires |magic| == 256
    ensures r.i == st.i + 1 && r.status == StatusOf(r.hashKey)
    ensures r.hashKey ^ st.hashKey == Word(magic, Index(b, r.i, st.status))
  {
    var i := st.i + 1;
    var h := st.hashKey ^ Word(magic, Index(b, i, st.status));
    ScanState(h, StatusOf(h), i)
  }

  /** The scan state after the first `n` bytes of `key`. */
  function StateAfter(magic: seq<bv64>, key: seq<bv8>, n: nat): (r: ScanState)
    requires |magic| == 256 && n <= |key|
    ensures n == 0 ==> r == Seed
    ensures n > 0 ==> r.status == StatusOf(r.hashKey)
  {
    if n == 0 then Seed else Absorb(magic, StateAfter(magic, key, n - 1), key[n - 1])
  }

  /**
   * The fingerprint: the accumulator once the scan reaches the NUL.  The
   * empty key, or one that starts with its NUL, hashes to 0.
   */
  function Fingerprint(magic: seq<bv64>, key: seq<bv8>): (r: bv32)
    requires |magic| == 256
    ensures key == [] || key[0] == 0 ==> r == 0
  {
    StateAfter(magic, key, CLen(key)).hashKey
  }

  /**
   * `fhash_raw` itself: the `while (*key)` loop, one `Absorb` per byte, up
   * to the NUL.
   */
  method FhashRaw(magic: seq<bv64>, key: seq<bv8>) returns (hashKey: bv32)
    requires |magic| == 256
    ensures hashKey == Fingerprint(magic, key)
  {
    hashKey := 0;
    var status: bv8 := 0x5A;
    var i: bv32 := 0;
    var k := 0;
    while k < |key| && key[k] != 0
      invariant k <= CLen(key)
      invariant ScanState(hashKey, status, i) == StateAfter(magic, key, k)
    {
      var next := Absorb(magic, ScanState(hashKey, status, i), key[k]);
      hashKey, status, i := next.hashKey, next.status, next.i;
      k := k + 1;
    }
  }

  /** The scan of the first `n` bytes depends on those bytes only. */
  lemma {:induction false} StateAfterPrefix(magic: seq<bv64>, a: seq<bv8>, b: seq<bv8>, n: nat)
    requires |magic| == 256 && n <= |a| && n <= |b| && a[..n] == b[..n]
    ensures StateAfter(magic, a, n) == StateAfter(magic, b, n)
  {
    if n > 0 {
      assert a[..n - 1] == a[..n][..n - 1] && b[..n - 1] == b[..n][..n - 1];
      assert a[n - 1] == a[..n][n - 1] && b[n - 1] == b[..n][n - 1];
      StateAfterPrefix(magic, a, b, n - 1);
    }
  }

  /**
   * Keys that hold the same C string have the same fingerprint: nothing
   * after the NUL is read, and the copy `strcpy` makes hashes like the key.
   */
  lemma SameStringSameFingerprint(magic: seq<bv64>, a: seq<bv8>, b: seq<bv8>)
    requires |magic| == 256 && CStr(a) == CStr(b)
    ensures Fingerprint(magic, a) == Fingerprint(magic, b)
    ensures Fingerprint(magic, CStr(a)) == Fingerprint(magic, a)
  {
    CStrIsCopy(a);
    var n := CLen(a);
    assert CLen(b) == |CStr(b)| == n;
    StateAfterPrefix(magic, a, b, n);
    assert CStr(a)[..n] == a[..n];
    StateAfterPrefix(magic, CStr(a), a, n);
  }

  /**
   * The fold step: appending a non-NUL byte to a NUL-free key runs one more
   * turn of the loop on the state the shorter key left behind.
   */
  lemma FingerprintSnoc(magic: seq<bv64>, key: seq<bv8>, b: bv8)
    requires |magic| == 256 && b != 0
    requires forall j :: 0 <= j < |key| ==> key[j] != 0
    ensures Fingerprint(magic, key) == StateAfter(magic, key, |key|).hashKey
    ensures Fingerprint(magic, key + [b])
         == Absorb(magic, StateAfter(magic, key, |key|), b).hashKey
  {
    var k := key + [b];
    CLenOfNulFree(key);
    CLenOfNulFree(k);
    assert k[..|key|] == key[..|key|];
    StateAfterPrefix(magic, k, key, |key|);
  }

  /** The first byte meets counter 1 and the initial status 0x5a. */
  lemma FirstIndex(b: bv8)
    ensures Index(b, 1, 0x5A) == b ^ 0x5B
  {
  }

  /** A one-byte key picks table entry `b ^ 1 ^ 0x5a`, that is `b ^ 0x5b`. */
  lemma SingleByteFingerprint(magic: seq<bv64>, b: bv8)
    requires |magic| == 256 && b != 0
    ensures Fingerprint(magic, [b]) == Word(magic, b ^ 0x5B)
  {
    FingerprintSnoc(magic, [], b);
    assert [] + [b] == [b];
    assert StateAfter(magic, [], 0) == Seed;
    FirstIndex(b);
  }
}
