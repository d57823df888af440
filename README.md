# lispy.h: cons chains, the `fhash_raw` fingerprint and the fixed-size hash table

`lispy.h` is a single-header C library with three layers. This project models
each of them in Dafny and proves what each operation promises.

- **Cons-cell chains** (`node_t`, `ll_push`, `ll_pop`, `ll_rm`, `ll_free`,
  `nth`, `nthw`). These are singly linked lists of opaque payloads, edited in
  place through `node_t **` slots. The module is `Chains` (`chain.dfy`).
  - A chain is a `seq<Cell<T>>`, and each `Cell` pairs an address (`id`) with
    its payload.
  - A `Chain` object holds the slot, `cells`, which its methods reassign.
  - Addresses matter because `ll_rm` removes a cell by pointer identity.
  - `malloc` is modelled by `FreshId`: an address no cell of the same chain
    uses. Addresses are unique within a chain, not across chains (see
    "## Left out").
- **The fingerprint** `fhash_raw`. It is a left fold over the bytes of a
  NUL-terminated key. Each step XORs into a 32-bit accumulator a word from a
  256-entry table of 64-bit constants. The module is `Fingerprints`
  (`fingerprint.dfy`).
  - The table lives in `lispy_magic.h`, which is not part of this model. It is
    a parameter `magic: seq<bv64>` of length 256.
  - `StateAfter`/`Fingerprint` are the fold. `FhashRaw` is the loop itself,
    proved equal to the fold.
  - The status byte reads bytes 0 and 3 of `hash_key` as it lies in memory. The
    model takes a little-endian machine, so that is `h & 0xFF` xor `h >> 24`.
- **The hash table** `hash_t` (`new_hash`, `hash_get`, `hash_put`,
  `hash_get_value`, `hash_key_free`). It is a `HashTable` class over an array
  of `2^n` bucket chains; `size` and the array are constants. The module is
  `HashTables` (`hash_table.dfy`).
  - An entry holds a `strcpy` copy of its key, its value and its cached
    fingerprint.
  - A value is `Borrowed(ref)` when `value_len == 0`, and `Owned(bytes)`, a
    copy, otherwise. The `allocated` flag is `Value.Allocated()`, which
    `NewEntry` states is set exactly when `value_len != 0`.
  - The class invariant `Valid()`:
    - `size` is a power of two and the array has `size` buckets.
    - Every entry sits in bucket `hash_key & (size - 1)` and caches the
      fingerprint of its own key.
    - Each chain is acyclic and holds no two entries with the same fingerprint.
  - Lookup (`hash_get`) compares fingerprints only. Delete (`hash_key_free`)
    compares the fingerprint and then the key with `strcmp`. The model keeps
    this asymmetry as the code has it. `CollisionOverwrites` shows where it
    leads: with a table of all-1 words, "a" and "b" share fingerprint 1, so
    putting "b" overwrites "a"'s entry. A lookup of "a" then finds "b"'s value,
    and deleting "a" removes nothing.

`Bytes` (`bytes.dfy`) holds the C-string helpers: `strlen` as `CLen`, the
`strcpy` copy as `CStr`, and `U32`, the value of a `uint32_t`. `Options`
(`options.dfy`) holds `Option`, whose `None` stands for a NULL return.

## Model

| member | source | states |
|---|---|---|
| Chains.FreshId | lispy.h:39-47 | the address given to a new cell is larger than, so different from, every address already in the chain |
| Chains.PrependThenPop | lispy.h:48-62 | pushing keeps the chain acyclic, the new head holds the payload at an unused address, and its tail is exactly the old chain, so popping after pushing gives the chain and payloads back |
| Chains.UnlinkAt | lispy.h:63-75 | splicing out the first cell with a given address is cutting the chain at that cell's position |
| Chains.UnlinkAbsent | lispy.h:63-75 | splicing out an address the chain does not hold leaves the chain unchanged |
| Chains.UnlinkExactly | lispy.h:63-75 | in an acyclic chain, unlinking a present cell removes exactly that cell: one cell fewer, the address gone, the others in order, the chain still acyclic |
| Chains.OverwriteOnlyAt | lispy.h:129-139 | overwriting a payload keeps the length and every address; `nth` sees the new payload at that position only, and nothing changes when the position is out of range |
| Chains.Prepend | lispy.h:39-51 | `cons` in front of a chain: one cell more, the payload at the head at an address the chain does not use, the old chain as its tail |
| Chains.Unlink | lispy.h:65-72 | splicing out an address: the chain unchanged when the address is absent, one cell shorter when it is present, and no cell that was not there before |
| Chains.Overwrite | lispy.h:133-138 | overwriting a payload: same length and addresses, every other position unchanged, and the new payload at the position when it is in range |
| Chains.Chain.constructor | lispy.h:20-23 | a new slot holds the empty chain (NULL) |
| Chains.Chain.Push | lispy.h:48-51 | `ll_push`: the chain becomes a fresh cell with the payload in front of the old chain, and stays acyclic |
| Chains.Chain.Pop | lispy.h:53-62 | `ll_pop`: returns the head payload and leaves exactly the old tail; on an empty chain, returns NULL and changes nothing |
| Chains.Chain.Remove | lispy.h:63-75 | `ll_rm`: returns 0 and unlinks the cell when the address is in the chain; otherwise returns -1 and leaves the chain unchanged |
| Chains.Chain.Free | lispy.h:77-93 | `ll_free`: each turn of the do-while frees the head of what remains, leaving a suffix of the old chain, and the slot ends NULL |
| Chains.Chain.Nth | lispy.h:119-128 | `nth`: the payload at 0-based position `nelem` when `0 <= nelem < length`, NULL otherwise |
| Chains.Chain.NthWrite | lispy.h:129-139 | `nthw`: the chain with only position `nelem`'s payload replaced, or unchanged out of range |
| Bytes.CLen | lispy.h:226 | `strlen`: no NUL before the result, and a NUL at the result unless the bytes run out |
| Bytes.CStrIsCopy | lispy.h:226-228 | the `strcpy` copy of a key holds no NUL, and copying it again gives the same string |
| Bytes.CLenOfNulFree | lispy.h:226 | the `strlen` of bytes without a NUL is their number |
| Fingerprints.Absorb | lispy.h:194-195 | one turn of the loop: the counter goes up by one, `hash_key` changes by XOR with exactly the low word of the table entry at the masked index, and `status` becomes byte 0 xor byte 3 of the new `hash_key` |
| Fingerprints.StateAfter | lispy.h:189-196 | the scan state after `n` bytes: the initial `0`, `0x5a`, `0` for no bytes, and otherwise a status byte that is byte 0 xor byte 3 of `hash_key` |
| Fingerprints.Fingerprint | lispy.h:187-199 | the accumulator once the scan reaches the NUL; the empty key, or one that starts with its NUL, hashes to 0 |
| Fingerprints.FhashRaw | lispy.h:187-199 | the `while (*key)` loop computes the fold `Fingerprint`: byte `b` at 1-based position `i` XORs `low32(magic[(b ^ i ^ status) & 255])` into `hash_key`, then `status` becomes byte 0 xor byte 3 of `hash_key` |
| Fingerprints.StateAfterPrefix | lispy.h:193-196 | the scan of the first `n` bytes depends on those bytes only |
| Fingerprints.SameStringSameFingerprint | lispy.h:187-199 | keys holding the same C string have the same fingerprint, and the `strcpy` copy hashes like the key |
| Fingerprints.FingerprintSnoc | lispy.h:193-196 | appending a non-NUL byte runs exactly one more turn of the loop on the state the shorter key left |
| Fingerprints.FirstIndex | lispy.h:190-194 | the first byte meets counter 1 and status 0x5a, so it selects entry `b ^ 0x5b` |
| Fingerprints.SingleByteFingerprint | lispy.h:187-199 | a one-byte key hashes to the low word of table entry `b ^ 0x5b` |
| HashTables.BucketOf | lispy.h:203-204 | `hash_key & (size - 1)` is a valid bucket index when `size` is a power of two |
| HashTables.NewEntry | lispy.h:220-236 | the entry `hash_put` builds: a NUL-free copy holding the same C string as the key, the key's fingerprint (which is also the copy's), `allocated` set exactly when `value_len != 0`, the first `value_len` caller bytes when copied and the caller's pointer when borrowed |
| HashTables.Upsert | lispy.h:238-244 | the bucket after `hash_put`: the same length when the fingerprint was found, one more cell otherwise, and every cell with another fingerprint kept |
| HashTables.Matches | lispy.h:262-263 | the delete test (fingerprint, then `strcmp`): an entry that matches has the key's fingerprint, and its key has the same C-string length and the same bytes as the key |
| HashTables.RemoveMatching | lispy.h:255-274 | the bucket after `hash_key_free`: no longer than before, and every cell in it was in the bucket and does not match |
| HashTables.UnlinkMatching | lispy.h:260-272 | the cursor loop of `hash_key_free` on one chain computes `RemoveMatching` |
| HashTables.PutKeepsTable | lispy.h:238-244 | storing the bucket `hash_put` builds keeps every bucket well formed, and the entry's fingerprint then finds the entry |
| HashTables.DeleteKeepsTable | lispy.h:255-274 | storing the filtered bucket keeps every bucket well formed, and a lookup of the deleted fingerprint is empty exactly when the entry it found matched |
| HashTables.FindFp | lispy.h:205-213 | the scan of `hash_get` finds the first position whose cached fingerprint equals the one sought, or reports that none does |
| HashTables.FindFpAt | lispy.h:207-212 | a position that holds the fingerprint, with none before it, is the one the scan returns |
| HashTables.TableUpdate | lispy.h:239-243 | storing a well-formed bucket back in its place keeps every bucket well formed |
| HashTables.UpsertThenFind | lispy.h:238-244 | after `hash_put` of an entry, a lookup of its fingerprint finds it, and lookups of other fingerprints find what they found before |
| HashTables.UpsertShape | lispy.h:238-244 | a replace keeps the bucket's length and addresses and changes only the found cell's entry; an insert puts a fresh cell in front of the unchanged bucket |
| HashTables.PrependKeepsBucketOk | lispy.h:238-239 | an insert of an entry that belongs to the bucket keeps it well formed |
| HashTables.OverwriteKeepsBucketOk | lispy.h:240-243 | a replace by an entry with the same fingerprint keeps the bucket well formed |
| HashTables.UpsertKeepsBucketOk | lispy.h:238-244 | `hash_put` keeps the bucket well formed |
| HashTables.RemoveMatchingKeeps | lispy.h:261-272 | the cells `hash_key_free` keeps are exactly those whose entry does not match the fingerprint and key; the bucket does not grow |
| HashTables.RemoveMatchingSnoc | lispy.h:261-272 | the filter of a bucket one cell longer is the filter of the shorter one, plus that cell when it does not match |
| HashTables.RemoveStep | lispy.h:261-271 | one turn of the delete loop: unlinking a matching cell, or stepping past one that does not match, extends the filtered prefix by one original cell |
| HashTables.HeadApart | lispy.h:205-213 | in a well-formed bucket the head cell shares neither its address nor its fingerprint with the rest |
| HashTables.ConsApart | lispy.h:268 | a cell whose address and fingerprint occur nowhere in a well-formed chain can go in front of it |
| HashTables.RemoveMatchingKeepsDistinct | lispy.h:255-274 | `hash_key_free` keeps a chain acyclic and its fingerprints distinct |
| HashTables.RemoveMatchingKeepsBucketOk | lispy.h:255-274 | `hash_key_free` keeps the bucket well formed |
| HashTables.NothingToRemove | lispy.h:261-272 | with no matching cell, `hash_key_free` leaves the bucket as it is |
| HashTables.RemoveAtMostOne | lispy.h:261-272 | in a bucket with distinct fingerprints, the whole-chain scan unlinks at most one cell |
| HashTables.EntryAtTail | lispy.h:207-211 | a lookup steps over a head cell with another fingerprint |
| HashTables.HeadFingerprintUnique | lispy.h:205-213 | in a bucket with distinct fingerprints, the head's fingerprint is not found in the tail |
| HashTables.RemoveThenFindAtHead | lispy.h:255-274 | a lookup of the head's fingerprint after delete is empty exactly when the head matched the deleted key |
| HashTables.RemoveThenFind | lispy.h:201-215 | after delete, a lookup of the key's fingerprint comes back empty exactly when the entry it found had the same key string; an entry with a colliding fingerprint and another key is still found, and other fingerprints are unaffected |
| HashTables.CollisionOverwrites | lispy.h:201-245 | with an all-1 table, "a" and "b" both hash to 1: putting "b" after "a" leaves one cell holding "b", a lookup of "a" finds "b"'s entry, and deleting "a" removes nothing |
| HashTables.HashTable.constructor | lispy.h:177-185 | `new_hash(n)`: `size == 1 << n` buckets, every one NULL, and the table invariant holds |
| HashTables.HashTable.Get | lispy.h:201-215 | `hash_get`: the slot of the first entry in the key's bucket whose cached fingerprint equals the key's, or NULL when there is none; the key string is not compared |
| HashTables.HashTable.GetValue | lispy.h:247-254 | `hash_get_value`: the value of the entry a lookup of the key finds, or NULL exactly when it finds none |
| HashTables.HashTable.Put | lispy.h:218-245 | `hash_put`: the key's bucket becomes the old one with the entry found by fingerprint overwritten in its cell, or with the new entry pushed; no other bucket changes; the invariant holds; a lookup of the key then finds the new entry, with the value borrowed when `value_len == 0` and a copy of `value_len` bytes otherwise |
| HashTables.HashTable.Delete | lispy.h:255-274 | `hash_key_free`: returns NULL; the key's bucket loses every cell whose fingerprint and `strcmp` key match, the rest in order; no other bucket changes; the invariant holds; a lookup of the key then comes back empty, unless the entry it found carried another key |

## Left out

- `with_open_file` (lispy.h:17-18) is file-descriptor I/O and is not modelled.
- `mapa` and `mmapa` (lispy.h:151-162) apply a caller function to raw memory by stride. They are not modelled because they state nothing beyond calling the function on each address.
- `map` (lispy.h:141-149) applies a side-effecting function pointer and is not modelled.
  - Its `cursor` and `n` advance in lockstep, so it visits each payload once, in order. It does not skip every other element.
- `mapcar` (lispy.h:164-174) is not modelled.
  - As written, `n` never advances, so the function is always applied to the first payload.
  - The last cell's `next` is whatever the function returned. It is not an order-preserving map.
- The accessors `car`, `carw`, `cdr`, `cdrw`, `cadr` and `cadrw` (lispy.h:95-118) are one-field reads and writes. The models use `cells[i].data` and `cells[1..]` directly.
- Memory bookkeeping is not modelled; allocation is abstract (`FreshId`, a new array, sequence copies). So are its defects:
  - `cons` allocates `sizeof(node)`, the size of a pointer (lispy.h:41).
  - The bucket array is sized with `sizeof(uint64_t)` (lispy.h:182).
  - `malloc` failures are never checked.
  - The replace in `hash_put` does not free an owned old value (lispy.h:241-243).
  - `hash_key_free` unlinks cells without freeing them (lispy.h:267-268).
- The `allocated` flag is never set on the borrowed path of `hash_put` (lispy.h:234-236), yet `hash_key_free` reads it (lispy.h:265) to decide whether to free the value.
  - The model reads it as 0 there: `Value.Allocated()` is false for borrowed values, as `NewEntry` states.
  - `Value.Allocated()` is read nowhere else, because the model's `Delete` frees nothing.
- The `length` field of `hash_t` (lispy.h:28) is never initialised or used, and is not modelled.
- The contents of the magic table are not modelled. `lispy_magic.h` is not part of this model, so the table is a parameter. `HASH_MAGIC` (lispy.h:12) is unused.
- The comment at lispy.h:217 says the reverse of the code: a nonzero `value_len` makes a copy, and zero stores the pointer. The model follows the code.
- Chains.Chain.Pop: on an empty chain the C code dereferences NULL. The model returns NULL and changes nothing.
- HashTables.HashTable.constructor: requires `n < 31`. `1 << n` is an `int` shift, and is undefined once the result no longer fits.
- Chains.Chain.Nth and Chains.Chain.NthWrite: `nelem` is an unbounded integer, so the overflow of the `int` decrement `nelem--` (lispy.h:124, 134) is not modelled.
  - It overflows, which is undefined behaviour, only when `nelem` starts within the chain's length of `INT_MIN`.
  - Even if the count wrapped, it would need 2^31 more cells to reach 0. So the walk still ends with NULL or with no write, as in the model.
- Chains.Chain.Nth and HashTables.HashTable.GetValue keep "found a NULL payload" (`Some` of it) apart from "not found" (`None`). In C, a NULL payload returned by `nth` (lispy.h:125) or a NULL borrowed value returned by `hash_get_value` (lispy.h:251) looks the same as "not found".
- Chains.FreshId: addresses are unique within one chain only. Two things follow:
  - `Remove` handed a cell of another chain may unlink a cell of its own chain that happens to carry the same number. In C, `ll_rm` returns -1 there, because `malloc` gives every live cell of every chain a distinct address (lispy.h:41).
  - Chains never share cells, so the aliasing of two pointers into one chain, where a write by `nthw` through one is seen through the other, is not captured.
- HashTables.HashTable.Delete: the chain is edited in a local sequence (`UnlinkMatching`) and stored back into its bucket once. The C code writes through `node_t **` cursors into the live chain; the final bucket is the same.
- Keys and values are byte sequences. A borrowed value is an opaque reference (`Ref`), because the caller keeps the memory behind it.
  - The bytes behind a caller's pointer when `value_len != 0` are a parameter, `callerBytes`.
  - An owned copy is an immutable sequence, so later changes to the caller's buffer cannot reach it.
