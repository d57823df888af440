/** Byte strings as the C code sees them: NUL-terminated, and 32-bit words. */
module Bytes {

  /** `strlen`: the number of bytes before the first NUL (all of them if there is none). */
  function CLen(s: seq<bv8>): (n: nat)
    ensures n <= |s|
    ensures forall j :: 0 <= j < n ==> s[j] != 0
    ensures n < |s| ==> s[n] == 0
  {
    if s == [] || s[0] == 0 then 0 else 1 + CLen(s[1..])
  }

  /** The C string held in `s`: what `strcpy` copies and `strcmp` compares. */
  function CStr(s: seq<bv8>): seq<bv8>
  {
    s[..CLen(s)]
  }

  /** A string copied with `strcpy` holds no NUL, and copying it again changes nothing. */
  lemma CStrIsCopy(s: seq<bv8>)
    ensures CLen(CStr(s)) == |CStr(s)|
    ensures CStr(CStr(s)) == CStr(s)
  {
    CLenOfNulFree(CStr(s));
  }

  lemma {:induction false} CLenOfNulFree(s: seq<bv8>)
    requires forall j :: 0 <= j < |s| ==> s[j] != 0
    ensures CLen(s) == |s|
  {
    if s != [] {
      CLenOfNulFree(s[1..]);
    }
  }

  /**
   * The value of a `uint32_t`, read byte by byte; written this way so that
   * the solver can relate it to the bit-vector operations.
   */
  function U32(x: bv32): nat
  {
    ((x >> 24) as bv8) as int * 0x100_0000 + (((x >> 16) & 0xFF) as bv8) as int * 0x1_0000
      + (((x >> 8) & 0xFF) as bv8) as int * 0x100 + ((x & 0xFF) as bv8) as int
  }
}
