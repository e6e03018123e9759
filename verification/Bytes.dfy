/** Bytes, byte strings, and what C code makes of them. */
module Bytes {

  type byte = bv8

  type bytes = seq<byte>

  /** The part of a byte string that C code sees: everything before a NUL. */
  function CString(s: bytes): (r: bytes)
    ensures 0 !in r
    ensures 0 !in s ==> r == s
    ensures r <= s && (|r| < |s| ==> s[|r|] == 0)
  {
    if s == [] || s[0] == 0 then []
    else
      assert s == [s[0]] + s[1..];
      [s[0]] + CString(s[1..])
  }

  /** The bytes of a list of byte strings, in order. */
  function Flat(packets: seq<bytes>): bytes {
    if packets == [] then [] else packets[0] + Flat(packets[1..])
  }

  lemma {:induction false} FlatAppend(packets: seq<bytes>, p: bytes)
    ensures Flat(packets + [p]) == Flat(packets) + p
  {
    if packets == [] {
      assert packets + [p] == [p];
      assert [p][1..] == [];
    } else {
      assert (packets + [p])[1..] == packets[1..] + [p];
      FlatAppend(packets[1..], p);
    }
  }
}
