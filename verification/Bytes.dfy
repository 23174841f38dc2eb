/** Bytes, characters and NUL-terminated C strings, as used by every module of the model. */
module Bytes {
  type Byte = bv8

  /** The characters of a C string, without its terminating NUL. */
  type CString = s: seq<Byte> | 0 !in s

  /** What `s[i]` reads in C: the terminating NUL is part of the storage. */
  function CharAt(s: CString, i: nat): (c: Byte)
    requires i <= |s|
    ensures c == 0 <==> i == |s|
  {
    if i < |s| then assert s[i] in s; s[i] else 0
  }

  datatype Option<+T> = None | Some(value: T)

  /** `isspace`. */
  predicate IsSpace(c: Byte) {
    c == 32 || 9 <= c <= 13
  }

  predicate IsDigit(c: Byte) {
    48 <= c <= 57
  }

  predicate IsHex(c: Byte) {
    IsDigit(c) || 65 <= c <= 70 || 97 <= c <= 102
  }
}
