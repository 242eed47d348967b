/** 16-bit characters and NUL-terminated strings. */
module Strings {

  type wchar = x: int | 0 <= x < 0x1_0000

  predicate NoNul(s: seq<wchar>) {
    forall i :: 0 <= i < |s| ==> s[i] != 0
  }

  /** The text of a string, without its terminator. */
  type Text = s: seq<wchar> | NoNul(s)

  /** A read through a pointer into the string: behind the text stands the terminator. */
  function CharAt(s: Text, i: nat): (c: wchar)
    requires i <= |s|
    ensures c == 0 <==> i == |s|
  {
    if i < |s| then s[i] else 0
  }
}
