/** Bytes and NUL-terminated strings, as the C code sees them. */
module Bytes {

  type byte = b: int | 0 <= b < 256

  /** A memory block holds a C string when a NUL lies inside it. */
  predicate Terminated(block: seq<byte>) {
    0 in block
  }

  /** The string strcmp and strlen see: everything before the first NUL. */
  function CStr(block: seq<byte>): (s: seq<byte>)
    ensures 0 !in s && s <= block
    ensures |s| < |block| ==> block[|s|] == 0
    ensures |s| == |block| <==> !Terminated(block)
  {
    if block == [] || block[0] == 0 then [] else [block[0]] + CStr(block[1..])
  }

  /** The first NUL decides the string, whatever follows it. */
  lemma {:induction false} CStrOfTerminated(s: seq<byte>, tail: seq<byte>)
    requires 0 !in s
    ensures CStr(s + [0] + tail) == s
  {
    var block := s + [0] + tail;
    if s == [] {
    } else {
      assert block[1..] == s[1..] + [0] + tail;
      CStrOfTerminated(s[1..], tail);
    }
  }

  /** A NUL bounds the string. */
  lemma {:induction false} CStrBefore(block: seq<byte>, n: nat)
    requires n < |block| && block[n] == 0
    ensures |CStr(block)| <= n
  {
    if block[0] != 0 {
      CStrBefore(block[1..], n - 1);
    }
  }

  /** A NUL behind the text adds nothing to the string in it. */
  lemma {:induction false} CStrOfText(text: seq<byte>, tail: seq<byte>)
    requires tail != [] && tail[0] == 0
    ensures CStr(text + tail) == CStr(text)
  {
    if text == [] {
      assert text + tail == tail;
    } else if text[0] != 0 {
      assert (text + tail)[1..] == text[1..] + tail;
      CStrOfText(text[1..], tail);
    }
  }

  /** The string in a text with its NUL inside is shorter than the text. */
  lemma {:induction false} CStrShorter(text: seq<byte>)
    ensures |CStr(text)| < |text| <==> 0 in text
  {
  }
}
