/**
  A model of the one UTF-8 primitive the decoder calls: Go's
  `utf8.DecodeRune`, which reads the character starting at a byte position
  and reports its code point and its width in bytes. Ill-formed input
  (a stray continuation byte, an overlong or surrogate form, a truncated
  sequence) decodes as the replacement character with width 1. The
  acceptance ranges are those of section 4 of RFC 3629.
 */
module Utf8 {

  newtype byte = x: int | 0 <= x < 0x100

  /** The delimiter `|` that terminates a variable-length field. */
  const Bar: byte := 0x7C

  /** U+FFFD, returned for ill-formed input and at the end of input. */
  const RuneError: int := 0xFFFD

  /** A decoded character: its code point and the number of bytes it occupies. */
  datatype Rune = Rune(value: int, width: nat)

  predicate IsContinuation(b: byte) {
    0x80 <= b <= 0xBF
  }

  /** Length of the sequence a leading byte announces; 0 if it cannot lead one. */
  function LeadLength(b0: byte): nat {
    if b0 < 0x80 then 1
    else if b0 < 0xC2 then 0
    else if b0 < 0xE0 then 2
    else if b0 < 0xF0 then 3
    else if b0 < 0xF5 then 4
    else 0
  }

  /** Lowest byte allowed second, given the leading byte (rules out overlong forms). */
  function SecondLo(b0: byte): byte {
    if b0 == 0xE0 then 0xA0 else if b0 == 0xF0 then 0x90 else 0x80
  }

  /** Highest byte allowed second (rules out surrogates and code points past U+10FFFF). */
  function SecondHi(b0: byte): byte {
    if b0 == 0xED then 0x9F else if b0 == 0xF4 then 0x8F else 0xBF
  }

  /**
    The character that starts at byte `p` of `s`, as `utf8.DecodeRune(s[p:])`
    returns it. The contract holds what the field scanner relies on: a
    character always makes progress while bytes remain, never runs past the
    end, is `|` exactly when its first byte is 0x7C, and never hides a 0x7C
    byte inside itself.
   */
  function DecodeRune(s: seq<byte>, p: nat): (r: Rune)
    requires p <= |s|
    ensures p == |s| ==> r == Rune(RuneError, 0)
    ensures p < |s| ==> 1 <= r.width <= |s| - p
    ensures r.value == Bar as int <==> p < |s| && s[p] == Bar
    ensures r.value == Bar as int ==> r.width == 1
    ensures forall k :: p < k < p + r.width ==> IsContinuation(s[k])
    ensures 0 <= r.value <= 0x10FFFF
  {
    if p == |s| then Rune(RuneError, 0)
    else
      var b0 := s[p];
      var n := LeadLength(b0);
      if n == 1 then Rune(b0 as int, 1)
      else if n == 0 || |s| - p < n then Rune(RuneError, 1)
      else
        var b1 := s[p + 1];
        if b1 < SecondLo(b0) || SecondHi(b0) < b1 then Rune(RuneError, 1)
        else if n == 2 then
          Rune((b0 as int % 0x20) * 0x40 + b1 as int % 0x40, 2)
        else
          var b2 := s[p + 2];
          if !IsContinuation(b2) then Rune(RuneError, 1)
          else if n == 3 then
            Rune((b0 as int % 0x10) * 0x1000 + (b1 as int % 0x40) * 0x40 + b2 as int % 0x40, 3)
          else
            var b3 := s[p + 3];
            if !IsContinuation(b3) then Rune(RuneError, 1)
            else
              Rune((b0 as int % 0x08) * 0x40000 + (b1 as int % 0x40) * 0x1000
                   + (b2 as int % 0x40) * 0x40 + b3 as int % 0x40, 4)
  }

  /**
    The bytes of a text written one byte per character: each character's
    code modulo 256. For ASCII text, which is all the protocol's codes and
    the test messages use outside their values, this is the text's encoding.
   */
  function Bytes(s: string): (r: seq<byte>)
    ensures |r| == |s|
    ensures forall i :: 0 <= i < |s| ==> r[i] as int == s[i] as int % 0x100
  {
    seq(|s|, i requires 0 <= i < |s| => (s[i] as int % 0x100) as byte)
  }

  /** Writing two texts one after the other writes their bytes one after the other. */
  lemma BytesAppend(a: string, b: string)
    ensures Bytes(a + b) == Bytes(a) + Bytes(b)
  {
  }
}
