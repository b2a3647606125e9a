/** Well-formed UTF-8 byte sequences (table 3-7 of the Unicode Standard), the
    condition `String::from_utf8` checks. */
module Utf8 {
  import opened Prelude

  predicate Tail(b: byte) {
    0x80 <= b < 0xC0
  }

  /** Length of the well-formed character at the front of `s`, or 0 if there is none. */
  function CharLen(s: seq<byte>): (n: nat)
    ensures n <= |s|
  {
    if s == [] then 0
    else if s[0] < 0x80 then 1
    else if |s| >= 2 && 0xC2 <= s[0] < 0xE0 && Tail(s[1]) then 2
    else if |s| >= 3 && 0xE0 <= s[0] < 0xF0 && Tail(s[1]) && Tail(s[2])
            && (s[0] == 0xE0 ==> s[1] >= 0xA0) && (s[0] == 0xED ==> s[1] < 0xA0) then 3
    else if |s| >= 4 && 0xF0 <= s[0] < 0xF5 && Tail(s[1]) && Tail(s[2]) && Tail(s[3])
            && (s[0] == 0xF0 ==> s[1] >= 0x90) && (s[0] == 0xF4 ==> s[1] < 0x90) then 4
    else 0
  }

  predicate Valid(s: seq<byte>) {
    s == [] || (CharLen(s) > 0 && Valid(s[CharLen(s)..]))
  }

  // The encoding direction.

  /** The characters: code points that are not halves of a surrogate pair. */
  predicate IsScalar(c: nat) {
    c < 0xD800 || 0xE000 <= c < 0x11_0000
  }

  /** The bytes of a character: six bits per byte behind the first. */
  function EncodeChar(c: nat): (r: seq<byte>)
    requires IsScalar(c)
  {
    if c < 0x80 then [c]
    else if c < 0x800 then [0xC0 + c / 0x40, 0x80 + c % 0x40]
    else if c < 0x1_0000 then [0xE0 + c / 0x1000, 0x80 + c / 0x40 % 0x40, 0x80 + c % 0x40]
    else [0xF0 + c / 0x4_0000, 0x80 + c / 0x1000 % 0x40, 0x80 + c / 0x40 % 0x40, 0x80 + c % 0x40]
  }

  predicate AllScalars(cs: seq<nat>) {
    forall i :: 0 <= i < |cs| ==> IsScalar(cs[i])
  }

  function EncodeText(cs: seq<nat>): seq<byte>
    requires AllScalars(cs)
  {
    if cs == [] then [] else EncodeChar(cs[0]) + EncodeText(cs[1..])
  }

  /** The bytes are the encoding of some text. */
  ghost predicate IsText(s: seq<byte>) {
    exists cs: seq<nat> :: AllScalars(cs) && EncodeText(cs) == s
  }

  lemma {:induction false} CharRead(s: seq<byte>) returns (c: nat)
    requires CharLen(s) > 0
    ensures IsScalar(c) && EncodeChar(c) == s[..CharLen(s)]
  {
    var b0: int, n := s[0], CharLen(s);
    if n == 1 {
      c := b0;
    } else if n == 2 {
      c := (b0 - 0xC0) * 0x40 + (s[1] - 0x80);
    } else if n == 3 {
      var top: int := (b0 - 0xE0) * 0x40 + (s[1] - 0x80);
      c := top * 0x40 + (s[2] - 0x80);
      assert c / 0x40 == top && c / 0x1000 == top / 0x40;
    } else {
      var top: int := (b0 - 0xF0) * 0x40 + (s[1] - 0x80);
      var mid: int := top * 0x40 + (s[2] - 0x80);
      c := mid * 0x40 + (s[3] - 0x80);
      assert c / 0x40 == mid && c / 0x1000 == mid / 0x40 == top && c / 0x4_0000 == top / 0x40;
    }
  }

  lemma {:induction false} CharWritten(c: nat, rest: seq<byte>)
    requires IsScalar(c)
    ensures CharLen(EncodeChar(c) + rest) == |EncodeChar(c)| > 0
  {
  }

  /** Exactly the encodings of texts are valid. */
  lemma {:induction false} ValidExact(s: seq<byte>)
    ensures Valid(s) <==> IsText(s)
  {
    if Valid(s) { TextRead(s); }
    if IsText(s) {
      var cs: seq<nat> :| AllScalars(cs) && EncodeText(cs) == s;
      TextWritten(cs);
    }
  }

  lemma {:induction false} TextRead(s: seq<byte>)
    requires Valid(s)
    ensures IsText(s)
    decreases |s|
  {
    hide CharLen, EncodeChar;
    if s == [] {
      assert AllScalars([]) && EncodeText([]) == s;
    } else {
      var n := CharLen(s);
      var c := CharRead(s);
      TextRead(s[n..]);
      var cs: seq<nat> :| AllScalars(cs) && EncodeText(cs) == s[n..];
      var all := [c] + cs;
      assert all[1..] == cs && s == s[..n] + s[n..];
      assert AllScalars(all) && EncodeText(all) == s;
    }
  }

  lemma {:induction false} TextWritten(cs: seq<nat>)
    requires AllScalars(cs)
    ensures Valid(EncodeText(cs))
    decreases |cs|
  {
    hide CharLen, EncodeChar;
    if cs != [] {
      var rest := EncodeText(cs[1..]);
      CharWritten(cs[0], rest);
      TextWritten(cs[1..]);
      var s := EncodeChar(cs[0]) + rest;
      assert s[|EncodeChar(cs[0])|..] == rest;
    }
  }
}
