/** Well-formed UTF-8, as section 4 of RFC 3629 defines it. */
module Utf8 {

  type Byte = x: int | 0 <= x < 256

  predicate IsContinuation(b: Byte) { 0x80 <= b <= 0xBF }

  /** The length of the character `s` starts with, or 0 if it starts with none. */
  function CharLen(s: seq<Byte>): (n: nat)
    ensures n <= |s| && n <= 4
  {
    if |s| >= 1 && s[0] < 0x80 then 1
    else if |s| >= 2 && 0xC2 <= s[0] <= 0xDF && IsContinuation(s[1]) then 2
    else if |s| >= 3 && IsContinuation(s[2])
            && ((s[0] == 0xE0 && 0xA0 <= s[1] <= 0xBF)
                || (0xE1 <= s[0] <= 0xEF && s[0] != 0xED && IsContinuation(s[1]))
                || (s[0] == 0xED && 0x80 <= s[1] <= 0x9F)) then 3
    else if |s| >= 4 && IsContinuation(s[2]) && IsContinuation(s[3])
            && ((s[0] == 0xF0 && 0x90 <= s[1] <= 0xBF)
                || (0xF1 <= s[0] <= 0xF3 && IsContinuation(s[1]))
                || (s[0] == 0xF4 && 0x80 <= s[1] <= 0x8F)) then 4
    else 0
  }

  /** A character is its first byte and the continuation bytes after it; an ASCII byte stands alone. */
  lemma CharLenSpec(s: seq<Byte>)
    requires CharLen(s) > 0
    ensures !IsContinuation(s[0]) && (CharLen(s) == 1 <==> s[0] < 0x80)
    ensures forall i :: 1 <= i < CharLen(s) ==> IsContinuation(s[i])
  {}

  predicate Valid(s: seq<Byte>) {
    s == [] || (CharLen(s) > 0 && Valid(s[CharLen(s)..]))
  }

  lemma CharLenPrefix(a: seq<Byte>, b: seq<Byte>)
    requires CharLen(a) > 0
    ensures CharLen(a + b) == CharLen(a)
  {}

  lemma {:induction false} ValidConcat(a: seq<Byte>, b: seq<Byte>)
    requires Valid(a) && Valid(b)
    ensures Valid(a + b)
    decreases |a|
  {
    hide CharLen;
    if a == [] {
      assert a + b == b;
    } else {
      var n := CharLen(a);
      CharLenPrefix(a, b);
      assert (a + b)[n..] == a[n..] + b;
      ValidConcat(a[n..], b);
    }
  }

  /** Whether `s` can be cut before index `i`. */
  predicate Boundary(s: seq<Byte>, i: nat)
    requires i <= |s|
  {
    i == |s| || !IsContinuation(s[i])
  }

  lemma OneChar(s: seq<Byte>)
    requires CharLen(s) > 0
    ensures Valid(s[..CharLen(s)])
  {
    var c := s[..CharLen(s)];
    assert CharLen(c) == |c|;
    assert c[|c|..] == [];
  }

  /** Valid text cut at a boundary is valid on both sides. */
  lemma {:induction false} ValidCut(s: seq<Byte>, i: nat)
    requires Valid(s) && i <= |s| && Boundary(s, i)
    ensures Valid(s[..i]) && Valid(s[i..])
    decreases |s|
  {
    hide CharLen, IsContinuation;
    if i == 0 {
      assert s[0..] == s;
    } else {
      var n := CharLen(s);
      CharLenSpec(s);
      assert n <= i;
      OneChar(s);
      ValidCut(s[n..], i - n);
      assert s[..i] == s[..n] + s[n..][..i - n];
      assert s[n..][i - n..] == s[i..];
      ValidConcat(s[..n], s[n..][..i - n]);
    }
  }

  lemma {:induction false} AsciiIsValid(s: seq<Byte>)
    requires forall i :: 0 <= i < |s| ==> s[i] < 0x80
    ensures Valid(s)
  {
    if s != [] {
      AsciiIsValid(s[1..]);
    }
  }

  /** An ASCII byte of valid text is a character by itself: the text can be cut after it. */
  lemma {:induction false} BoundaryAfterAscii(s: seq<Byte>, k: nat)
    requires Valid(s) && k < |s| && s[k] < 0x80
    ensures Boundary(s, k + 1)
    decreases |s|
  {
    hide CharLen;
    var n := CharLen(s);
    CharLenSpec(s);
    if k < n {
      assert k == 0;
      assert Valid(s[n..]);
      if n < |s| {
        StartsClean(s[n..]);
      }
    } else {
      BoundaryAfterAscii(s[n..], k - n);
    }
  }

  lemma StartsClean(s: seq<Byte>)
    requires Valid(s) && s != []
    ensures !IsContinuation(s[0])
  {
    CharLenSpec(s);
  }

  /** `s` with the bytes from `lo` to `hi` overwritten by ASCII is still valid. */
  lemma ValidPatch(s: seq<Byte>, lo: nat, hi: nat, patch: seq<Byte>)
    requires Valid(s) && lo <= hi <= |s| && Boundary(s, lo) && Boundary(s, hi)
    requires forall i :: 0 <= i < |patch| ==> patch[i] < 0x80
    ensures Valid(s[..lo] + patch + s[hi..])
  {
    ValidCut(s, lo);
    ValidCut(s, hi);
    AsciiIsValid(patch);
    ValidConcat(s[..lo], patch);
    ValidConcat(s[..lo] + patch, s[hi..]);
  }

  // ----- what valid text encodes

  /** A Unicode scalar value: a code point that is no surrogate. */
  predicate IsScalar(c: nat) { c < 0xD800 || 0xE000 <= c < 0x110000 }

  /** Its encoding, from section 3 of RFC 3629. */
  function Encode(c: nat): (r: seq<Byte>)
    requires IsScalar(c)
    ensures r != []
  {
    if c < 0x80 then [c]
    else if c < 0x800 then [0xC0 + c / 0x40, 0x80 + c % 0x40]
    else if c < 0x10000 then [0xE0 + c / 0x40 / 0x40, 0x80 + c / 0x40 % 0x40, 0x80 + c % 0x40]
    else [0xF0 + c / 0x40 / 0x40 / 0x40, 0x80 + c / 0x40 / 0x40 % 0x40, 0x80 + c / 0x40 % 0x40, 0x80 + c % 0x40]
  }

  lemma EncodingIsChar(c: nat)
    requires IsScalar(c)
    ensures CharLen(Encode(c)) == |Encode(c)|
  {}

  lemma CharIsEncoding(s: seq<Byte>) returns (c: nat)
    requires CharLen(s) > 0
    ensures IsScalar(c) && s[..CharLen(s)] == Encode(c)
  {
    var n, lead: int := CharLen(s), s[0];
    CharLenSpec(s);
    if n == 1 {
      c := lead;
    } else if n == 2 {
      c := SixMore(lead - 0xC0, s[1]);
    } else if n == 3 {
      var high := SixMore(lead - 0xE0, s[1]);
      c := SixMore(high, s[2]);
    } else {
      var higher := SixMore(lead - 0xF0, s[1]);
      var high := SixMore(higher, s[2]);
      c := SixMore(high, s[3]);
    }
  }

  /** A value with the six bits of a continuation byte put after it. */
  lemma SixMore(high: nat, b: Byte) returns (c: nat)
    requires IsContinuation(b)
    ensures c == 0x40 * high + (b - 0x80) && c / 0x40 == high && 0x80 + c % 0x40 == b
  {
    var low: int := b - 0x80;
    c := 0x40 * high + low;
  }

  ghost predicate AllScalar(cs: seq<nat>) { forall i :: 0 <= i < |cs| ==> IsScalar(cs[i]) }

  function EncodeAll(cs: seq<nat>): seq<Byte>
    requires AllScalar(cs)
  {
    if cs == [] then [] else Encode(cs[0]) + EncodeAll(cs[1..])
  }

  lemma {:induction false} EncodedIsValid(cs: seq<nat>)
    requires AllScalar(cs)
    ensures Valid(EncodeAll(cs))
  {
    hide CharLen, Encode;
    if cs != [] {
      var first, rest := Encode(cs[0]), EncodeAll(cs[1..]);
      EncodingIsChar(cs[0]);
      CharLenPrefix(first, rest);
      assert (first + rest)[|first|..] == rest;
      EncodedIsValid(cs[1..]);
    }
  }

  lemma {:induction false} ValidIsEncoded(s: seq<Byte>) returns (cs: seq<nat>)
    requires Valid(s)
    ensures AllScalar(cs) && EncodeAll(cs) == s
    decreases |s|
  {
    hide CharLen, Encode, IsScalar;
    if s == [] {
      cs := [];
    } else {
      var c := CharIsEncoding(s);
      var rest := ValidIsEncoded(s[CharLen(s)..]);
      cs := [c] + rest;
      assert cs[1..] == rest;
      assert s == s[..CharLen(s)] + s[CharLen(s)..];
    }
  }

  /** Text is valid exactly if it is the encoding of a sequence of scalar values. */
  lemma ValidExactly(s: seq<Byte>)
    ensures Valid(s) <==> exists cs :: AllScalar(cs) && EncodeAll(cs) == s
  {
    hide Valid;
    if Valid(s) {
      var cs := ValidIsEncoded(s);
    }
    if cs :| AllScalar(cs) && EncodeAll(cs) == s {
      EncodedIsValid(cs);
    }
  }
}
