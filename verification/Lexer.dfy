/** The byte lexer that blanks comments and literals out of Rust source, in place. */
module Lexer {
  import opened Options
  import opened Utf8

  const NEWLINE: Byte := 0x0A
  const SPACE: Byte := 0x20
  const QUOTE: Byte := 0x22
  const HASH: Byte := 0x23
  const APOSTROPHE: Byte := 0x27
  const STAR: Byte := 0x2A
  const SLASH: Byte := 0x2F
  const BACKSLASH: Byte := 0x5C
  const LOWER_B: Byte := 0x62
  const LOWER_C: Byte := 0x63
  const LOWER_R: Byte := 0x72

  predicate Is(s: seq<Byte>, k: nat, b: Byte) { k < |s| && s[k] == b }

  predicate IsIdent(b: Byte) {
    0x30 <= b <= 0x39 || 0x41 <= b <= 0x5A || 0x61 <= b <= 0x7A || b == 0x5F || b >= 0x80
  }

  // ----- blanking

  /** `s` with `lo..hi` overwritten by spaces, newlines kept. */
  function Blanked(s: seq<Byte>, lo: nat, hi: nat): (r: seq<Byte>)
    requires lo <= hi <= |s|
    ensures |r| == |s|
  {
    s[..lo] + Spaces(s[lo..hi]) + s[hi..]
  }

  function Spaces(s: seq<Byte>): (r: seq<Byte>)
    ensures |r| == |s|
  {
    seq(|s|, i requires 0 <= i < |s| => if s[i] == NEWLINE then NEWLINE else SPACE)
  }

  /** Each byte of `r` is `s`'s, or a space where `s` has no newline. */
  ghost predicate KeptOrBlanked(s: seq<Byte>, r: seq<Byte>) {
    |r| == |s| && forall k :: 0 <= k < |s| ==> r[k] == s[k] || (r[k] == SPACE && s[k] != NEWLINE)
  }

  lemma BlankedShape(s: seq<Byte>, t: seq<Byte>, lo: nat, hi: nat)
    requires KeptOrBlanked(s, t) && lo <= hi <= |t|
    ensures KeptOrBlanked(s, Blanked(t, lo, hi))
  {}

  lemma BlankedIsValid(s: seq<Byte>, lo: nat, hi: nat)
    requires Valid(s) && lo <= hi <= |s| && Boundary(s, lo) && Boundary(s, hi)
    ensures Valid(Blanked(s, lo, hi))
  {
    ValidPatch(s, lo, hi, Spaces(s[lo..hi]));
  }

  // ----- where a literal or comment ends

  /** The first index from `k` on that holds `b`, or the end. */
  function Find(s: seq<Byte>, k: nat, b: Byte): (r: nat)
    ensures r <= |s| && (r < |s| ==> r >= k && s[r] == b)
    ensures forall j :: k <= j < r ==> s[j] != b
    decreases |s| - k
  {
    if k >= |s| then |s| else if s[k] == b then k else Find(s, k + 1, b)
  }

  predicate Opens(s: seq<Byte>, k: nat) { Is(s, k, SLASH) && Is(s, k + 1, STAR) }

  predicate Shuts(s: seq<Byte>, k: nat) { Is(s, k, STAR) && Is(s, k + 1, SLASH) }

  /** Past the `*` + `/` that brings the nesting depth back to zero, or the end. The depth is never
      below one where a comment closes. */
  function BlockEnd(s: seq<Byte>, k: nat, depth: nat): (r: nat)
    requires k <= |s| && (depth > 0 || Opens(s, k))
    ensures k <= r <= |s| && (depth == 0 ==> k < r)
    ensures r == |s| || (r > 0 && s[r - 1] == SLASH)
    decreases |s| - k
  {
    if k == |s| then k
    else if Opens(s, k) then BlockEnd(s, k + 2, depth + 1)
    else if Shuts(s, k) then (if depth == 1 then k + 2 else BlockEnd(s, k + 2, depth - 1))
    else BlockEnd(s, k + 1, depth)
  }

  /** The quote that closes a string whose text goes on at `k`: the first one reached when an escape
      is stepped over whole. At or past the end when there is none. */
  function StringClose(s: seq<Byte>, k: nat): (r: nat)
    ensures r >= k && (r < |s| ==> s[r] == QUOTE)
    decreases |s| - k
  {
    if k >= |s| || s[k] == QUOTE then k
    else StringClose(s, k + if s[k] == BACKSLASH then 2 else 1)
  }

  function Hashes(s: seq<Byte>, k: nat): (n: nat)
    ensures k <= |s| ==> k + n <= |s|
    ensures forall j :: k <= j < k + n && j < |s| ==> s[j] == HASH
    ensures !Is(s, k + n, HASH)
    decreases |s| - k
  {
    if Is(s, k, HASH) then 1 + Hashes(s, k + 1) else 0
  }

  /** A quote and `n` hashes are at `k`. */
  predicate ClosesRaw(s: seq<Byte>, k: nat, n: nat) {
    k + 1 + n <= |s| && s[k] == QUOTE && forall j :: k + 1 <= j < k + 1 + n ==> s[j] == HASH
  }

  /** Past the first raw-string close from `k` on, or the end. */
  function RawEnd(s: seq<Byte>, k: nat, n: nat): (r: nat)
    ensures k <= |s| ==> k <= r <= |s|
    ensures k <= |s| && r < |s| ==> r > k && s[r - 1] < 0x80
    decreases |s| - k
  {
    if k >= |s| then |s|
    else if ClosesRaw(s, k, n) then k + 1 + n
    else RawEnd(s, k + 1, n)
  }

  predicate RawPrefix(s: seq<Byte>, i: nat)
    requires i < |s|
  {
    i >= 1 && (s[i - 1] == LOWER_B || s[i - 1] == LOWER_C) && (i == 1 || !IsIdent(s[i - 2]))
  }

  /** An `r` at `i` is not the end of a longer word, unless that is `br` or `cr`. */
  predicate MayStartRaw(s: seq<Byte>, i: nat)
    requires i < |s|
  {
    i == 0 || !IsIdent(s[i - 1]) || RawPrefix(s, i)
  }

  function CharWidth(s: seq<Byte>, k: nat): nat {
    if k >= |s| then 1
    else if 0xC0 <= s[k] <= 0xDF then 2
    else if 0xE0 <= s[k] <= 0xEF then 3
    else if 0xF0 <= s[k] then 4
    else 1
  }

  /** The end of a literal: past its start, within the text, and beside an ASCII byte or at the end. */
  predicate CleanEnd(s: seq<Byte>, i: nat, end: nat) {
    i < end <= |s| && (end == |s| || s[end - 1] < 0x80 || s[end] < 0x80)
  }

  /** The end of the raw string whose `r` is at `i`, if hashes and a quote follow. */
  function RawLiteralEnd(s: seq<Byte>, i: nat): (r: Option<nat>)
    requires i < |s|
    ensures r.Some? ==> CleanEnd(s, i, r.value)
  {
    var hashes := Hashes(s, i + 1);
    if !Is(s, i + 1 + hashes, QUOTE) then None else Some(RawEnd(s, i + 2 + hashes, hashes))
  }

  /** The index just past the literal or comment that starts at `i`, if one does. */
  function LiteralEnd(s: seq<Byte>, i: nat): (r: Option<nat>)
    requires i < |s|
    ensures r.Some? ==> s[i] < 0x80 && CleanEnd(s, i, r.value)
  {
    if s[i] == SLASH && Is(s, i + 1, SLASH) then Some(Find(s, i, NEWLINE))
    else if s[i] == SLASH && Is(s, i + 1, STAR) then Some(BlockEnd(s, i, 0))
    else if s[i] == QUOTE then
      var k := StringClose(s, i + 1);
      Some(if k + 1 < |s| then k + 1 else |s|)
    else if s[i] == LOWER_R && MayStartRaw(s, i) then RawLiteralEnd(s, i)
    else if s[i] == APOSTROPHE && Is(s, i + 1, BACKSLASH) then
      var k := Find(s, i + 3, APOSTROPHE);
      Some(if k < |s| then k + 1 else |s|)
    else if s[i] == APOSTROPHE then
      var width := CharWidth(s, i + 1);
      if Is(s, i + 1 + width, APOSTROPHE) then Some(i + 2 + width) else None
    else None
  }

  // ----- the whole text

  /** The text once the scan has reached `i`: each literal it meets is blanked and stepped over. */
  function Scan(s: seq<Byte>, i: nat): (r: seq<Byte>)
    requires i <= |s|
    ensures |r| == |s|
    decreases |s| - i
  {
    if i == |s| then s
    else
      var end := LiteralEnd(s, i);
      if end.Some? then Scan(Blanked(s, i, end.value), end.value) else Scan(s, i + 1)
  }

  predicate Matches(s: seq<Byte>, k: nat, pattern: seq<Byte>) {
    k + |pattern| <= |s| && s[k..k + |pattern|] == pattern
  }

  /** `s` with every occurrence of `pattern` from `k` on blanked. */
  function BlankEach(s: seq<Byte>, pattern: seq<Byte>, k: nat): (r: seq<Byte>)
    requires pattern != []
    ensures |r| == |s|
    decreases |s| - k
  {
    if k >= |s| then s
    else if Matches(s, k, pattern) then BlankEach(Blanked(s, k, k + |pattern|), pattern, k + |pattern|)
    else BlankEach(s, pattern, k + 1)
  }

  /** The non-ASCII characters rustc reads as white space, in UTF-8. */
  const SPACES: seq<seq<Byte>> :=
    [[0xC2, 0x85], [0xE2, 0x80, 0x8E], [0xE2, 0x80, 0x8F], [0xE2, 0x80, 0xA8], [0xE2, 0x80, 0xA9]]

  function BlankSpaces(s: seq<Byte>, n: nat): (r: seq<Byte>)
    requires n <= |SPACES|
    ensures |r| == |s|
  {
    if n == 0 then s else BlankEach(BlankSpaces(s, n - 1), SPACES[n - 1], 0)
  }

  function Lexed(source: seq<Byte>): (r: seq<Byte>)
    ensures |r| == |source|
  {
    BlankSpaces(Scan(source, 0), |SPACES|)
  }
}
