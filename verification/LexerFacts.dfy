/** What lexing keeps, and the loops that compute it. */
module LexerFacts {
  import opened Options
  import opened Utf8
  import opened Lexer

  // ----- the text stays well formed and in shape

  lemma LiteralBoundaries(s: seq<Byte>, i: nat)
    requires Valid(s) && i < |s| && LiteralEnd(s, i).Some?
    ensures Boundary(s, i) && Boundary(s, LiteralEnd(s, i).value)
  {
    hide LiteralEnd;
    var end := LiteralEnd(s, i).value;
    if end < |s| && s[end - 1] < 0x80 {
      BoundaryAfterAscii(s, end - 1);
    }
  }

  lemma {:induction false} ScanKeeps(source: seq<Byte>, s: seq<Byte>, i: nat)
    requires Valid(s) && KeptOrBlanked(source, s) && i <= |s|
    ensures Valid(Scan(s, i)) && KeptOrBlanked(source, Scan(s, i))
    decreases |s| - i
  {
    hide LiteralEnd, Blanked, Valid, KeptOrBlanked;
    if i < |s| {
      var end := LiteralEnd(s, i);
      if end.Some? {
        LiteralBoundaries(s, i);
        BlankedIsValid(s, i, end.value);
        BlankedShape(source, s, i, end.value);
        ScanKeeps(source, Blanked(s, i, end.value), end.value);
      } else {
        ScanKeeps(source, s, i + 1);
      }
    }
  }

  /** A pattern that is the whole encoding of one character occurs only where that character does. */
  lemma MatchBoundaries(s: seq<Byte>, k: nat, pattern: seq<Byte>)
    requires Valid(s) && pattern != [] && Matches(s, k, pattern) && CharLen(pattern) == |pattern|
    ensures Boundary(s, k) && Boundary(s, k + |pattern|)
  {
    assert s[k] == s[k..k + |pattern|][0] == pattern[0];
    ValidCut(s, k);
    assert s[k..] == pattern + s[k + |pattern|..];
    CharLenPrefix(pattern, s[k + |pattern|..]);
    assert s[k..][|pattern|..] == s[k + |pattern|..];
    if k + |pattern| < |s| {
      StartsClean(s[k + |pattern|..]);
    }
  }

  lemma {:induction false} BlankEachKeeps(source: seq<Byte>, s: seq<Byte>, pattern: seq<Byte>, k: nat)
    requires Valid(s) && KeptOrBlanked(source, s) && pattern != [] && CharLen(pattern) == |pattern|
    ensures Valid(BlankEach(s, pattern, k)) && KeptOrBlanked(source, BlankEach(s, pattern, k))
    decreases |s| - k
  {
    hide CharLen, Blanked, Valid, KeptOrBlanked;
    if k < |s| {
      if Matches(s, k, pattern) {
        var end := k + |pattern|;
        MatchBoundaries(s, k, pattern);
        BlankedIsValid(s, k, end);
        BlankedShape(source, s, k, end);
        BlankEachKeeps(source, Blanked(s, k, end), pattern, end);
      } else {
        BlankEachKeeps(source, s, pattern, k + 1);
      }
    }
  }

  lemma {:induction false} BlankSpacesKeeps(source: seq<Byte>, s: seq<Byte>, n: nat)
    requires Valid(s) && KeptOrBlanked(source, s) && n <= |SPACES|
    ensures Valid(BlankSpaces(s, n)) && KeptOrBlanked(source, BlankSpaces(s, n))
  {
    if n > 0 {
      BlankSpacesKeeps(source, s, n - 1);
      assert CharLen(SPACES[n - 1]) == |SPACES[n - 1]|;
      BlankEachKeeps(source, BlankSpaces(s, n - 1), SPACES[n - 1], 0);
    }
  }

  /** Lexing keeps shape: valid UTF-8 in, valid UTF-8 of the same length out, each byte kept or made a
      space, and the newlines exactly where they were. */
  lemma LexKeepsShape(source: seq<Byte>)
    requires Valid(source)
    ensures Valid(Lexed(source)) && |Lexed(source)| == |source| && KeptOrBlanked(source, Lexed(source))
    ensures forall k :: 0 <= k < |source| ==> (Lexed(source)[k] == NEWLINE <==> source[k] == NEWLINE)
  {
    hide Valid, Scan, BlankSpaces;
    ScanKeeps(source, source, 0);
    BlankSpacesKeeps(source, Scan(source, 0), |SPACES|);
  }

  // ----- strings end at their closing quote

  /** The backslashes in a row just before `k`, from `lo` on. */
  function BackslashRun(s: seq<Byte>, lo: nat, k: nat): nat
    requires lo <= k <= |s|
  {
    if k > lo && s[k - 1] == BACKSLASH then 1 + BackslashRun(s, lo, k - 1) else 0
  }

  predicate IsEven(n: nat) { n % 2 == 0 }

  /** A string closes at its first quote with an even number of backslashes before it: every quote
      passed over is escaped, and the one it stops at is not. */
  lemma {:induction false} StringClosesUnescaped(s: seq<Byte>, lo: nat, k: nat)
    requires lo <= k <= |s| && IsEven(BackslashRun(s, lo, k))
    ensures var r := StringClose(s, k);
            && (r < |s| ==> IsEven(BackslashRun(s, lo, r)))
            && (forall j :: k <= j < r && j < |s| && s[j] == QUOTE ==> !IsEven(BackslashRun(s, lo, j)))
    decreases |s| - k
  {
    if k < |s| && s[k] != QUOTE {
      if s[k] != BACKSLASH {
        assert BackslashRun(s, lo, k + 1) == 0;
        StringClosesUnescaped(s, lo, k + 1);
      } else if k + 1 < |s| {
        assert BackslashRun(s, lo, k + 1) == 1 + BackslashRun(s, lo, k);
        assert BackslashRun(s, lo, k + 2) == if s[k + 1] == BACKSLASH then 2 + BackslashRun(s, lo, k) else 0;
        StringClosesUnescaped(s, lo, k + 2);
      }
    }
  }

  /** A raw string ends just past the first quote followed by its hashes, or with the text. */
  lemma {:induction false} RawEndIsFirst(s: seq<Byte>, k: nat, n: nat)
    requires k <= |s|
    ensures var r := RawEnd(s, k, n);
            || (r == |s| && forall j :: k <= j < |s| ==> !ClosesRaw(s, j, n))
            || (r >= k + 1 + n && ClosesRaw(s, r - 1 - n, n) && forall j :: k <= j < r - 1 - n ==> !ClosesRaw(s, j, n))
    decreases |s| - k
  {
    if k < |s| && !ClosesRaw(s, k, n) {
      RawEndIsFirst(s, k + 1, n);
    }
  }

  // ----- the loops

  /** Overwrites a range in place. */
  method Blank(bytes: array<Byte>, lo: nat, hi: nat)
    requires lo <= hi <= bytes.Length
    modifies bytes
    ensures bytes[..] == Blanked(old(bytes[..]), lo, hi)
  {
    hide Blanked;
    ghost var was := bytes[..];
    for k := lo to hi
      invariant forall j :: 0 <= j < bytes.Length ==>
        bytes[j] == if lo <= j < k && was[j] != NEWLINE then SPACE else was[j]
    {
      if bytes[k] != NEWLINE {
        bytes[k] := SPACE;
      }
    }
    BlankedAt(was, lo, hi);
    assert bytes[..] == Blanked(was, lo, hi);
  }

  lemma BlankedAt(s: seq<Byte>, lo: nat, hi: nat)
    requires lo <= hi <= |s|
    ensures forall j :: 0 <= j < |s| ==> Blanked(s, lo, hi)[j] == if lo <= j < hi && s[j] != NEWLINE then SPACE else s[j]
  {}

  /** The nested-comment scan. */
  method ScanBlock(bytes: array<Byte>, i: nat) returns (end: nat)
    requires i < bytes.Length && Opens(bytes[..], i)
    ensures end == BlockEnd(bytes[..], i, 0)
  {
    var depth, k := 0, i;
    while k < bytes.Length
      invariant i <= k <= bytes.Length && depth >= 0 && (depth > 0 || k == i)
      invariant BlockEnd(bytes[..], i, 0) == BlockEnd(bytes[..], k, depth)
    {
      if Opens(bytes[..], k) {
        depth := depth + 1;
        k := k + 2;
      } else if Shuts(bytes[..], k) {
        depth := depth - 1;
        k := k + 2;
        if depth == 0 {
          return k;
        }
      } else {
        k := k + 1;
      }
    }
    end := bytes.Length;
  }

  /** The string scan. */
  method ScanString(bytes: array<Byte>, i: nat) returns (end: nat)
    requires i < bytes.Length
    ensures end == var k := StringClose(bytes[..], i + 1); if k + 1 < bytes.Length then k + 1 else bytes.Length
  {
    var k := i + 1;
    while k < bytes.Length && bytes[k] != QUOTE
      invariant k >= i + 1 && StringClose(bytes[..], i + 1) == StringClose(bytes[..], k)
    {
      k := k + if bytes[k] == BACKSLASH then 2 else 1;
    }
    end := if k + 1 < bytes.Length then k + 1 else bytes.Length;
  }

  method ScanFor(bytes: array<Byte>, start: nat, b: Byte) returns (k: nat)
    ensures k == Find(bytes[..], start, b)
  {
    k := start;
    while k < bytes.Length && bytes[k] != b
      invariant k >= start && Find(bytes[..], start, b) == Find(bytes[..], k, b)
    {
      k := k + 1;
    }
    if k > bytes.Length {
      k := bytes.Length;
    }
  }

  method CountHashes(bytes: array<Byte>, k: nat) returns (n: nat)
    ensures n == Hashes(bytes[..], k)
  {
    n := 0;
    while k + n < bytes.Length && bytes[k + n] == HASH
      invariant Hashes(bytes[..], k) == n + Hashes(bytes[..], k + n)
    {
      n := n + 1;
    }
  }

  method ScanRawEnd(bytes: array<Byte>, body: nat, hashes: nat) returns (end: nat)
    ensures end == RawEnd(bytes[..], body, hashes)
  {
    var k := body;
    while k < bytes.Length
      invariant RawEnd(bytes[..], body, hashes) == RawEnd(bytes[..], k, hashes)
    {
      if ClosesRaw(bytes[..], k, hashes) {
        return k + 1 + hashes;
      }
      k := k + 1;
    }
    end := bytes.Length;
  }

  /** The scan for the end of the literal or comment at `i`. */
  method ScanLiteral(bytes: array<Byte>, i: nat) returns (end: Option<nat>)
    requires i < bytes.Length
    ensures end == LiteralEnd(bytes[..], i)
  {
    hide Find, BlockEnd, StringClose, Hashes, RawEnd, CharWidth, MayStartRaw, CleanEnd;
    if bytes[i] == SLASH && Is(bytes[..], i + 1, SLASH) {
      var k := ScanFor(bytes, i, NEWLINE);
      end := Some(k);
    } else if bytes[i] == SLASH && Is(bytes[..], i + 1, STAR) {
      var k := ScanBlock(bytes, i);
      end := Some(k);
    } else if bytes[i] == QUOTE {
      var k := ScanString(bytes, i);
      end := Some(k);
    } else if bytes[i] == LOWER_R && MayStartRaw(bytes[..], i) {
      var hashes := CountHashes(bytes, i + 1);
      if Is(bytes[..], i + 1 + hashes, QUOTE) {
        var k := ScanRawEnd(bytes, i + 2 + hashes, hashes);
        end := Some(k);
      } else {
        end := None;
      }
    } else if bytes[i] == APOSTROPHE && Is(bytes[..], i + 1, BACKSLASH) {
      var k := ScanFor(bytes, i + 3, APOSTROPHE);
      end := Some(if k < bytes.Length then k + 1 else bytes.Length);
    } else if bytes[i] == APOSTROPHE {
      var width := CharWidth(bytes[..], i + 1);
      end := if Is(bytes[..], i + 1 + width, APOSTROPHE) then Some(i + 2 + width) else None;
    } else {
      end := None;
    }
  }

  /** Blanks every occurrence of one pattern. */
  method BlankPattern(bytes: array<Byte>, pattern: seq<Byte>)
    requires pattern != []
    modifies bytes
    ensures bytes[..] == BlankEach(old(bytes[..]), pattern, 0)
  {
    hide Blanked;
    var k := 0;
    while k < bytes.Length
      invariant BlankEach(old(bytes[..]), pattern, 0) == BlankEach(bytes[..], pattern, k)
    {
      if Matches(bytes[..], k, pattern) {
        Blank(bytes, k, k + |pattern|);
        k := k + |pattern|;
      } else {
        k := k + 1;
      }
    }
  }

  /** The lexer: one pass over a copy of the source that blanks each literal where it stands, then one
      pass for each non-ASCII space. */
  method Lex(source: seq<Byte>) returns (bytes: array<Byte>)
    ensures fresh(bytes) && bytes[..] == Lexed(source)
    ensures Valid(source) ==> Valid(bytes[..]) && KeptOrBlanked(source, bytes[..])
  {
    hide LiteralEnd, Blanked, Valid;
    bytes := new Byte[|source|](i requires 0 <= i < |source| => source[i]);
    assert bytes[..] == source;
    var i := 0;
    while i < bytes.Length
      invariant i <= bytes.Length == |source| && Scan(source, 0) == Scan(bytes[..], i)
      decreases bytes.Length - i
    {
      var end := ScanLiteral(bytes, i);
      if end.Some? {
        Blank(bytes, i, end.value);
        i := end.value;
      } else {
        i := i + 1;
      }
    }
    for n := 0 to |SPACES|
      invariant bytes.Length == |source| && bytes[..] == BlankSpaces(Scan(source, 0), n)
    {
      BlankPattern(bytes, SPACES[n]);
    }
    if Valid(source) {
      LexKeepsShape(source);
    }
  }
}
