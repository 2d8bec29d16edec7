/** What the lexer takes for a literal or comment, in the characters of the source: where each kind
    starts, and where it ends. */
module LexerLiterals {
  import opened Options
  import opened Utf8
  import opened Lexer
  import opened LexerFacts

  /** Character `c`, an ASCII one, is at `k`. */
  predicate Ch(s: seq<Byte>, k: nat, c: char) { k < |s| && s[k] == c as int }

  /** `s[k]` is part of a word: a letter, a digit, an underscore or a byte of a non-ASCII character. */
  predicate InWord(s: seq<Byte>, k: nat) {
    && k < |s|
    && (|| '0' as int <= s[k] <= '9' as int || 'A' as int <= s[k] <= 'Z' as int || 'a' as int <= s[k] <= 'z' as int
        || s[k] == '_' as int || s[k] >= 128)
  }

  // ----- comments

  /** A line comment ends before the first newline, or with the text. */
  lemma LineCommentEnds(s: seq<Byte>, i: nat) returns (end: nat)
    requires Ch(s, i, '/') && Ch(s, i + 1, '/')
    ensures LiteralEnd(s, i) == Some(end) && i < end <= |s|
    ensures end == |s| || Ch(s, end, '\n')
    ensures forall k :: i <= k < end ==> !Ch(s, k, '\n')
  {
    end := Find(s, i, NEWLINE);
  }

  predicate OpensComment(s: seq<Byte>, k: nat) { Ch(s, k, '/') && Ch(s, k + 1, '*') }

  predicate ClosesComment(s: seq<Byte>, k: nat) { Ch(s, k, '*') && Ch(s, k + 1, '/') }

  /** Where a reader is after `n` steps from `i`, an opening or closing taken whole. */
  function After(s: seq<Byte>, i: nat, n: nat): nat {
    if n == 0 then i
    else
      var k := After(s, i, n - 1);
      if OpensComment(s, k) || ClosesComment(s, k) then k + 2 else k + 1
  }

  /** How many more comments those steps opened than they closed. */
  function Open(s: seq<Byte>, i: nat, n: nat): int {
    if n == 0 then 0
    else
      var k := After(s, i, n - 1);
      Open(s, i, n - 1) + (if OpensComment(s, k) then 1 else if ClosesComment(s, k) then -1 else 0)
  }

  /** After `n` steps every comment opened is closed, for the first time. */
  ghost predicate Balances(s: seq<Byte>, i: nat, n: nat) {
    n > 0 && Open(s, i, n) == 0 && forall m: nat :: 0 < m < n ==> Open(s, i, m) > 0
  }

  lemma {:induction false} BlockWalk(s: seq<Byte>, i: nat, n: nat, depth: nat) returns (m: nat)
    requires After(s, i, n) <= |s| && Open(s, i, n) == depth && (depth > 0 || (n == 0 && OpensComment(s, i)))
    requires forall m: nat :: 0 < m <= n ==> Open(s, i, m) > 0
    ensures BlockEnd(s, After(s, i, n), depth) == After(s, i, m)
    ensures Balances(s, i, m) || (After(s, i, m) == |s| && forall j: nat :: 0 < j <= m ==> Open(s, i, j) > 0)
    decreases |s| - After(s, i, n)
  {
    var k := After(s, i, n);
    if k == |s| {
      m := n;
    } else if ClosesComment(s, k) && depth == 1 {
      m := n + 1;
    } else {
      m := BlockWalk(s, i, n + 1, Open(s, i, n + 1));
    }
  }

  /** A block comment ends past the first close that balances its opens, or with the text. */
  lemma BlockCommentEnds(s: seq<Byte>, i: nat) returns (n: nat)
    requires OpensComment(s, i)
    ensures LiteralEnd(s, i) == Some(After(s, i, n))
    ensures Balances(s, i, n) || (After(s, i, n) == |s| && forall m: nat :: 0 < m <= n ==> Open(s, i, m) > 0)
  {
    hide BlockEnd;
    n := BlockWalk(s, i, 0, 0);
  }

  // ----- strings

  /** The backslashes in a row just before `k`, from `lo` on. */
  function Backslashes(s: seq<Byte>, lo: nat, k: nat): nat
    requires lo <= k
  {
    if k > lo && Ch(s, k - 1, '\\') then 1 + Backslashes(s, lo, k - 1) else 0
  }

  /** A quote at `k`, not escaped, after the one that opens a string at `i`. */
  predicate EndsString(s: seq<Byte>, i: nat, k: nat)
    requires i < k
  {
    Ch(s, k, '"') && Backslashes(s, i + 1, k) % 2 == 0
  }

  lemma {:induction false} SameRun(s: seq<Byte>, lo: nat, k: nat)
    requires lo <= k <= |s|
    ensures Backslashes(s, lo, k) == BackslashRun(s, lo, k)
    decreases k
  {
    if k > lo {
      SameRun(s, lo, k - 1);
    }
  }

  /** A string ends past its first quote that is not escaped, or with the text. */
  lemma StringEnds(s: seq<Byte>, i: nat) returns (end: nat)
    requires Ch(s, i, '"')
    ensures LiteralEnd(s, i) == Some(end)
    ensures (end > i + 1 && EndsString(s, i, end - 1)) || end == |s|
    ensures forall k :: i < k < end - 1 ==> !EndsString(s, i, k)
    ensures end == |s| ==> forall k :: i < k < |s| && EndsString(s, i, k) ==> k == end - 1
  {
    hide StringClose;
    var lo := i + 1;
    var r := StringClose(s, lo);
    end := if r + 1 < |s| then r + 1 else |s|;
    StringClosesUnescaped(s, lo, lo);
    forall k | lo <= k <= |s| ensures Backslashes(s, lo, k) == BackslashRun(s, lo, k) {
      SameRun(s, lo, k);
    }
  }

  /** An `r`, `n` hashes and a quote, the `r` starting a word or following a lone `b` or `c`. */
  predicate OpensRaw(s: seq<Byte>, i: nat, n: nat) {
    && Ch(s, i, 'r') && (forall j :: i + 1 <= j < i + 1 + n ==> Ch(s, j, '#')) && Ch(s, i + 1 + n, '"')
    && (|| i == 0 || !InWord(s, i - 1)
        || ((Ch(s, i - 1, 'b') || Ch(s, i - 1, 'c')) && (i == 1 || !InWord(s, i - 2))))
  }

  /** A quote and `n` hashes. */
  predicate ShutsRaw(s: seq<Byte>, k: nat, n: nat) {
    Ch(s, k, '"') && forall j :: k + 1 <= j < k + 1 + n ==> Ch(s, j, '#')
  }

  lemma ShutsIsCloses(s: seq<Byte>, k: nat, n: nat)
    ensures ShutsRaw(s, k, n) <==> ClosesRaw(s, k, n)
  {
    if ShutsRaw(s, k, n) {
      assert n > 0 ==> Ch(s, k + n, '#');
      forall j | k + 1 <= j < k + 1 + n ensures s[j] == HASH {
        assert Ch(s, j, '#');
      }
    }
  }

  lemma {:induction false} HashesAre(s: seq<Byte>, k: nat, n: nat)
    requires (forall j :: k <= j < k + n ==> Ch(s, j, '#')) && !Ch(s, k + n, '#')
    ensures Hashes(s, k) == n
    decreases n
  {
    if n > 0 {
      assert Ch(s, k, '#');
      HashesAre(s, k + 1, n - 1);
    }
  }

  /** A raw string ends past the first quote followed by as many hashes, or with the text. */
  lemma RawStringEnds(s: seq<Byte>, i: nat, n: nat) returns (end: nat)
    requires OpensRaw(s, i, n)
    ensures LiteralEnd(s, i) == Some(end)
    ensures || (end == |s| && forall k :: i + 2 + n <= k < |s| ==> !ShutsRaw(s, k, n))
            || (end >= i + 3 + n + n && ShutsRaw(s, end - 1 - n, n)
                && forall k :: i + 2 + n <= k < end - 1 - n ==> !ShutsRaw(s, k, n))
  {
    hide RawEnd, ClosesRaw, ShutsRaw, Hashes;
    HashesAre(s, i + 1, n);
    end := RawEnd(s, i + 2 + n, n);
    RawEndIsFirst(s, i + 2 + n, n);
    forall k | i + 2 + n <= k ensures ShutsRaw(s, k, n) <==> ClosesRaw(s, k, n) {
      ShutsIsCloses(s, k, n);
    }
  }

  // ----- characters

  /** An escaped character literal ends past the first apostrophe after the character escaped, or with
      the text. */
  lemma EscapedCharEnds(s: seq<Byte>, i: nat) returns (end: nat)
    requires Ch(s, i, '\'') && Ch(s, i + 1, '\\')
    ensures LiteralEnd(s, i) == Some(end)
    ensures end == |s| || (end > i + 3 && Ch(s, end - 1, '\''))
    ensures forall k :: i + 3 <= k < end - 1 ==> !Ch(s, k, '\'')
    ensures end == |s| ==> forall k :: i + 3 <= k < |s| && Ch(s, k, '\'') ==> k == end - 1
  {
    var k := Find(s, i + 3, APOSTROPHE);
    end := if k < |s| then k + 1 else |s|;
  }

  /** An apostrophe, one whole character that is no backslash, and an apostrophe. */
  predicate IsCharLiteral(s: seq<Byte>, i: nat) {
    && Ch(s, i, '\'') && !Ch(s, i + 1, '\\') && i + 1 < |s|
    && Ch(s, i + 1 + CharLen(s[i + 1..]), '\'')
  }

  lemma WidthIsCharLen(s: seq<Byte>, k: nat)
    requires Valid(s) && 0 < k < |s| && s[k - 1] < 0x80
    ensures CharWidth(s, k) == CharLen(s[k..])
  {
    hide CharLen;
    BoundaryAfterAscii(s, k - 1);
    ValidCut(s, k);
    WidthOfFirst(s[k..]);
    assert s[k..][0] == s[k];
  }

  lemma WidthOfFirst(s: seq<Byte>)
    requires s != [] && CharLen(s) > 0
    ensures CharWidth(s, 0) == CharLen(s)
  {}

  /** An apostrophe starts a literal exactly if it, one character and another apostrophe follow each
      other: a lifetime is left alone. */
  lemma PlainCharEnds(s: seq<Byte>, i: nat)
    requires Valid(s) && Ch(s, i, '\'') && !Ch(s, i + 1, '\\')
    ensures IsCharLiteral(s, i) ==> LiteralEnd(s, i) == Some(i + 2 + CharLen(s[i + 1..]))
    ensures !IsCharLiteral(s, i) ==> LiteralEnd(s, i) == None
  {
    hide Valid, CharLen, CharWidth;
    if i + 1 < |s| {
      WidthIsCharLen(s, i + 1);
    } else {
      WidthPastTheEnd(s);
    }
  }

  lemma WidthPastTheEnd(s: seq<Byte>)
    ensures CharWidth(s, |s|) == 1
  {}

  // ----- and nothing else

  /** A comment or literal starts at `i`. */
  ghost predicate Starts(s: seq<Byte>, i: nat) {
    || (Ch(s, i, '/') && (Ch(s, i + 1, '/') || Ch(s, i + 1, '*')))
    || Ch(s, i, '"')
    || (exists n: nat :: OpensRaw(s, i, n))
    || (Ch(s, i, '\'') && Ch(s, i + 1, '\\'))
    || IsCharLiteral(s, i)
  }

  lemma WordsAgree(s: seq<Byte>, i: nat)
    requires i < |s|
    ensures InWord(s, i) <==> IsIdent(s[i])
  {}

  lemma RawStarts(s: seq<Byte>, i: nat)
    requires Ch(s, i, 'r')
    ensures LiteralEnd(s, i).Some? <==> exists n: nat :: OpensRaw(s, i, n)
  {
    hide RawEnd, InWord, IsIdent;
    if i > 0 {
      WordsAgree(s, i - 1);
    }
    if i > 1 {
      WordsAgree(s, i - 2);
    }
    if n: nat :| OpensRaw(s, i, n) {
      HashesAre(s, i + 1, n);
    }
    if LiteralEnd(s, i).Some? {
      assert OpensRaw(s, i, Hashes(s, i + 1));
    }
  }

  /** The lexer finds a literal at an index exactly if one starts there. */
  lemma LiteralStarts(s: seq<Byte>, i: nat)
    requires Valid(s) && i < |s|
    ensures LiteralEnd(s, i).Some? <==> Starts(s, i)
  {
    hide Valid, OpensRaw, Find, BlockEnd, StringClose, CleanEnd, Hashes, RawEnd, MayStartRaw, CharWidth, CharLen;
    if Ch(s, i, 'r') {
      RawStarts(s, i);
    } else {
      forall n: nat ensures !OpensRaw(s, i, n) {
        RawHasR(s, i, n);
      }
      if Ch(s, i, '\'') && !Ch(s, i + 1, '\\') {
        PlainCharEnds(s, i);
      }
    }
  }

  lemma RawHasR(s: seq<Byte>, i: nat, n: nat)
    ensures OpensRaw(s, i, n) ==> Ch(s, i, 'r')
  {}

  /** The listed spaces, by their code points. */
  lemma SpacesAre()
    ensures SPACES == [Encode(0x85), Encode(0x200E), Encode(0x200F), Encode(0x2028), Encode(0x2029)]
  {}
}
