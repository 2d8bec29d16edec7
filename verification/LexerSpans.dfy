/** Exactly what lexing blanks: the text is cut into code and literals, each literal from where it
    starts to where it ends in the source, and everything outside them and the listed spaces is kept. */
module LexerSpans {
  import opened Options
  import opened Utf8
  import opened Lexer

  // ----- what a literal's end depends on

  /** `s` and `t` agree from `k` on. */
  ghost predicate SameFrom(s: seq<Byte>, t: seq<Byte>, k: nat) {
    |s| == |t| && forall j :: k <= j < |s| ==> s[j] == t[j]
  }

  lemma {:induction false} FindSame(s: seq<Byte>, t: seq<Byte>, k: nat, b: Byte)
    requires SameFrom(s, t, k)
    ensures Find(s, k, b) == Find(t, k, b)
    decreases |s| - k
  {
    if k < |s| {
      FindSame(s, t, k + 1, b);
    }
  }

  lemma {:induction false} BlockEndSame(s: seq<Byte>, t: seq<Byte>, k: nat, depth: nat)
    requires SameFrom(s, t, k) && k <= |s| && (depth > 0 || Opens(s, k))
    ensures BlockEnd(s, k, depth) == BlockEnd(t, k, depth)
    decreases |s| - k
  {
    if k < |s| {
      if Opens(s, k) {
        BlockEndSame(s, t, k + 2, depth + 1);
      } else if Shuts(s, k) {
        if depth > 1 {
          BlockEndSame(s, t, k + 2, depth - 1);
        }
      } else {
        BlockEndSame(s, t, k + 1, depth);
      }
    }
  }

  lemma {:induction false} StringCloseSame(s: seq<Byte>, t: seq<Byte>, k: nat)
    requires SameFrom(s, t, k)
    ensures StringClose(s, k) == StringClose(t, k)
    decreases |s| - k
  {
    if k < |s| && s[k] != QUOTE {
      StringCloseSame(s, t, k + if s[k] == BACKSLASH then 2 else 1);
    }
  }

  lemma {:induction false} HashesSame(s: seq<Byte>, t: seq<Byte>, k: nat)
    requires SameFrom(s, t, k)
    ensures Hashes(s, k) == Hashes(t, k)
    decreases |s| - k
  {
    if Is(s, k, HASH) {
      HashesSame(s, t, k + 1);
    }
  }

  lemma {:induction false} RawEndSame(s: seq<Byte>, t: seq<Byte>, k: nat, n: nat)
    requires SameFrom(s, t, k)
    ensures RawEnd(s, k, n) == RawEnd(t, k, n)
    decreases |s| - k
  {
    if k < |s| {
      assert ClosesRaw(s, k, n) <==> ClosesRaw(t, k, n);
      RawEndSame(s, t, k + 1, n);
    }
  }

  /** What the scan looks back at is the same: the byte before `i`, and the one before that, are the
      source's or neither they nor the source's are part of a word. */
  ghost predicate Seam(source: seq<Byte>, s: seq<Byte>, i: nat) {
    && SameFrom(source, s, i)
    && (1 <= i < |s| ==> Alike(source, s, i - 1) || source[i] == NEWLINE)
    && (2 <= i < |s| ==> Alike(source, s, i - 2) || !IsIdent(source[i - 1]) || source[i] == NEWLINE)
  }

  predicate Alike(source: seq<Byte>, s: seq<Byte>, k: nat)
    requires k < |source| == |s|
  {
    source[k] == s[k] || (!IsIdent(source[k]) && !IsIdent(s[k]))
  }

  lemma RawStartSame(source: seq<Byte>, s: seq<Byte>, i: nat)
    requires i < |s| && Seam(source, s, i) && source[i] == LOWER_R
    ensures MayStartRaw(source, i) <==> MayStartRaw(s, i)
  {}

  lemma IsSame(s: seq<Byte>, t: seq<Byte>, k: nat, b: Byte)
    requires SameFrom(s, t, k)
    ensures Is(s, k, b) <==> Is(t, k, b)
    ensures CharWidth(s, k) == CharWidth(t, k)
  {}

  lemma SameLater(s: seq<Byte>, t: seq<Byte>, i: nat, k: nat)
    requires SameFrom(s, t, i) && i <= k
    ensures SameFrom(s, t, k)
  {}

  lemma BlockSame(s: seq<Byte>, t: seq<Byte>, i: nat)
    requires SameFrom(s, t, i) && i < |s| && s[i] == SLASH
    ensures Is(s, i + 1, STAR) ==> Opens(s, i) && Opens(t, i) && BlockEnd(s, i, 0) == BlockEnd(t, i, 0)
  {
    hide BlockEnd;
    if Opens(s, i) {
      BlockEndSame(s, t, i, 0);
    }
  }

  /** So blanking what came before changes no literal that follows. */
  lemma LiteralSame(source: seq<Byte>, s: seq<Byte>, i: nat)
    requires i < |s| && Seam(source, s, i)
    ensures |source| == |s| && LiteralEnd(source, i) == LiteralEnd(s, i)
  {
    assert SameFrom(source, s, i) && source[i] == s[i];
    if source[i] == LOWER_R {
      RawStartSame(source, s, i);
    }
    hide Find, BlockEnd, StringClose, RawLiteralEnd, MayStartRaw, CleanEnd, CharWidth, Seam, SameFrom, Is;
    SameLater(source, s, i, i + 1);
    if source[i] == SLASH {
      IsSame(source, s, i + 1, SLASH);
      IsSame(source, s, i + 1, STAR);
      FindSame(source, s, i, NEWLINE);
      BlockSame(source, s, i);
    } else if source[i] == QUOTE {
      StringCloseSame(source, s, i + 1);
    } else if source[i] == LOWER_R {
      RawSame(source, s, i);
    } else if source[i] == APOSTROPHE {
      CharSame(source, s, i);
    }
  }

  lemma RawSame(source: seq<Byte>, s: seq<Byte>, i: nat)
    requires i < |s| == |source| && SameFrom(source, s, i)
    ensures RawLiteralEnd(source, i) == RawLiteralEnd(s, i)
  {
    hide Hashes, RawEnd, CleanEnd, SameFrom, Is;
    var hashes := Hashes(source, i + 1);
    SameLater(source, s, i, i + 1);
    HashesSame(source, s, i + 1);
    SameLater(source, s, i, i + 1 + hashes);
    SameLater(source, s, i, i + 2 + hashes);
    IsSame(source, s, i + 1 + hashes, QUOTE);
    RawEndSame(source, s, i + 2 + hashes, hashes);
  }

  lemma CharSame(source: seq<Byte>, s: seq<Byte>, i: nat)
    requires i < |s| == |source| && SameFrom(source, s, i) && source[i] == s[i] == APOSTROPHE
    ensures LiteralEnd(source, i) == LiteralEnd(s, i)
  {
    hide Find, CharWidth, CleanEnd, SameFrom, Is;
    SameLater(source, s, i, i + 1);
    SameLater(source, s, i, i + 3);
    IsSame(source, s, i + 1, BACKSLASH);
    FindSame(source, s, i + 3, APOSTROPHE);
    var width := CharWidth(source, i + 1);
    SameLater(source, s, i, i + 1 + width);
    IsSame(source, s, i + 1 + width, APOSTROPHE);
  }

  /** A literal that does not end the text ends on a byte that is no part of a word, or before a
      newline. */
  lemma LiteralEndsOutsideWords(s: seq<Byte>, i: nat)
    requires i < |s| && LiteralEnd(s, i).Some? && LiteralEnd(s, i).value < |s|
    ensures var end := LiteralEnd(s, i).value; s[end] == NEWLINE || !IsIdent(s[end - 1])
  {
    hide Find, BlockEnd, StringClose, Hashes, RawEnd;
    var hashes := Hashes(s, i + 1);
    RawEndsOutsideWords(s, i + 2 + hashes, hashes);
  }

  lemma {:induction false} RawEndsOutsideWords(s: seq<Byte>, k: nat, n: nat)
    ensures k <= |s| && RawEnd(s, k, n) < |s| ==> RawEnd(s, k, n) > 0 && !IsIdent(s[RawEnd(s, k, n) - 1])
    decreases |s| - k
  {
    if k < |s| && !ClosesRaw(s, k, n) {
      RawEndsOutsideWords(s, k + 1, n);
    }
  }

  // ----- the cut

  /** One literal or comment: from `lo` up to `hi`. */
  datatype Span = Span(lo: nat, hi: nat)

  /** From `i` on, `spans` are the literals of `s`, in order: none starts in the code before, between
      and after them, and each runs from where it starts to its end. */
  ghost predicate IsCut(s: seq<Byte>, spans: seq<Span>, i: nat)
    decreases |spans|
  {
    if spans == [] then forall k :: i <= k < |s| ==> LiteralEnd(s, k) == None
    else
      && i <= spans[0].lo < |s|
      && (forall k :: i <= k < spans[0].lo ==> LiteralEnd(s, k) == None)
      && LiteralEnd(s, spans[0].lo) == Some(spans[0].hi)
      && IsCut(s, spans[1..], spans[0].hi)
  }

  /** Byte `k` is in one of the spans. */
  predicate Within(spans: seq<Span>, k: nat) {
    spans != [] && (spans[0].lo <= k < spans[0].hi || Within(spans[1..], k))
  }

  /** A byte made a space, unless it is a newline. */
  function Wiped(b: Byte): Byte { if b == '\n' as int then b else ' ' as int }

  lemma {:induction false} CutIsAhead(s: seq<Byte>, spans: seq<Span>, i: nat, k: nat)
    requires IsCut(s, spans, i) && Within(spans, k)
    ensures i <= k
    decreases |spans|
  {
    if spans[0].lo > k || k >= spans[0].hi {
      CutIsAhead(s, spans[1..], spans[0].hi, k);
    }
  }

  /** There is one cut of a text. */
  lemma {:induction false} CutIsUnique(s: seq<Byte>, spans: seq<Span>, spans': seq<Span>, i: nat)
    requires IsCut(s, spans, i) && IsCut(s, spans', i)
    ensures spans == spans'
    decreases |spans|
  {
    hide LiteralEnd;
    if spans != [] && spans' != [] {
      assert spans[0].lo == spans'[0].lo;
      CutIsUnique(s, spans[1..], spans'[1..], spans[0].hi);
      assert spans == [spans[0]] + spans[1..] && spans' == [spans'[0]] + spans'[1..];
    }
  }

  lemma CutExtends(s: seq<Byte>, rest: seq<Span>, i: nat)
    requires i < |s|
    ensures LiteralEnd(s, i) == None && IsCut(s, rest, i + 1) ==> IsCut(s, rest, i)
    ensures LiteralEnd(s, i).Some? && IsCut(s, rest, LiteralEnd(s, i).value) ==>
              IsCut(s, [Span(i, LiteralEnd(s, i).value)] + rest, i)
  {
    hide LiteralEnd;
    if LiteralEnd(s, i).Some? {
      assert ([Span(i, LiteralEnd(s, i).value)] + rest)[1..] == rest;
    }
  }

  lemma SeamAfterCode(source: seq<Byte>, s: seq<Byte>, i: nat)
    requires i < |s| && Seam(source, s, i)
    ensures Seam(source, s, i + 1)
  {}

  lemma SeamAfterLiteral(source: seq<Byte>, s: seq<Byte>, i: nat, end: nat)
    requires i < end <= |s| && Seam(source, s, i) && LiteralEnd(source, i) == Some(end)
    ensures Seam(source, Blanked(s, i, end), end)
  {
    hide LiteralEnd;
    if end < |s| {
      LiteralEndsOutsideWords(source, i);
    }
  }

  /** The scan blanks the literals of the source from `i` on, and nothing else. */
  lemma {:induction false} ScanBlanksTheCut(source: seq<Byte>, s: seq<Byte>, i: nat) returns (spans: seq<Span>)
    requires i <= |s| == |source| && Seam(source, s, i)
    ensures IsCut(source, spans, i)
    ensures forall k :: 0 <= k < |s| ==> Scan(s, i)[k] == if Within(spans, k) then Wiped(source[k]) else s[k]
    decreases |s| - i
  {
    hide LiteralEnd, Seam, IsCut, Blanked;
    if i == |s| {
      spans := [];
      CutOfNothing(source);
    } else {
      LiteralSame(source, s, i);
      var end := LiteralEnd(source, i);
      if end.None? {
        SeamAfterCode(source, s, i);
        spans := ScanBlanksTheCut(source, s, i + 1);
        CutExtends(source, spans, i);
      } else {
        SeamAfterLiteral(source, s, i, end.value);
        var rest := ScanBlanksTheCut(source, Blanked(s, i, end.value), end.value);
        CutExtends(source, rest, i);
        spans := [Span(i, end.value)] + rest;
        SpanFirst(source, s, i, end.value, rest);
      }
    }
  }

  lemma CutOfNothing(s: seq<Byte>)
    ensures IsCut(s, [], |s|)
  {}

  lemma SpanFirst(source: seq<Byte>, s: seq<Byte>, i: nat, end: nat, rest: seq<Span>)
    requires i < end <= |s| && Seam(source, s, i) && IsCut(source, rest, end)
    ensures forall k :: 0 <= k < |s| ==>
              (if Within([Span(i, end)] + rest, k) then Wiped(source[k]) else s[k])
              == if Within(rest, k) then Wiped(source[k]) else Blanked(s, i, end)[k]
  {
    hide LiteralEnd, IsCut, IsIdent;
    forall k | 0 <= k < |s|
      ensures Within([Span(i, end)] + rest, k) <==> i <= k < end || Within(rest, k)
      ensures Within(rest, k) ==> k >= end
    {
      WithinFirst(Span(i, end), rest, k);
      if Within(rest, k) {
        CutIsAhead(source, rest, end, k);
      }
    }
    hide Within;
    assert forall k :: 0 <= k < |s| ==> Blanked(s, i, end)[k] == if i <= k < end then Wiped(s[k]) else s[k];
  }

  lemma WithinFirst(first: Span, rest: seq<Span>, k: nat)
    ensures Within([first] + rest, k) <==> first.lo <= k < first.hi || Within(rest, k)
  {
    assert ([first] + rest)[1..] == rest;
  }

  // ----- the listed spaces

  /** The bytes of one character of two or three bytes. */
  predicate IsSpaceChar(p: seq<Byte>) {
    && |p| >= 2 && p[0] >= 0xC0 && (|p| == 2 <==> p[0] < 0xE0) && |p| <= 3
    && forall i :: 1 <= i < |p| ==> IsContinuation(p[i])
  }

  lemma SpacesAreChars(m: nat)
    requires m < |SPACES|
    ensures IsSpaceChar(SPACES[m])
  {}

  lemma MatchByte(s: seq<Byte>, p: seq<Byte>, j: nat, k: nat)
    requires Matches(s, j, p) && j <= k < j + |p|
    ensures s[k] == p[k - j]
  {
    assert s[k] == s[j..j + |p|][k - j];
  }

  /** Two occurrences that meet are in the same place. */
  lemma NoOverlap(s: seq<Byte>, p: seq<Byte>, j: nat, q: seq<Byte>, i: nat, k: nat)
    requires IsSpaceChar(p) && IsSpaceChar(q) && Matches(s, j, p) && Matches(s, i, q)
    requires j <= k < j + |p| && i <= k < i + |q|
    ensures i == j && |p| == |q|
  {
    MatchByte(s, p, j, j);
    MatchByte(s, q, i, i);
    if i < j {
      MatchByte(s, q, i, j);
    } else if j < i {
      MatchByte(s, p, j, i);
    }
  }

  /** Byte `k` is in an occurrence of `p` at or after `from`. */
  ghost predicate InMatch(s: seq<Byte>, p: seq<Byte>, from: nat, k: nat) {
    exists j: nat :: j >= from && Matches(s, j, p) && j <= k < j + |p|
  }

  lemma MatchElsewhere(s: seq<Byte>, t: seq<Byte>, p: seq<Byte>, j: nat)
    requires |s| == |t| && j + |p| <= |s| && forall k :: j <= k < j + |p| ==> s[k] == t[k]
    ensures Matches(s, j, p) <==> Matches(t, j, p)
  {
    assert s[j..j + |p|] == t[j..j + |p|];
  }

  lemma {:induction false} BlankEachIs(s: seq<Byte>, p: seq<Byte>, from: nat)
    requires IsSpaceChar(p)
    ensures forall k :: 0 <= k < |s| ==> BlankEach(s, p, from)[k] == if InMatch(s, p, from, k) then SPACE else s[k]
    decreases |s| - from
  {
    hide Blanked, IsSpaceChar, Matches;
    if from >= |s| {
      forall k | 0 <= k < |s| ensures !InMatch(s, p, from, k) {}
    } else if Matches(s, from, p) {
      BlankEachAfter(s, p, from);
    } else {
      BlankEachIs(s, p, from + 1);
      forall k | 0 <= k < |s| ensures InMatch(s, p, from, k) <==> InMatch(s, p, from + 1, k) {}
    }
  }

  lemma {:induction false} BlankEachAfter(s: seq<Byte>, p: seq<Byte>, from: nat)
    requires IsSpaceChar(p) && Matches(s, from, p) && from < |s|
    ensures forall k :: 0 <= k < |s| ==> BlankEach(s, p, from)[k] == if InMatch(s, p, from, k) then SPACE else s[k]
    decreases |s| - from, 0
  {
    var next := from + |p|;
    var b := Blanked(s, from, next);
    BlankEachIs(b, p, next);
    forall k | 0 <= k < |s| ensures BlankEach(s, p, from)[k] == if InMatch(s, p, from, k) then SPACE else s[k] {
      InMatchNext(s, p, from, k);
      if from <= k < next {
        MatchByte(s, p, from, k);
      }
    }
  }

  lemma InMatchNext(s: seq<Byte>, p: seq<Byte>, from: nat, k: nat)
    requires IsSpaceChar(p) && Matches(s, from, p) && k < |s|
    ensures InMatch(s, p, from, k) <==> from <= k < from + |p| || InMatch(Blanked(s, from, from + |p|), p, from + |p|, k)
    ensures from <= k < from + |p| ==> !InMatch(Blanked(s, from, from + |p|), p, from + |p|, k)
  {
    var next := from + |p|;
    var b := Blanked(s, from, next);
    forall j: nat | j >= next && j + |p| <= |s| ensures Matches(s, j, p) <==> Matches(b, j, p) {
      MatchElsewhere(s, b, p, j);
    }
    if InMatch(s, p, from, k) {
      var j: nat :| j >= from && Matches(s, j, p) && j <= k < j + |p|;
      if j < next {
        MatchByte(s, p, from, from);
        NoOverlap(s, p, from, p, j, j);
      }
    }
  }

  /** Byte `k` is in an occurrence of one of the first `n` listed spaces. */
  ghost predicate InSpace(s: seq<Byte>, n: nat, k: nat)
    requires n <= |SPACES|
  {
    exists m: nat :: m < n && InMatch(s, SPACES[m], 0, k)
  }

  lemma {:induction false} BlankSpacesIs(s: seq<Byte>, n: nat)
    requires n <= |SPACES|
    ensures forall k :: 0 <= k < |s| ==> BlankSpaces(s, n)[k] == if InSpace(s, n, k) then SPACE else s[k]
  {
    hide InMatch;
    if n > 0 {
      BlankSpacesIs(s, n - 1);
      var before, p := BlankSpaces(s, n - 1), SPACES[n - 1];
      SpacesAreChars(n - 1);
      BlankEachIs(before, p, 0);
      forall k: nat | k < |s| ensures InSpace(s, n, k) <==> InSpace(s, n - 1, k) || InMatch(before, p, 0, k) {
        OneMoreSpace(s, before, n, k);
      }
    }
  }

  lemma OneMoreSpace(s: seq<Byte>, before: seq<Byte>, n: nat, k: nat)
    requires 0 < n <= |SPACES| && k < |s| == |before|
    requires forall k :: 0 <= k < |s| ==> before[k] == if InSpace(s, n - 1, k) then SPACE else s[k]
    ensures InSpace(s, n, k) <==> InSpace(s, n - 1, k) || InMatch(before, SPACES[n - 1], 0, k)
  {
    hide InSpace, IsSpaceChar, Matches, SPACES;
    var p := SPACES[n - 1];
    SpacesAreChars(n - 1);
    SpaceSplits(s, n, k);
    if InMatch(s, p, 0, k) && !InSpace(s, n - 1, k) {
      var j: nat :| Matches(s, j, p) && j <= k < j + |p|;
      MatchFits(s, p, j);
      forall i | j <= i < j + |p| ensures before[i] == s[i] {
        if InSpace(s, n - 1, i) {
          MetBefore(s, n - 1, p, j, i, k);
        }
      }
      MatchElsewhere(s, before, p, j);
    }
    if InMatch(before, p, 0, k) {
      var j: nat :| Matches(before, j, p) && j <= k < j + |p|;
      MatchFits(before, p, j);
      forall i | j <= i < j + |p| ensures before[i] == s[i] {
        MatchByte(before, p, j, i);
        CharBytes(p, i - j);
      }
      MatchElsewhere(s, before, p, j);
    }
  }

  lemma MatchFits(s: seq<Byte>, p: seq<Byte>, j: nat)
    requires Matches(s, j, p)
    ensures j + |p| <= |s|
  {}

  lemma CharBytes(p: seq<Byte>, i: nat)
    requires IsSpaceChar(p) && i < |p|
    ensures p[i] != SPACE
  {}

  lemma SpaceSplits(s: seq<Byte>, n: nat, k: nat)
    requires 0 < n <= |SPACES|
    ensures InSpace(s, n, k) <==> InSpace(s, n - 1, k) || InMatch(s, SPACES[n - 1], 0, k)
  {
    hide InMatch, SPACES;
  }

  /** An earlier space that meets an occurrence covers all of it. */
  lemma MetBefore(s: seq<Byte>, n: nat, p: seq<Byte>, j: nat, i: nat, k: nat)
    requires n <= |SPACES| && IsSpaceChar(p) && Matches(s, j, p)
    requires j <= i < j + |p| && j <= k < j + |p| && InSpace(s, n, i)
    ensures InSpace(s, n, k)
  {
    hide SPACES, IsSpaceChar, Matches;
    var m: nat :| m < n && InMatch(s, SPACES[m], 0, i);
    var at: nat :| Matches(s, at, SPACES[m]) && at <= i < at + |SPACES[m]|;
    SpacesAreChars(m);
    NoOverlap(s, p, j, SPACES[m], at, i);
    assert InMatch(s, SPACES[m], 0, k);
  }

  // ----- the whole text

  /** Byte `k` of the code is in a listed space: one with no byte in a literal. */
  ghost predicate InCodeSpace(source: seq<Byte>, spans: seq<Span>, k: nat) {
    exists m: nat, j: nat :: m < |SPACES| && Matches(source, j, SPACES[m]) && j <= k < j + |SPACES[m]|
                             && forall i :: j <= i < j + |SPACES[m]| ==> !Within(spans, i)
  }

  lemma SpacesOfTheCode(source: seq<Byte>, scanned: seq<Byte>, spans: seq<Span>, k: nat)
    requires k < |source| == |scanned|
    requires forall k :: 0 <= k < |source| ==> scanned[k] == if Within(spans, k) then Wiped(source[k]) else source[k]
    ensures InSpace(scanned, |SPACES|, k) <==> InCodeSpace(source, spans, k)
  {
    hide IsSpaceChar, Matches, Within, SPACES;
    if InSpace(scanned, |SPACES|, k) {
      var m: nat :| m < |SPACES| && InMatch(scanned, SPACES[m], 0, k);
      var j: nat :| Matches(scanned, j, SPACES[m]) && j <= k < j + |SPACES[m]|;
      var p := SPACES[m];
      SpacesAreChars(m);
      MatchFits(scanned, p, j);
      forall i | j <= i < j + |p| ensures !Within(spans, i) && scanned[i] == source[i] {
        MatchByte(scanned, p, j, i);
        NotWiped(p, i - j);
      }
      MatchElsewhere(source, scanned, p, j);
    }
    if InCodeSpace(source, spans, k) {
      var m: nat, j: nat :| m < |SPACES| && Matches(source, j, SPACES[m]) && j <= k < j + |SPACES[m]|
                            && forall i :: j <= i < j + |SPACES[m]| ==> !Within(spans, i);
      MatchFits(source, SPACES[m], j);
      MatchElsewhere(source, scanned, SPACES[m], j);
      assert InMatch(scanned, SPACES[m], 0, k);
    }
  }

  lemma NotWiped(p: seq<Byte>, i: nat)
    requires IsSpaceChar(p) && i < |p|
    ensures p[i] != SPACE && p[i] != NEWLINE
  {}

  /** Lexing, byte by byte: the source has one cut into code and literals; inside a literal or a listed
      space a byte becomes a space, unless it is a newline; every other byte is kept. */
  lemma LexedExactly(source: seq<Byte>) returns (spans: seq<Span>)
    ensures IsCut(source, spans, 0)
    ensures forall k :: 0 <= k < |source| ==>
              Lexed(source)[k] == if Within(spans, k) || InCodeSpace(source, spans, k) then Wiped(source[k]) else source[k]
  {
    hide IsCut, Within, InCodeSpace, InSpace, LiteralEnd, Scan, BlankSpaces;
    spans := ScanBlanksTheCut(source, source, 0);
    var scanned := Scan(source, 0);
    BlankSpacesIs(scanned, |SPACES|);
    forall k: nat | k < |source|
      ensures InSpace(scanned, |SPACES|, k) <==> InCodeSpace(source, spans, k)
      ensures InCodeSpace(source, spans, k) ==> source[k] != NEWLINE && !Within(spans, k)
    {
      SpacesOfTheCode(source, scanned, spans, k);
      if InCodeSpace(source, spans, k) {
        CodeSpaceByte(source, spans, k);
      }
    }
  }

  lemma CodeSpaceByte(source: seq<Byte>, spans: seq<Span>, k: nat)
    requires InCodeSpace(source, spans, k)
    ensures k < |source| && source[k] != NEWLINE && !Within(spans, k)
  {
    hide IsSpaceChar, Matches, SPACES, Within;
    var m: nat, j: nat :| m < |SPACES| && Matches(source, j, SPACES[m]) && j <= k < j + |SPACES[m]|
                          && forall i :: j <= i < j + |SPACES[m]| ==> !Within(spans, i);
    SpacesAreChars(m);
    MatchFits(source, SPACES[m], j);
    MatchByte(source, SPACES[m], j, k);
    NotWiped(SPACES[m], k - j);
  }
}
