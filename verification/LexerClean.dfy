/** Lexing leaves nothing behind: no comment, no literal and no non-ASCII space is left in its result,
    so lexing again changes nothing. */
module LexerClean {
  import opened Options
  import opened Utf8
  import opened Lexer

  /** No literal or comment opens at `k`. */
  predicate CleanAt(s: seq<Byte>, k: nat)
    requires k < |s|
  {
    && s[k] != QUOTE
    && !(s[k] == SLASH && (Is(s, k + 1, SLASH) || Is(s, k + 1, STAR)))
    && !(s[k] == APOSTROPHE && (Is(s, k + 1, BACKSLASH) || Is(s, k + 1 + CharWidth(s, k + 1), APOSTROPHE)))
  }

  ghost predicate Clean(s: seq<Byte>) { forall k :: 0 <= k < |s| ==> CleanAt(s, k) }

  lemma CleanHasNoLiteral(s: seq<Byte>, i: nat)
    requires Clean(s) && i < |s|
    ensures LiteralEnd(s, i) == None
  {
    hide CharWidth, Find, BlockEnd, StringClose, RawEnd;
    assert CleanAt(s, i);
    var q := i + 1 + Hashes(s, i + 1);
    assert q < |s| ==> CleanAt(s, q);
  }

  /** Every literal is two bytes long or ends the text. */
  lemma LiteralIsWide(s: seq<Byte>, i: nat)
    requires i < |s| && LiteralEnd(s, i).Some?
    ensures LiteralEnd(s, i).value >= i + 2 || LiteralEnd(s, i).value == |s|
  {}

  /** `r` is `s` with some bytes made spaces. */
  ghost predicate Thinned(s: seq<Byte>, r: seq<Byte>) {
    |r| == |s| && forall k :: 0 <= k < |s| ==> r[k] == s[k] || r[k] == SPACE
  }

  /** The scan never looks back, and only ever makes spaces. */
  lemma {:induction false} ScanAhead(s: seq<Byte>, i: nat)
    requires i <= |s|
    ensures Thinned(s, Scan(s, i)) && forall k :: 0 <= k < i ==> Scan(s, i)[k] == s[k]
    decreases |s| - i
  {
    hide LiteralEnd;
    if i < |s| {
      var end := LiteralEnd(s, i);
      if end.Some? {
        ScanAhead(Blanked(s, i, end.value), end.value);
      } else {
        ScanAhead(s, i + 1);
      }
    }
  }

  /** What a byte where no literal opened can become: still no opening, since what follows it only
      turns to spaces, and a following literal takes both bytes a character literal would need. */
  lemma PassedIsClean(s: seq<Byte>, i: nat)
    requires i < |s| && LiteralEnd(s, i) == None
    ensures CleanAt(Scan(s, i + 1), i)
  {
    hide Find, BlockEnd, StringClose, Hashes, RawEnd, Scan, MayStartRaw;
    var r := Scan(s, i + 1);
    ScanAhead(s, i + 1);
    if i + 1 < |s| && r[i + 1] != s[i + 1] {
      NextIsBlank(s, i + 1);
    }
  }

  lemma NextIsBlank(s: seq<Byte>, i: nat)
    requires i < |s| && Scan(s, i)[i] != s[i]
    ensures Scan(s, i)[i] == SPACE && (i + 1 < |s| ==> Scan(s, i)[i + 1] == SPACE || Scan(s, i)[i + 1] == NEWLINE)
  {
    hide LiteralEnd;
    var end := LiteralEnd(s, i);
    if end.None? {
      ScanAhead(s, i + 1);
    } else {
      LiteralIsWide(s, i);
      ScanAhead(Blanked(s, i, end.value), end.value);
    }
  }

  lemma {:induction false} ScanCleans(s: seq<Byte>, i: nat)
    requires i <= |s|
    ensures forall k :: i <= k < |s| ==> CleanAt(Scan(s, i), k)
    decreases |s| - i
  {
    hide LiteralEnd, CleanAt;
    if i < |s| {
      var end := LiteralEnd(s, i);
      if end.Some? {
        var b := Blanked(s, i, end.value);
        ScanCleans(b, end.value);
        ScanAhead(b, end.value);
        forall k | i <= k < end.value ensures CleanAt(Scan(s, i), k) {
          assert b[k] == SPACE || b[k] == NEWLINE;
          BlankIsClean(Scan(s, i), k);
        }
      } else {
        ScanCleans(s, i + 1);
        PassedIsClean(s, i);
      }
    }
  }

  lemma BlankIsClean(s: seq<Byte>, k: nat)
    requires k < |s| && (s[k] == SPACE || s[k] == NEWLINE)
    ensures CleanAt(s, k)
  {}

  lemma {:induction false} CleanScansToItself(s: seq<Byte>, i: nat)
    requires Clean(s) && i <= |s|
    ensures Scan(s, i) == s
    decreases |s| - i
  {
    hide LiteralEnd, Clean;
    if i < |s| {
      CleanHasNoLiteral(s, i);
      CleanScansToItself(s, i + 1);
    }
  }

  // ----- the non-ASCII spaces

  /** What the patterns have in common: two bytes or more, none of them ASCII. */
  predicate IsPattern(p: seq<Byte>) { |p| >= 2 && forall i :: 0 <= i < |p| ==> p[i] >= 0x80 }

  lemma MatchBytes(s: seq<Byte>, p: seq<Byte>, k: nat)
    requires IsPattern(p) && Matches(s, k, p)
    ensures forall j :: k <= j < k + |p| ==> s[j] >= 0x80
  {
    forall j | k <= j < k + |p| ensures s[j] >= 0x80 {
      assert s[j] == s[k..k + |p|][j - k];
    }
  }

  lemma BlankKeepsClean(s: seq<Byte>, p: seq<Byte>, k: nat)
    requires Clean(s) && IsPattern(p) && Matches(s, k, p)
    ensures Clean(Blanked(s, k, k + |p|))
  {
    var r := Blanked(s, k, k + |p|);
    MatchBytes(s, p, k);
    assert forall j :: 0 <= j < |r| ==> r[j] == if k <= j < k + |p| then SPACE else s[j];
    forall j | 0 <= j < |r| ensures CleanAt(r, j) {
      assert CleanAt(s, j);
    }
  }

  /** `p` occurs nowhere from `k` on. */
  ghost predicate Absent(s: seq<Byte>, p: seq<Byte>, k: nat) { forall j: nat :: j >= k ==> !Matches(s, j, p) }

  lemma ThinnedStaysAbsent(s: seq<Byte>, r: seq<Byte>, p: seq<Byte>, j: nat)
    requires Thinned(s, r) && IsPattern(p) && Matches(r, j, p)
    ensures Matches(s, j, p)
  {
    forall i | 0 <= i < |p| ensures s[j..j + |p|][i] == p[i] {
      assert r[j..j + |p|][i] == p[i];
    }
  }

  lemma {:induction false} BlankEachCleans(s: seq<Byte>, p: seq<Byte>, k: nat)
    requires Clean(s) && IsPattern(p)
    ensures Clean(BlankEach(s, p, k)) && Thinned(s, BlankEach(s, p, k)) && Absent(BlankEach(s, p, k), p, k)
    ensures forall j :: 0 <= j < k && j < |s| ==> BlankEach(s, p, k)[j] == s[j]
    decreases |s| - k
  {
    hide Clean, IsPattern, Blanked;
    PatternFacts(p);
    if k < |s| {
      var r := BlankEach(s, p, k);
      if Matches(s, k, p) {
        BlankKeepsClean(s, p, k);
        MatchBytes(s, p, k);
        var b := Blanked(s, k, k + |p|);
        BlankEachCleans(b, p, k + |p|);
        BlankedThins(s, k, k + |p|, r);
        BlankedStartsWrong(s, k, p, r);
      } else {
        BlankEachCleans(s, p, k + 1);
        if Matches(r, k, p) {
          ThinnedStaysAbsent(s, r, p, k);
        }
      }
    }
  }

  lemma BlankedStartsWrong(s: seq<Byte>, k: nat, p: seq<Byte>, r: seq<Byte>)
    requires IsPattern(p) && k + |p| <= |s| == |r|
    requires forall j :: 0 <= j < k + |p| ==> r[j] == Blanked(s, k, k + |p|)[j]
    ensures forall j: nat :: k <= j < k + |p| ==> !Matches(r, j, p)
    ensures forall j :: 0 <= j < k ==> r[j] == s[j]
  {
    forall j: nat | k <= j < k + |p| ensures !Matches(r, j, p) {
      StartsWrong(r, j, p);
    }
  }

  lemma PatternFacts(p: seq<Byte>)
    requires IsPattern(p)
    ensures |p| >= 2 && p[0] >= 0x80
  {}

  lemma BlankedThins(s: seq<Byte>, lo: nat, hi: nat, r: seq<Byte>)
    requires lo <= hi <= |s| && Thinned(Blanked(s, lo, hi), r)
    requires forall j :: lo <= j < hi ==> s[j] != NEWLINE
    ensures Thinned(s, r)
  {}

  lemma StartsWrong(s: seq<Byte>, j: nat, p: seq<Byte>)
    requires p != [] && j < |s| && s[j] != p[0]
    ensures !Matches(s, j, p)
  {
    if j + |p| <= |s| {
      assert s[j..j + |p|][0] == s[j];
    }
  }

  lemma {:induction false} BlankSpacesCleans(s: seq<Byte>, n: nat)
    requires Clean(s) && n <= |SPACES|
    ensures Clean(BlankSpaces(s, n))
    ensures forall m :: 0 <= m < n ==> Absent(BlankSpaces(s, n), SPACES[m], 0)
  {
    hide Clean, Absent;
    if n > 0 {
      BlankSpacesCleans(s, n - 1);
      var before, p := BlankSpaces(s, n - 1), SPACES[n - 1];
      assert IsPattern(p);
      BlankEachCleans(before, p, 0);
      forall m | 0 <= m < n - 1 ensures Absent(BlankSpaces(s, n), SPACES[m], 0) {
        assert IsPattern(SPACES[m]);
        StaysAbsent(before, BlankSpaces(s, n), SPACES[m]);
      }
    }
  }

  lemma StaysAbsent(s: seq<Byte>, r: seq<Byte>, p: seq<Byte>)
    requires Thinned(s, r) && IsPattern(p) && Absent(s, p, 0)
    ensures Absent(r, p, 0)
  {
    forall j: nat ensures !Matches(r, j, p) {
      if Matches(r, j, p) {
        ThinnedStaysAbsent(s, r, p, j);
      }
    }
  }

  lemma {:induction false} AbsentBlanksNothing(s: seq<Byte>, p: seq<Byte>, k: nat)
    requires p != [] && Absent(s, p, k)
    ensures BlankEach(s, p, k) == s
    decreases |s| - k
  {
    if k < |s| {
      AbsentBlanksNothing(s, p, k + 1);
    }
  }

  lemma {:induction false} SpacesBlankNothing(s: seq<Byte>, n: nat)
    requires n <= |SPACES| && forall m :: 0 <= m < n ==> Absent(s, SPACES[m], 0)
    ensures BlankSpaces(s, n) == s
  {
    if n > 0 {
      SpacesBlankNothing(s, n - 1);
      AbsentBlanksNothing(s, SPACES[n - 1], 0);
    }
  }

  /** Nothing is left to lex: at no index of the result does a comment or literal start, none of the
      non-ASCII spaces occurs in it, and lexing it again gives it back. */
  lemma LexLeavesNothing(source: seq<Byte>)
    ensures forall i :: 0 <= i < |source| ==> LiteralEnd(Lexed(source), i) == None
    ensures forall m :: 0 <= m < |SPACES| ==> Absent(Lexed(source), SPACES[m], 0)
    ensures Lexed(Lexed(source)) == Lexed(source)
  {
    hide Clean, Absent, Scan, BlankSpaces, LiteralEnd;
    var scanned, r := Scan(source, 0), Lexed(source);
    ScanCleans(source, 0);
    AllClean(scanned);
    BlankSpacesCleans(scanned, |SPACES|);
    forall i | 0 <= i < |source| ensures LiteralEnd(r, i) == None {
      CleanHasNoLiteral(r, i);
    }
    CleanScansToItself(r, 0);
    SpacesBlankNothing(r, |SPACES|);
  }

  lemma AllClean(s: seq<Byte>)
    requires forall k :: 0 <= k < |s| ==> CleanAt(s, k)
    ensures Clean(s)
  {}
}
