/** The text normaliser applied to the `firstParagraph` selection of the
    `POST /html-page` handler: the expression chain
    `text.replace(/\n\s+/g, "").trim()`.

    The first stage deletes every match of the global regular expression
    `\n\s+`, scanned leftmost-first with a greedy `+`; the second stage is
    `String.prototype.trim`. Both stages use the same notion of whitespace,
    `IsWs`. Strings are sequences of Unicode scalar values. */
module Normalizer {

  /** The code points that ECMAScript's `\s` and `String.prototype.trim`
      treat as whitespace: the WhiteSpace production (tab, vertical tab,
      form feed, ZERO WIDTH NO-BREAK SPACE and every "Zs" space separator)
      and the LineTerminator production (LF, CR, LINE SEPARATOR, PARAGRAPH
      SEPARATOR), sections 12.2 and 12.3 of ECMA-262. */
  predicate IsWs(c: char)
    // every whitespace code point is a single UTF-16 code unit
    ensures IsWs(c) ==> c as int < 0xD800 || 0xE000 <= c as int < 0x1_0000
    // the ASCII whitespace is exactly TAB, LF, VT, FF, CR and SPACE
    ensures c as int < 0x80 ==>
      (IsWs(c) <==> c == '\t' || c == '\n' || c == '\U{000B}' || c == '\U{000C}'
                    || c == '\r' || c == ' ')
  {
    c in WhiteSpace || c in LineTerminator
  }

  const WhiteSpace: set<char> := {
    '\t', '\U{000B}', '\U{000C}', ' ', '\U{00A0}', '\U{1680}',
    '\U{2000}', '\U{2001}', '\U{2002}', '\U{2003}', '\U{2004}', '\U{2005}',
    '\U{2006}', '\U{2007}', '\U{2008}', '\U{2009}', '\U{200A}',
    '\U{202F}', '\U{205F}', '\U{3000}', '\U{FEFF}'
  }

  const LineTerminator: set<char> := {'\n', '\r', '\U{2028}', '\U{2029}'}

  /** A match of `\n\s+` can start at position `i`: a line feed followed by
      at least one whitespace character. */
  predicate StartsBreakRun(s: seq<char>, i: int)
    requires 0 <= i < |s|
    ensures StartsBreakRun(s, i) <==> s[i] == '\n' && SkipWs(s, i + 1) > i + 1
  {
    s[i] == '\n' && i + 1 < |s| && IsWs(s[i + 1])
  }

  /** `s` holds no match of `\n\s+`. */
  predicate NoBreakWs(s: seq<char>)
  {
    forall i :: 0 <= i < |s| ==> !StartsBreakRun(s, i)
  }

  /** Neither end of `s` is whitespace. */
  predicate HasNoEdgeWs(s: seq<char>)
  {
    s == [] || (!IsWs(s[0]) && !IsWs(s[|s| - 1]))
  }

  /** `r` is a subsequence of `s` (nothing inserted, nothing reordered)
      and every character of `s` left out of `r` is whitespace. */
  predicate DeletesOnlyWs(r: seq<char>, s: seq<char>)
    decreases |s|
  {
    if s == [] then r == []
    else (r != [] && r[0] == s[0] && DeletesOnlyWs(r[1..], s[1..]))
         || (IsWs(s[0]) && DeletesOnlyWs(r, s[1..]))
  }

  /** The end of the maximal whitespace run that starts at `i`. This is both
      how far the greedy `\s+` of a match reaches and where `trim` starts. */
  function SkipWs(s: seq<char>, i: int): (j: int)
    requires 0 <= i <= |s|
    ensures i <= j <= |s|
    ensures forall k :: i <= k < j ==> IsWs(s[k])
    ensures j < |s| ==> !IsWs(s[j])
    decreases |s| - i
  {
    if i < |s| && IsWs(s[i]) then SkipWs(s, i + 1) else i
  }

  /** The start of the maximal whitespace run that ends at `j`, going back
      no further than `lo`. This is where `trim` stops. */
  function SkipWsBack(s: seq<char>, lo: int, j: int): (k: int)
    requires 0 <= lo <= j <= |s|
    ensures lo <= k <= j
    ensures forall m :: k <= m < j ==> IsWs(s[m])
    ensures lo < k ==> !IsWs(s[k - 1])
    decreases j - lo
  {
    if lo < j && IsWs(s[j - 1]) then SkipWsBack(s, lo, j - 1) else j
  }

  /** `String.prototype.trim`: leading whitespace is cut, then trailing
      whitespace. Neither end of the result is whitespace; `TrimUnique`
      says which slice of `s` the result is. */
  function Trim(s: seq<char>): (r: seq<char>)
    ensures HasNoEdgeWs(r)
    ensures |r| <= |s|
  {
    var lo := SkipWs(s, 0);
    s[lo..SkipWsBack(s, lo, |s|)]
  }

  /** `replace(/\n\s+/g, "")`, scanning from position `i`: a line feed
      followed by whitespace starts a match, the match takes the whole
      whitespace run after it (further line feeds included) and is deleted,
      and scanning resumes after it; every other character is kept. The
      result holds no line feed followed by whitespace. */
  function RemoveBreakRunsFrom(s: seq<char>, i: int): (r: seq<char>)
    requires 0 <= i <= |s|
    ensures |r| <= |s| - i
    ensures NoBreakWs(r)
    ensures i < |s| && !IsWs(s[i]) ==> r != [] && r[0] == s[i]
    decreases |s| - i
  {
    if i == |s| then []
    else if StartsBreakRun(s, i) then RemoveBreakRunsFrom(s, SkipWs(s, i + 1))
    else
      var rest := RemoveBreakRunsFrom(s, i + 1);
      var r := [s[i]] + rest;
      assert forall k :: 1 <= k < |r| ==> r[k] == rest[k - 1];
      assert forall k :: 1 <= k < |r| ==> (StartsBreakRun(r, k) ==> StartsBreakRun(rest, k - 1));
      r
  }

  /** `replace(/\n\s+/g, "")` over the whole string. */
  function RemoveBreakRuns(s: seq<char>): (r: seq<char>)
    ensures |r| <= |s|
    ensures NoBreakWs(r)
  {
    RemoveBreakRunsFrom(s, 0)
  }

  /** The full chain `replace(/\n\s+/g, "").trim()`. Its result has no
      whitespace at either end and no line feed followed by whitespace. */
  function Normalize(s: seq<char>): (r: seq<char>)
    ensures HasNoEdgeWs(r)
    ensures NoBreakWs(r)
  {
    var cleaned := RemoveBreakRuns(s);
    var lo := SkipWs(cleaned, 0);
    var hi := SkipWsBack(cleaned, lo, |cleaned|);
    NoBreakWsSlice(cleaned, lo, hi);
    Trim(cleaned)
  }

  // ---------------------------------------------------------------------
  // Trim

  /** Every slice of a string without a break run has none either. */
  lemma NoBreakWsSlice(s: seq<char>, i: int, j: int)
    requires NoBreakWs(s)
    requires 0 <= i <= j <= |s|
    ensures NoBreakWs(s[i..j])
  {
    var t := s[i..j];
    forall k | 0 <= k < |t|
      ensures !StartsBreakRun(t, k)
    {
      assert !StartsBreakRun(s, i + k);
    }
  }

  /** `trim` returns the one slice of `s` that has whitespace only outside
      it and no whitespace at its own ends: it keeps every character from
      the first non-whitespace character to the last one. */
  lemma TrimUnique(s: seq<char>, lo: int, hi: int)
    requires 0 <= lo < hi <= |s|
    requires forall i :: 0 <= i < lo ==> IsWs(s[i])
    requires forall i :: hi <= i < |s| ==> IsWs(s[i])
    requires !IsWs(s[lo]) && !IsWs(s[hi - 1])
    ensures Trim(s) == s[lo..hi]
  {
  }

  /** `trim` returns the empty string exactly when `s` is all whitespace. */
  lemma TrimEmptyIff(s: seq<char>)
    ensures Trim(s) == [] <==> forall i :: 0 <= i < |s| ==> IsWs(s[i])
  {
  }

  /** Trimming leaves a string without whitespace at its ends unchanged. */
  lemma TrimKeepsClean(s: seq<char>)
    requires HasNoEdgeWs(s)
    ensures Trim(s) == s
  {
  }

  // ---------------------------------------------------------------------
  // Deleting only whitespace

  lemma {:induction false} DeletesOnlyWsRefl(s: seq<char>)
    ensures DeletesOnlyWs(s, s)
    decreases |s|
  {
    if s != [] {
      DeletesOnlyWsRefl(s[1..]);
    }
  }

  /** Deleting whitespace twice is deleting whitespace once. */
  lemma {:induction false} DeletesOnlyWsTrans(a: seq<char>, b: seq<char>, c: seq<char>)
    requires DeletesOnlyWs(a, b) && DeletesOnlyWs(b, c)
    ensures DeletesOnlyWs(a, c)
    decreases |c|
  {
    if c == [] {
    } else if b != [] && b[0] == c[0] && DeletesOnlyWs(b[1..], c[1..]) {
      if a != [] && a[0] == b[0] && DeletesOnlyWs(a[1..], b[1..]) {
        DeletesOnlyWsTrans(a[1..], b[1..], c[1..]);
      } else {
        DeletesOnlyWsTrans(a, b[1..], c[1..]);
      }
    } else {
      DeletesOnlyWsTrans(a, b, c[1..]);
    }
  }

  /** Cutting an all-whitespace prefix deletes only whitespace. */
  lemma {:induction false} DeletesWsPrefix(w: seq<char>, a: seq<char>)
    requires forall i :: 0 <= i < |w| ==> IsWs(w[i])
    ensures DeletesOnlyWs(a, w + a)
    decreases |w|
  {
    if w == [] {
      assert w + a == a;
      DeletesOnlyWsRefl(a);
    } else {
      assert (w + a)[1..] == w[1..] + a;
      DeletesWsPrefix(w[1..], a);
    }
  }

  /** Cutting an all-whitespace suffix deletes only whitespace. */
  lemma {:induction false} DeletesWsSuffix(a: seq<char>, w: seq<char>)
    requires forall i :: 0 <= i < |w| ==> IsWs(w[i])
    ensures DeletesOnlyWs(a, a + w)
    decreases |a| + |w|
  {
    if a == [] {
      if w != [] {
        assert (a + w)[1..] == [] + w[1..];
        DeletesWsSuffix(a, w[1..]);
      }
    } else {
      assert (a + w)[1..] == a[1..] + w;
      DeletesWsSuffix(a[1..], w);
    }
  }

  lemma TrimDeletesOnlyWs(s: seq<char>)
    ensures DeletesOnlyWs(Trim(s), s)
  {
    var lo := SkipWs(s, 0);
    var hi := SkipWsBack(s, lo, |s|);
    var r := s[lo..hi];
    assert s[lo..] == r + s[hi..];
    DeletesWsSuffix(r, s[hi..]);
    assert s == s[..lo] + s[lo..];
    DeletesWsPrefix(s[..lo], s[lo..]);
    DeletesOnlyWsTrans(r, s[lo..], s);
  }

  // ---------------------------------------------------------------------
  // Which characters `replace(/\n\s+/g, "")` deletes, position by position

  /** Position `i` of `s` lies inside a deleted match: it is whitespace and
      either a match starts there or the previous position was deleted
      (the greedy `\s+` goes on through it). */
  predicate Removed(s: seq<char>, i: int)
    requires 0 <= i < |s|
    decreases i
  {
    IsWs(s[i]) && (StartsBreakRun(s, i) || (0 < i && Removed(s, i - 1)))
  }

  /** The characters of `s` from position `i` on that are not deleted. */
  function Survivors(s: seq<char>, i: int): seq<char>
    requires 0 <= i <= |s|
    decreases |s| - i
  {
    if i == |s| then [] else (if Removed(s, i) then [] else [s[i]]) + Survivors(s, i + 1)
  }

  /** A position is deleted exactly when some line feed at or before it
      starts a match and everything from that line feed up to it is
      whitespace. In particular, whitespace before a line feed, whitespace
      between words and every non-whitespace character are kept. */
  lemma {:induction false} RemovedIffInsideBreakRun(s: seq<char>, i: int)
    requires 0 <= i < |s|
    ensures Removed(s, i) <==>
      exists j :: 0 <= j <= i && StartsBreakRun(s, j) &&
        forall m :: j <= m <= i ==> IsWs(s[m])
    decreases i
  {
    if Removed(s, i) && !StartsBreakRun(s, i) {
      RemovedIffInsideBreakRun(s, i - 1);
      var j :| 0 <= j <= i - 1 && StartsBreakRun(s, j) &&
        forall m :: j <= m <= i - 1 ==> IsWs(s[m]);
      assert forall m :: j <= m <= i ==> IsWs(s[m]);
    }
    if exists j :: 0 <= j <= i && StartsBreakRun(s, j) && forall m :: j <= m <= i ==> IsWs(s[m]) {
      var j :| 0 <= j <= i && StartsBreakRun(s, j) && forall m :: j <= m <= i ==> IsWs(s[m]);
      assert IsWs(s[i]);
      if j < i {
        assert forall m :: j <= m <= i - 1 ==> IsWs(s[m]);
        RemovedIffInsideBreakRun(s, i - 1);
      }
    }
  }

  /** Positions `k` up to `q` form one deleted run. */
  lemma {:induction false} DeletedRunSkipped(s: seq<char>, k: int, q: int)
    requires 0 <= k < q <= |s|
    requires Removed(s, k)
    requires forall m :: k < m < q ==> IsWs(s[m])
    ensures Survivors(s, k) == Survivors(s, q)
    decreases q - k
  {
    if k + 1 < q {
      assert Removed(s, k + 1);
      DeletedRunSkipped(s, k + 1, q);
    }
  }

  /** The scan from position `k` agrees with the position-wise view
      whenever `k` is not inside a deleted run. */
  lemma {:induction false} ScanKeepsSurvivors(s: seq<char>, k: int)
    requires 0 <= k <= |s|
    requires k == 0 || k == |s| || !IsWs(s[k]) || !Removed(s, k - 1)
    ensures RemoveBreakRunsFrom(s, k) == Survivors(s, k)
    decreases |s| - k
  {
    if k < |s| {
      if StartsBreakRun(s, k) {
        var q := SkipWs(s, k + 1);
        assert RemoveBreakRunsFrom(s, k) == RemoveBreakRunsFrom(s, q);
        assert Survivors(s, k) == Survivors(s, q) by {
          assert Removed(s, k);
          DeletedRunSkipped(s, k, q);
        }
        ScanKeepsSurvivors(s, q);
      } else {
        assert !Removed(s, k);
        assert RemoveBreakRunsFrom(s, k) == [s[k]] + RemoveBreakRunsFrom(s, k + 1);
        assert Survivors(s, k) == [s[k]] + Survivors(s, k + 1);
        ScanKeepsSurvivors(s, k + 1);
      }
    }
  }

  /** `replace(/\n\s+/g, "")` keeps exactly the characters that lie inside
      no match, in their original order. */
  lemma RemoveBreakRunsKeepsSurvivors(s: seq<char>)
    ensures RemoveBreakRuns(s) == Survivors(s, 0)
  {
    ScanKeepsSurvivors(s, 0);
  }

  lemma {:induction false} SurvivorsDeleteOnlyWs(s: seq<char>, k: int)
    requires 0 <= k <= |s|
    ensures DeletesOnlyWs(Survivors(s, k), s[k..])
    decreases |s| - k
  {
    if k < |s| {
      SurvivorsDeleteOnlyWs(s, k + 1);
      var t := s[k..];
      assert t[0] == s[k] && t[1..] == s[k + 1..];
      var r := Survivors(s, k);
      if Removed(s, k) {
        assert r == Survivors(s, k + 1);
        assert IsWs(t[0]) && DeletesOnlyWs(r, t[1..]);
      } else {
        assert r == [s[k]] + Survivors(s, k + 1);
        assert r[0] == t[0] && r[1..] == Survivors(s, k + 1);
      }
    }
  }

  lemma RemoveBreakRunsDeletesOnlyWs(s: seq<char>)
    ensures DeletesOnlyWs(RemoveBreakRuns(s), s)
  {
    RemoveBreakRunsKeepsSurvivors(s);
    SurvivorsDeleteOnlyWs(s, 0);
    assert s[0..] == s;
  }

  /** Normalisation only deletes characters, keeps the order of the rest,
      and every deleted character is whitespace. */
  lemma NormalizeDeletesOnlyWs(s: seq<char>)
    ensures DeletesOnlyWs(Normalize(s), s)
  {
    var cleaned := RemoveBreakRuns(s);
    RemoveBreakRunsDeletesOnlyWs(s);
    TrimDeletesOnlyWs(cleaned);
    DeletesOnlyWsTrans(Normalize(s), cleaned, s);
  }

  // ---------------------------------------------------------------------
  // Fixed points and idempotence

  /** Where there is no match, the replacement changes nothing. */
  lemma {:induction false} ScanIdentity(s: seq<char>, i: int)
    requires NoBreakWs(s)
    requires 0 <= i <= |s|
    ensures RemoveBreakRunsFrom(s, i) == s[i..]
    decreases |s| - i
  {
    if i < |s| {
      assert !StartsBreakRun(s, i);
      ScanIdentity(s, i + 1);
      assert s[i..] == [s[i]] + s[i + 1..];
    }
  }

  /** Where there is a match, the replacement makes the string shorter. */
  lemma {:induction false} ScanShrinks(s: seq<char>, i: int, j: int)
    requires 0 <= i <= j < |s|
    requires StartsBreakRun(s, j)
    ensures |RemoveBreakRunsFrom(s, i)| < |s| - i
    decreases |s| - i
  {
    if StartsBreakRun(s, i) {
      var k := SkipWs(s, i + 1);
      assert k >= i + 2;
      assert RemoveBreakRunsFrom(s, i) == RemoveBreakRunsFrom(s, k);
    } else {
      ScanShrinks(s, i + 1, j);
      assert RemoveBreakRunsFrom(s, i) == [s[i]] + RemoveBreakRunsFrom(s, i + 1);
    }
  }

  /** The replacement leaves a string unchanged exactly when the string
      has no line feed followed by whitespace. */
  lemma RemoveBreakRunsFixedIff(s: seq<char>)
    ensures RemoveBreakRuns(s) == s <==> NoBreakWs(s)
  {
    if NoBreakWs(s) {
      ScanIdentity(s, 0);
    } else {
      var j :| 0 <= j < |s| && StartsBreakRun(s, j);
      ScanShrinks(s, 0, j);
    }
  }

  /** Text without a line feed is only trimmed. */
  lemma NormalizeWithoutNewlineIsTrim(s: seq<char>)
    requires '\n' !in s
    ensures Normalize(s) == Trim(s)
  {
    assert forall i :: 0 <= i < |s| ==> s[i] != '\n';
    ScanIdentity(s, 0);
  }

  /** Normalising twice gives what normalising once gives. */
  lemma NormalizeIdempotent(s: seq<char>)
    ensures Normalize(Normalize(s)) == Normalize(s)
  {
    var n := Normalize(s);
    ScanIdentity(n, 0);
    TrimKeepsClean(n);
  }

  // ---------------------------------------------------------------------
  // Lines joined at a break

  /** A stretch without a line feed is copied unchanged by the scan. */
  lemma {:induction false} ScanCopiesLine(s: seq<char>, i: int, j: int)
    requires 0 <= i <= j <= |s|
    requires forall k :: i <= k < j ==> s[k] != '\n'
    ensures RemoveBreakRunsFrom(s, i) == s[i..j] + RemoveBreakRunsFrom(s, j)
    decreases j - i
  {
    if i < j {
      assert !StartsBreakRun(s, i);
      assert RemoveBreakRunsFrom(s, i) == [s[i]] + RemoveBreakRunsFrom(s, i + 1);
      ScanCopiesLine(s, i + 1, j);
      assert s[i..j] == [s[i]] + s[i + 1..j];
    }
  }

  /** The scan jumps over a whole match: from a line feed at `a` to the end
      `b` of the whitespace run after it. */
  lemma ScanSkipsMatch(s: seq<char>, a: int, b: int)
    requires 0 <= a && a + 1 < b <= |s|
    requires s[a] == '\n'
    requires forall k :: a < k < b ==> IsWs(s[k])
    requires b == |s| || !IsWs(s[b])
    ensures RemoveBreakRunsFrom(s, a) == RemoveBreakRunsFrom(s, b)
  {
  }

  /** One line feed and the whitespace after it, between two stretches
      that hold no line feed, are deleted entirely and the two lines are
      joined. */
  lemma JoinsLinesAtBreak(s: seq<char>, a: int, b: int)
    requires 0 <= a && a + 1 < b <= |s|
    requires s[a] == '\n'
    requires forall k :: a < k < b ==> IsWs(s[k])
    requires b == |s| || !IsWs(s[b])
    requires forall k :: 0 <= k < a ==> s[k] != '\n'
    requires forall k :: b <= k < |s| ==> s[k] != '\n'
    ensures RemoveBreakRuns(s) == s[..a] + s[b..]
  {
    var before, after := s[..a], s[b..];
    calc {
      RemoveBreakRuns(s);
      RemoveBreakRunsFrom(s, 0);
      { ScanCopiesLine(s, 0, a); assert s[0..a] == before; }
      before + RemoveBreakRunsFrom(s, a);
      { ScanSkipsMatch(s, a, b); }
      before + RemoveBreakRunsFrom(s, b);
      { ScanCopiesLine(s, b, |s|); assert s[b..|s|] == after; }
      before + (after + RemoveBreakRunsFrom(s, |s|));
      { assert after + [] == after; }
      before + after;
    }
  }

  // ---------------------------------------------------------------------
  // Worked examples

  /** Whitespace before a line feed and between words is kept. */
  lemma KeepsWhitespaceBeforeBreak(s: seq<char>)
    requires s == "a  \n b"
    ensures Normalize(s) == "a  b"
  {
    assert RemoveBreakRuns(s) == "a  b" by {
      JoinsLinesAtBreak(s, 3, 5);
    }
    TrimKeepsClean("a  b");
  }

  /** A line feed followed by a non-whitespace character is kept. */
  lemma KeepsBreakBeforeWord(s: seq<char>)
    requires s == "a\nb"
    ensures Normalize(s) == "a\nb"
  {
    assert NoBreakWs(s) by {
      assert !StartsBreakRun(s, 1);
    }
    ScanIdentity(s, 0);
    TrimKeepsClean(s);
  }

  /** An indented continuation line is joined to the line before it and
      trailing spaces are trimmed. */
  lemma JoinsIndentedLine(s: seq<char>)
    requires s == "Price:\n   $5.00  "
    ensures Normalize(s) == "Price:$5.00"
  {
    var m := "Price:$5.00  ";
    assert RemoveBreakRuns(s) == m by {
      JoinsLinesAtBreak(s, 6, 10);
    }
    assert Trim(m) == "Price:$5.00" by {
      TrimUnique(m, 0, 11);
    }
  }

  /** The greedy `\s+` swallows further line feeds. */
  lemma BreakRunSwallowsBreaks(s: seq<char>)
    requires s == "a\n \n  b"
    ensures Normalize(s) == "ab"
  {
    assert RemoveBreakRuns(s) == "ab" by {
      JoinsLinesAtBreak(s, 1, 6);
    }
    TrimKeepsClean("ab");
  }

  /** A carriage return before the line feed is not part of the match; it
      is removed afterwards by `trim` because it is leading whitespace. */
  lemma CarriageReturnSurvivesReplace(s: seq<char>)
    requires s == "\r\n  x"
    ensures RemoveBreakRuns(s) == "\rx"
    ensures Normalize(s) == "x"
  {
    var m := "\rx";
    assert RemoveBreakRuns(s) == m by {
      JoinsLinesAtBreak(s, 1, 4);
    }
    assert Trim(m) == "x" by {
      TrimUnique(m, 1, 2);
    }
  }
}
