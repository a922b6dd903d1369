/**
 * The one regular expression of the banner remover, written out by hand over strings.
 * Detection uses `max-height:\s*(\d+)%` (group 1 is the digits); the rewrite uses
 * `(max-height:\s*)(\d+%)` with the replacement `${1}` followed by the new value.
 * Because `\s`, `\d` and `%` share no character, a match that starts at a given
 * position is unique, so the backtracking order of the regex engine plays no part.
 */
module HeightPattern {
  import opened Wrappers

  /** `\d`: a decimal digit. It is neither the '%' that ends a match nor a letter of the key. */
  predicate IsDigit(c: char): (r: bool)
    ensures r ==> c != '%' && c !in Key
  {
    '0' <= c <= '9'
  }

  /** `\s`: the .NET whitespace class, [\f\n\r\t\v\x85] and the Unicode separators \p{Z}. */
  predicate IsSpace(c: char): (r: bool)
    ensures r ==> !IsDigit(c) && c != '%' && c !in Key
  {
    c == ' ' || c == '\t' || c == '\n' || c == '\U{000B}' || c == '\U{000C}' || c == '\r' ||
    c == '\U{0085}' || c == '\U{00A0}' || c == '\U{1680}' || ('\U{2000}' <= c <= '\U{200A}') ||
    c == '\U{2028}' || c == '\U{2029}' || c == '\U{202F}' || c == '\U{205F}' || c == '\U{3000}'
  }

  /** The literal part that both patterns start with. */
  const Key: string := "max-height:"

  predicate AllSpace(w: string) {
    forall k | 0 <= k < |w| :: IsSpace(w[k])
  }

  predicate AllDigits(w: string) {
    forall k | 0 <= k < |w| :: IsDigit(w[k])
  }

  // ---------------------------------------------------------------------------
  // The two patterns as languages

  /** w is a word of `max-height:\s*(\d+)%`, read with ws for `\s*` and digits for group 1. */
  predicate DetectAccepts(w: string, ws: string, digits: string): (r: bool)
    ensures r ==> |w| == |Key| + |ws| + |digits| + 1 && w[..|Key|] == Key && w[|w| - 1] == '%'
  {
    w == Key + ws + digits + "%" && AllSpace(ws) && |digits| > 0 && AllDigits(digits)
  }

  /** w is a word of `(max-height:\s*)(\d+%)`, read with g1 and g2 for its two groups. */
  predicate RewriteAccepts(w: string, g1: string, g2: string): (r: bool)
    ensures r ==> |Key| + 2 <= |w| && w[..|Key|] == Key && w[|w| - 1] == '%'
  {
    w == g1 + g2 &&
    |Key| <= |g1| && g1[..|Key|] == Key && AllSpace(g1[|Key|..]) &&
    2 <= |g2| && AllDigits(g2[..|g2| - 1]) && g2[|g2| - 1] == '%'
  }

  /** The detection pattern and the rewrite pattern accept exactly the same words;
      the rewrite's group 2 is the detection's group 1 followed by '%'. */
  lemma PatternsAgree(w: string)
    ensures forall ws, digits :: DetectAccepts(w, ws, digits) ==> RewriteAccepts(w, Key + ws, digits + "%")
    ensures forall g1, g2 :: RewriteAccepts(w, g1, g2) ==> DetectAccepts(w, g1[|Key|..], g2[..|g2| - 1])
  {
    forall ws, digits | DetectAccepts(w, ws, digits)
      ensures RewriteAccepts(w, Key + ws, digits + "%")
    {
      var g1, g2 := Key + ws, digits + "%";
      assert w == g1 + g2;
      assert g1[..|Key|] == Key && g1[|Key|..] == ws;
      assert g2[..|g2| - 1] == digits;
    }
    forall g1, g2 | RewriteAccepts(w, g1, g2)
      ensures DetectAccepts(w, g1[|Key|..], g2[..|g2| - 1])
    {
      var ws, digits := g1[|Key|..], g2[..|g2| - 1];
      assert g1 == Key + ws;
      assert g2 == digits + "%";
    }
  }

  /** A word of the detection pattern has one reading only: its captured digits are determined. */
  lemma DetectUnique(w: string, ws1: string, d1: string, ws2: string, d2: string)
    requires DetectAccepts(w, ws1, d1) && DetectAccepts(w, ws2, d2)
    ensures ws1 == ws2 && d1 == d2
  {
    assert forall k | |Key| <= k < |Key| + |ws1| :: IsSpace(w[k]) by {
      forall k | |Key| <= k < |Key| + |ws1| ensures IsSpace(w[k]) { assert w[k] == ws1[k - |Key|]; }
    }
    assert forall k | |Key| <= k < |Key| + |ws2| :: IsSpace(w[k]) by {
      forall k | |Key| <= k < |Key| + |ws2| ensures IsSpace(w[k]) { assert w[k] == ws2[k - |Key|]; }
    }
    assert IsDigit(w[|Key| + |ws1|]) by { assert w[|Key| + |ws1|] == d1[0]; }
    assert IsDigit(w[|Key| + |ws2|]) by { assert w[|Key| + |ws2|] == d2[0]; }
    assert |ws1| == |ws2|;
    assert ws1 == w[|Key|..|Key| + |ws1|] == ws2;
    assert d1 == w[|Key| + |ws1|..|w| - 1] == d2;
  }

  // ---------------------------------------------------------------------------
  // Matches inside a line

  /** A match inside a line: s[start..digits] is the key and the whitespace (group 1 of the
      rewrite pattern), s[digits..end - 1] the digits (group 1 of the detection pattern) and
      s[end - 1] the '%'. */
  datatype Span = Span(start: nat, digits: nat, end: nat)

  predicate IsMatch(s: string, m: Span) {
    m.start + |Key| <= m.digits < m.end - 1 && m.end <= |s| &&
    s[m.start..m.start + |Key|] == Key &&
    (forall k | m.start + |Key| <= k < m.digits :: IsSpace(s[k])) &&
    (forall k | m.digits <= k < m.end - 1 :: IsDigit(s[k])) &&
    s[m.end - 1] == '%'
  }

  /** The value of the detection pattern's group 1. */
  function Captured(s: string, m: Span): (r: string)
    requires m.digits < m.end <= |s|
    ensures |r| == m.end - 1 - m.digits
    ensures IsMatch(s, m) ==> |r| >= 1 && AllDigits(r)
  {
    s[m.digits..m.end - 1]
  }

  /** A match is an occurrence of a word of the detection pattern, read at its span. */
  lemma MatchIsWord(s: string, m: Span)
    requires IsMatch(s, m)
    ensures DetectAccepts(s[m.start..m.end], s[m.start + |Key|..m.digits], Captured(s, m))
  {
    var w, ws, d := s[m.start..m.end], s[m.start + |Key|..m.digits], Captured(s, m);
    assert w == s[m.start..m.start + |Key|] + ws + d + [s[m.end - 1]];
    assert AllSpace(ws) by {
      forall k | 0 <= k < |ws| ensures IsSpace(ws[k]) {
        assert ws[k] == s[m.start + |Key| + k];
      }
    }
    assert AllDigits(d) by {
      forall k | 0 <= k < |d| ensures IsDigit(d[k]) {
        assert d[k] == s[m.digits + k];
      }
    }
  }

  /** An occurrence of a word of the detection pattern is a match at its span. */
  lemma WordIsMatch(s: string, m: Span)
    requires m.start + |Key| <= m.digits < m.end <= |s|
    requires DetectAccepts(s[m.start..m.end], s[m.start + |Key|..m.digits], Captured(s, m))
    ensures IsMatch(s, m)
  {
    var w, ws, d := s[m.start..m.end], s[m.start + |Key|..m.digits], Captured(s, m);
    assert s[m.start..m.start + |Key|] == w[..|Key|] == Key;
    forall k | m.start + |Key| <= k < m.digits ensures IsSpace(s[k]) {
      assert s[k] == ws[k - m.start - |Key|];
    }
    forall k | m.digits <= k < m.end - 1 ensures IsDigit(s[k]) {
      assert s[k] == d[k - m.digits];
    }
    assert s[m.end - 1] == w[|w| - 1];
  }

  /** A match starts with the only 'm' it contains. */
  lemma MatchLetters(s: string, m: Span)
    requires IsMatch(s, m)
    ensures s[m.start] == 'm'
    ensures forall k | m.start < k < m.end :: s[k] != 'm'
  {
    assert s[m.start] == s[m.start..m.start + |Key|][0] == Key[0];
    forall k | m.start < k < m.end ensures s[k] != 'm' {
      if k < m.start + |Key| {
        assert s[k] == s[m.start..m.start + |Key|][k - m.start];
        assert Key[k - m.start] != 'm';
      }
    }
  }

  /** Whether a span is a match depends on the characters inside it only. */
  lemma Transport(s: string, t: string, m: Span, d: int)
    requires IsMatch(s, m)
    requires 0 <= m.start + d && m.end + d <= |t|
    requires forall k | m.start <= k < m.end :: t[k + d] == s[k]
    ensures IsMatch(t, Span(m.start + d, m.digits + d, m.end + d))
    ensures Captured(t, Span(m.start + d, m.digits + d, m.end + d)) == Captured(s, m)
  {
    var n := Span(m.start + d, m.digits + d, m.end + d);
    assert t[n.start..n.start + |Key|] == s[m.start..m.start + |Key|] by {
      forall k | n.start <= k < n.start + |Key| ensures t[k] == s[k - d] {
        assert t[(k - d) + d] == s[k - d];
      }
    }
    forall k | n.start + |Key| <= k < n.digits ensures IsSpace(t[k]) {
      assert t[(k - d) + d] == s[k - d] && IsSpace(s[k - d]);
    }
    forall k | n.digits <= k < n.end - 1 ensures IsDigit(t[k]) {
      assert t[(k - d) + d] == s[k - d] && IsDigit(s[k - d]);
    }
    assert t[(m.end - 1) + d] == s[m.end - 1];
    assert Captured(t, n) == Captured(s, m) by {
      forall k | 0 <= k < |Captured(s, m)| ensures Captured(t, n)[k] == Captured(s, m)[k] {
        assert Captured(t, n)[k] == t[(m.digits + k) + d];
        assert Captured(s, m)[k] == s[m.digits + k];
      }
    }
  }

  /** The unshifted case of Transport: a line that agrees with s on the span of a match has
      that match too. */
  lemma SameWindow(s: string, t: string, m: Span)
    requires IsMatch(s, m) && m.end <= |t|
    requires forall k | m.start <= k < m.end :: t[k] == s[k]
    ensures IsMatch(t, m)
  {
    assert t[m.start..m.start + |Key|] == s[m.start..m.start + |Key|];
  }

  /** The three parts of a concatenation, read back by slicing. */
  lemma ConcatParts(a: string, v: string, t: string)
    ensures (a + v + t)[..|a|] == a
    ensures (a + v + t)[|a|..|a| + |v|] == v
    ensures (a + v + t)[|a| + |v|..] == t
  {
  }

  // ---------------------------------------------------------------------------
  // The matcher

  /** End of the longest whitespace run in s from i: how `\s*` consumes its input. */
  function SpaceRun(s: string, i: nat): (j: nat)
    requires i <= |s|
    ensures i <= j <= |s|
    ensures forall k | i <= k < j :: IsSpace(s[k])
    ensures j == |s| || !IsSpace(s[j])
    decreases |s| - i
  {
    if i < |s| && IsSpace(s[i]) then SpaceRun(s, i + 1) else i
  }

  /** End of the longest digit run in s from i: how `\d+` consumes its input. */
  function DigitRun(s: string, i: nat): (j: nat)
    requires i <= |s|
    ensures i <= j <= |s|
    ensures forall k | i <= k < j :: IsDigit(s[k])
    ensures j == |s| || !IsDigit(s[j])
    decreases |s| - i
  {
    if i < |s| && IsDigit(s[i]) then DigitRun(s, i + 1) else i
  }

  /** The match of the pattern that starts at position i of s, if there is one. */
  function MatchAt(s: string, i: nat): (r: Option<Span>)
    ensures r.Some? ==> r.value.start == i && IsMatch(s, r.value)
  {
    if i + |Key| <= |s| && s[i..i + |Key|] == Key then
      var j := SpaceRun(s, i + |Key|);
      var k := DigitRun(s, j);
      if j < k < |s| && s[k] == '%' then Some(Span(i, j, k + 1)) else None
    else
      None
  }

  /** MatchAt misses no match: every match is the one MatchAt finds at its start. */
  lemma MatchAtComplete(s: string, m: Span)
    requires IsMatch(s, m)
    ensures MatchAt(s, m.start) == Some(m)
  {
    var j := SpaceRun(s, m.start + |Key|);
    assert IsDigit(s[m.digits]);
    assert j == m.digits;
    var k := DigitRun(s, j);
    assert k == m.end - 1;
  }

  /** At most one match starts at a given position. */
  lemma MatchUnique(s: string, m1: Span, m2: Span)
    requires IsMatch(s, m1) && IsMatch(s, m2) && m1.start == m2.start
    ensures m1 == m2
  {
    MatchAtComplete(s, m1);
    MatchAtComplete(s, m2);
  }

  lemma NoMatchAt(s: string, i: nat)
    requires MatchAt(s, i).None?
    ensures forall m :: IsMatch(s, m) ==> m.start != i
  {
    forall m | IsMatch(s, m) ensures m.start != i {
      MatchAtComplete(s, m);
    }
  }

  /** The leftmost match that starts at or after `from`: how Regex.Match scans a line. */
  function FirstMatch(s: string, from: nat): (r: Option<Span>)
    requires from <= |s|
    ensures r.Some? ==> IsMatch(s, r.value) && from <= r.value.start
    ensures r.Some? ==> forall m :: IsMatch(s, m) && from <= m.start ==> r.value.start <= m.start
    ensures r.None? ==> forall m :: IsMatch(s, m) ==> m.start < from
    decreases |s| - from
  {
    match MatchAt(s, from)
    case Some(m) => Some(m)
    case None =>
      NoMatchAt(s, from);
      if from == |s| then None else FirstMatch(s, from + 1)
  }

  /** m is the leftmost match of the line. */
  ghost predicate Leftmost(s: string, m: Span) {
    IsMatch(s, m) && forall q :: IsMatch(s, q) ==> m.start <= q.start
  }

  /** A scan from the start of the line finds the leftmost match and nothing else. */
  lemma FirstIsLeftmost(s: string)
    ensures forall m :: FirstMatch(s, 0) == Some(m) <==> Leftmost(s, m)
  {
    forall m | Leftmost(s, m) ensures FirstMatch(s, 0) == Some(m) {
      var r := FirstMatch(s, 0);
      assert r.Some?;
      MatchUnique(s, r.value, m);
    }
  }

  /** The line holds some match of the pattern. */
  function HasMatch(s: string): (r: bool)
    ensures r <==> exists m :: IsMatch(s, m)
  {
    FirstMatch(s, 0).Some?
  }

  // ---------------------------------------------------------------------------
  // Detection on one line

  /** What IsBannerVisible concludes from the target line: the banner counts as shown unless
      the first match captures exactly the string "0" (so "00%" counts as shown). */
  function LineShowsBanner(line: string): (r: bool)
    ensures !HasMatch(line) ==> r
    ensures forall m :: Leftmost(line, m) ==> (r <==> Captured(line, m) != "0")
  {
    FirstIsLeftmost(line);
    match FirstMatch(line, 0)
    case None => true
    case Some(m) => Captured(line, m) != "0"
  }

  // ---------------------------------------------------------------------------
  // The rewrite

  /** A replacement value of the form the callers use: digits followed by '%'. */
  predicate IsPercent(v: string) {
    2 <= |v| && AllDigits(v[..|v| - 1]) && v[|v| - 1] == '%'
  }

  /** Regex.Replace(s, "(max-height:\s*)(\d+%)", "${1}" + v): every match, from left to right and
      without overlap, keeps its group 1 and has its group 2 replaced by v. */
  function Rewrite(s: string, v: string): (r: string)
    ensures !HasMatch(s) ==> r == s
    decreases |s|
  {
    match FirstMatch(s, 0)
    case None => s
    case Some(m) => s[..m.digits] + v + Rewrite(s[m.end..], v)
  }

  /** Splicing v over the group 2 of the leftmost match keeps everything before it, so the
      spliced span is the leftmost match of the new line, whatever follows it. */
  lemma SpliceLeftmost(s: string, v: string, t: string, m: Span)
    requires IsPercent(v) && Leftmost(s, m)
    ensures Leftmost(s[..m.digits] + v + t, Span(m.start, m.digits, m.digits + |v|))
  {
    var r := s[..m.digits] + v + t;
    var n := Span(m.start, m.digits, m.digits + |v|);
    assert forall k | 0 <= k < m.digits :: r[k] == s[k];
    assert forall k | m.digits <= k < m.digits + |v| :: r[k] == v[k - m.digits];
    assert r[n.start..n.start + |Key|] == s[m.start..m.start + |Key|];
    forall k | n.digits <= k < n.end - 1 ensures IsDigit(r[k]) {
      assert r[k] == v[..|v| - 1][k - m.digits];
    }
    assert IsMatch(r, n);
    forall q | IsMatch(r, q) ensures m.start <= q.start {
      if q.start < m.start {
        PrefixMatch(s, r, m, q);
      }
    }
  }

  /** A match of a line that agrees with s up to the digits of the match m, and that starts
      before m, lies wholly before m (m begins with the only 'm' it contains), so it is a match
      of s too. */
  lemma PrefixMatch(s: string, r: string, m: Span, q: Span)
    requires IsMatch(s, m) && m.digits <= |r|
    requires forall k | 0 <= k < m.digits :: r[k] == s[k]
    requires IsMatch(r, q) && q.start < m.start
    ensures IsMatch(s, q)
  {
    assert q.end <= m.start by {
      MatchLetters(r, q);
      MatchLetters(s, m);
    }
    SameWindow(r, s, q);
  }

  /** After rewriting, the first match sits where it did, still with its key and whitespace,
      and now captures the digits of v. */
  lemma RewriteHead(s: string, v: string, m: Span)
    requires IsPercent(v) && FirstMatch(s, 0) == Some(m)
    ensures m.digits + |v| <= |Rewrite(s, v)|
    ensures Rewrite(s, v)[..m.digits] == s[..m.digits]
    ensures Rewrite(s, v)[m.digits..m.digits + |v|] == v
    ensures FirstMatch(Rewrite(s, v), 0) == Some(Span(m.start, m.digits, m.digits + |v|))
  {
    var r := Rewrite(s, v);
    var rest := Rewrite(s[m.end..], v);
    assert r == s[..m.digits] + v + rest;
    ConcatParts(s[..m.digits], v, rest);
    FirstIsLeftmost(s);
    SpliceLeftmost(s, v, rest, m);
    FirstIsLeftmost(r);
  }

  /** Rewriting with a percentage value twice gives the same line as rewriting once. */
  lemma {:induction false} RewriteIdempotent(s: string, v: string)
    requires IsPercent(v)
    ensures Rewrite(Rewrite(s, v), v) == Rewrite(s, v)
    decreases |s|
  {
    match FirstMatch(s, 0)
    case None =>
    case Some(m) =>
      var r := Rewrite(s, v);
      var rest := Rewrite(s[m.end..], v);
      assert r == s[..m.digits] + v + rest;
      RewriteHead(s, v, m);
      RewriteIdempotent(s[m.end..], v);
      var e := m.digits + |v|;
      assert r[e..] == rest;
      calc {
        Rewrite(r, v);
        r[..m.digits] + v + Rewrite(r[e..], v);
        s[..m.digits] + v + Rewrite(rest, v);
        s[..m.digits] + v + rest;
      }
  }

  /** The text a rewrite keeps: the part of the line before each match's group 2 (the text since
      the previous match, then the key and its whitespace), and at the end what follows the last
      match. */
  function Pieces(s: string): (r: seq<string>)
    ensures |r| >= 1
    ensures !HasMatch(s) ==> r == [s]
    decreases |s|
  {
    match FirstMatch(s, 0)
    case None => [s]
    case Some(m) => [s[..m.digits]] + Pieces(s[m.end..])
  }

  /** A rewrite changes the values only: the text between, before and after the matches, and the
      key and whitespace of every match, stay as they were. */
  lemma {:induction false} RewriteKeepsPieces(s: string, v: string)
    requires IsPercent(v)
    ensures Pieces(Rewrite(s, v)) == Pieces(s)
    decreases |s|
  {
    match FirstMatch(s, 0)
    case None =>
    case Some(m) =>
      var r := Rewrite(s, v);
      var rest := Rewrite(s[m.end..], v);
      assert r == s[..m.digits] + v + rest;
      ConcatParts(s[..m.digits], v, rest);
      RewriteHead(s, v, m);
      RewriteKeepsPieces(s[m.end..], v);
      calc {
        Pieces(r);
        [r[..m.digits]] + Pieces(r[m.digits + |v|..]);
        [s[..m.digits]] + Pieces(rest);
        [s[..m.digits]] + Pieces(s[m.end..]);
      }
  }

  /** A line whose only match is m becomes the line with m's group 2 replaced by v, and nothing
      else changed. */
  lemma RewriteSingle(s: string, v: string, m: Span)
    requires IsMatch(s, m) && forall q :: IsMatch(s, q) ==> q == m
    ensures Rewrite(s, v) == s[..m.digits] + v + s[m.end..]
  {
    FirstIsLeftmost(s);
    assert FirstMatch(s, 0) == Some(m);
    NothingAfterOnlyMatch(s, m);
  }

  /** A match in the remainder s[e..] is a match of s, e positions further on. */
  lemma ShiftBack(s: string, e: nat, p: Span)
    requires e <= |s| && IsMatch(s[e..], p)
    ensures IsMatch(s, Span(p.start + e, p.digits + e, p.end + e))
  {
    var rest := s[e..];
    forall k | p.start <= k < p.end ensures s[k + e] == rest[k] {
      assert rest[k] == s[e + k];
    }
    Transport(rest, s, p, e);
  }

  /** Nothing after the only match of a line is a match. */
  lemma NothingAfterOnlyMatch(s: string, m: Span)
    requires IsMatch(s, m) && forall q :: IsMatch(s, q) ==> q == m
    ensures !HasMatch(s[m.end..])
  {
    match FirstMatch(s[m.end..], 0)
    case None =>
    case Some(p) =>
      ShiftBack(s, m.end, p);
      assert false;
  }

  /** The spans of a line where `(max-height:\s*)(\d+%)` occurs, read with s[start..digits] as
      group 1 and s[digits..end] as group 2, are exactly its matches. */
  lemma OccurrenceIsMatch(s: string, m: Span)
    requires m.start + |Key| <= m.digits < m.end <= |s|
    ensures IsMatch(s, m) <==>
      RewriteAccepts(s[m.start..m.end], s[m.start..m.digits], s[m.digits..m.end])
  {
    var w, g1, g2 := s[m.start..m.end], s[m.start..m.digits], s[m.digits..m.end];
    var ws := s[m.start + |Key|..m.digits];
    PatternsAgree(w);
    assert g2[..|g2| - 1] == Captured(s, m);
    assert g1[|Key|..] == ws;
    if IsMatch(s, m) {
      MatchIsWord(s, m);
      assert Key + ws == g1;
      assert Captured(s, m) + "%" == g2;
    }
    if RewriteAccepts(w, g1, g2) {
      WordIsMatch(s, m);
    }
  }

  /** No old value survives a rewrite: every match of the rewritten line captures the digits of v. */
  lemma {:induction false} RewriteLeavesOnlyValue(s: string, v: string)
    requires IsPercent(v)
    ensures forall q :: IsMatch(Rewrite(s, v), q) ==> Captured(Rewrite(s, v), q) == v[..|v| - 1]
    decreases |s|
  {
    match FirstMatch(s, 0)
    case None =>
    case Some(m) =>
      var r := Rewrite(s, v);
      var rest := Rewrite(s[m.end..], v);
      var n := Span(m.start, m.digits, m.digits + |v|);
      assert r == s[..m.digits] + v + rest;
      RewriteHead(s, v, m);
      assert r[n.end..] == rest;
      RewriteLeavesOnlyValue(s[m.end..], v);
      forall q | IsMatch(r, q) ensures Captured(r, q) == v[..|v| - 1] {
        SplicedCapture(r, v, rest, n, q);
      }
  }

  /** The step of RewriteLeavesOnlyValue: a match of a line whose first match captures the digits
      of v, and whose remainder after that match only holds matches that do too, captures them. */
  lemma SplicedCapture(r: string, v: string, rest: string, n: Span, q: Span)
    requires IsPercent(v) && FirstMatch(r, 0) == Some(n)
    requires n.digits + |v| == n.end && r[n.digits..n.end] == v && r[n.end..] == rest
    requires forall p :: IsMatch(rest, p) ==> Captured(rest, p) == v[..|v| - 1]
    requires IsMatch(r, q)
    ensures Captured(r, q) == v[..|v| - 1]
  {
    if q.start == n.start {
      MatchUnique(r, q, n);
      SliceCapture(r, n, v);
    } else if q.start < n.end {
      MatchLetters(r, q);
      MatchLetters(r, n);
      assert false;
    } else {
      TailCapture(r, rest, n.end, q);
    }
  }

  /** A match after position e of r is a match of r[e..] with the same captured digits. */
  lemma TailCapture(r: string, rest: string, e: nat, q: Span)
    requires e <= |r| && r[e..] == rest && IsMatch(r, q) && e <= q.start
    ensures IsMatch(rest, Span(q.start - e, q.digits - e, q.end - e))
    ensures Captured(rest, Span(q.start - e, q.digits - e, q.end - e)) == Captured(r, q)
  {
    forall k | q.start <= k < q.end ensures rest[k - e] == r[k] {
      assert r[k] == r[e..][k - e];
    }
    Transport(r, rest, q, -(e as int));
  }

  /** A span whose digits and '%' read v captures the digits of v. */
  lemma SliceCapture(r: string, n: Span, v: string)
    requires n.digits + |v| == n.end <= |r| && 1 <= |v| && r[n.digits..n.end] == v
    ensures Captured(r, n) == v[..|v| - 1]
  {
    forall k | 0 <= k < |v| - 1 ensures Captured(r, n)[k] == v[k] {
      assert Captured(r, n)[k] == r[n.digits + k];
      assert r[n.digits..n.end][k] == r[n.digits + k];
    }
  }

  /** The first match of a rewritten line captures the digits of v. */
  lemma RewriteFirstCapture(line: string, v: string)
    requires IsPercent(v) && HasMatch(line)
    ensures FirstMatch(Rewrite(line, v), 0).Some?
    ensures Captured(Rewrite(line, v), FirstMatch(Rewrite(line, v), 0).value) == v[..|v| - 1]
  {
    var m := FirstMatch(line, 0).value;
    var r := Rewrite(line, v);
    var n := Span(m.start, m.digits, m.digits + |v|);
    RewriteHead(line, v, m);
    SliceCapture(r, n, v);
  }

  /** Rewriting a line that holds a match decides what detection reports: shown exactly when
      the digits of v are not "0". */
  lemma RewriteSetsVisibility(line: string, v: string)
    requires IsPercent(v) && HasMatch(line)
    ensures HasMatch(Rewrite(line, v))
    ensures LineShowsBanner(Rewrite(line, v)) <==> v[..|v| - 1] != "0"
  {
    RewriteFirstCapture(line, v);
  }

  // ---------------------------------------------------------------------------
  // Worked lines

  /** The match in the worked line starts after its indentation. */
  lemma ExampleMatch()
    ensures FirstMatch("    max-height: 100%;", 0) == Some(Span(4, 16, 20))
    ensures forall q :: IsMatch("    max-height: 100%;", q) ==> q == Span(4, 16, 20)
  {
    var s := "    max-height: 100%;";
    var m := Span(4, 16, 20);
    assert IsMatch(s, m);
    assert s[0] == ' ' && s[1] == ' ' && s[2] == ' ' && s[3] == ' ';
    assert s[5] == 'a' && s[6] == 'x' && s[7] == '-' && s[8] == 'h';
    forall q | IsMatch(s, q) ensures q == m {
      MatchLetters(s, q);
      assert q.start == 4;
      MatchUnique(s, q, m);
    }
    FirstIsLeftmost(s);
  }

  /** Hiding the worked line "    max-height: 100%;": only its percentage is rewritten, and the
      indentation, the key, its whitespace and the ';' are kept. */
  lemma HideExample(s: string, v: string)
    requires s == "    max-height: 100%;" && v == "0%"
    ensures Rewrite(s, v) == "    max-height: 0%;"
  {
    HideExampleSplice(s, v);
    HideExampleText(s, v);
  }

  /** The worked line's only match has its group 2 replaced. */
  lemma HideExampleSplice(s: string, v: string)
    requires s == "    max-height: 100%;" && v == "0%"
    ensures Rewrite(s, v) == s[..16] + v + s[20..]
  {
    ExampleMatch();
    RewriteSingle(s, v, Span(4, 16, 20));
  }

  /** The spliced worked line, spelt out. */
  lemma HideExampleText(s: string, v: string)
    requires s == "    max-height: 100%;" && v == "0%"
    ensures s[..16] + v + s[20..] == "    max-height: 0%;"
  {
    assert s[..16] == "    max-height: " && s[20..] == ";";
  }

  /** Detection reads the hidden worked line as hidden. */
  lemma HideExampleHidden()
    ensures !LineShowsBanner(Rewrite("    max-height: 100%;", "0%"))
  {
    var s, v := "    max-height: 100%;", "0%";
    ExampleMatch();
    RewriteSetsVisibility(s, v);
    assert v[..1] == "0";
  }

  /** The comparison is on the captured text: "00%" counts as shown. */
  lemma DoubleZeroShows()
    ensures LineShowsBanner("max-height: 00%;")
  {
    var s := "max-height: 00%;";
    var m := Span(0, 12, 15);
    assert IsMatch(s, m);
    assert Leftmost(s, m);
    assert Captured(s, m) == "00";
  }
}
