/**
 * The version-header regular expression of main.go, `(?m)^## (\d+\.\d+\.\d+)\s*$`,
 * as Go's RE2 engine runs it under `FindAllStringSubmatchIndex`: matches are
 * found left to right, never overlap, and each is the leftmost-first (Perl)
 * match, so the greedy `\s*` takes the longest run of spaces after which `$`
 * holds. In multi-line mode `^` holds at the start of the text and after a
 * '\n', and `$` holds at the end of the text and before a '\n'.
 */
module Header {
  import opened Wrappers

  /** RE2's `\d`: ASCII digits only. */
  predicate IsDigit(c: char) {
    '0' <= c <= '9'
  }

  /** RE2's `\s`: tab, newline, form feed, carriage return and space (not vertical tab). */
  predicate IsRegexSpace(c: char) {
    c == '\t' || c == '\n' || c == '\U{C}' || c == '\r' || c == ' '
  }

  /** `v` splits at dots `i` and `j` into three non-empty runs of digits. */
  predicate SplitsAt(v: string, i: int, j: int) {
    0 < i && i + 1 < j && j + 1 < |v| && v[i] == '.' && v[j] == '.'
    && forall k :: 0 <= k < |v| && k != i && k != j ==> IsDigit(v[k])
  }

  /** The text captured by `(\d+\.\d+\.\d+)`. */
  predicate IsVersion(v: string) {
    exists i, j | 0 < i < j < |v| :: SplitsAt(v, i, j)
  }

  /** `^` in multi-line mode. */
  predicate LineStart(s: string, p: nat)
    requires p <= |s|
  {
    p == 0 || s[p - 1] == '\n'
  }

  /** `$` in multi-line mode. */
  predicate LineEnd(s: string, q: nat)
    requires q <= |s|
  {
    q == |s| || s[q] == '\n'
  }

  /** Where a greedy `\d+` or `\d*` starting at `from` stops. */
  function DigitsFrom(s: string, from: nat): (i: nat)
    requires from <= |s|
    ensures from <= i <= |s|
    ensures i < |s| ==> !IsDigit(s[i])
    ensures forall k :: from <= k < i ==> IsDigit(s[k])
    decreases |s| - from
  {
    if from == |s| || !IsDigit(s[from]) then from else DigitsFrom(s, from + 1)
  }

  /** Where a greedy `\s*` starting at `from` stops. */
  function RegexSpacesFrom(s: string, from: nat): (i: nat)
    requires from <= |s|
    ensures from <= i <= |s|
    ensures i < |s| ==> !IsRegexSpace(s[i])
    ensures forall k :: from <= k < i ==> IsRegexSpace(s[k])
    decreases |s| - from
  {
    if from == |s| || !IsRegexSpace(s[from]) then from else RegexSpacesFrom(s, from + 1)
  }

  /**
   * Backtracking of the greedy `\s*` into `$`: the last position in `lo..hi`
   * where `$` holds, if any.
   */
  function LastLineEnd(s: string, lo: nat, hi: nat): (r: Option<nat>)
    requires lo <= hi <= |s|
    ensures r.Some? ==> lo <= r.value <= hi && LineEnd(s, r.value)
    ensures r.Some? ==> forall q :: r.value < q <= hi ==> !LineEnd(s, q)
    ensures r.None? ==> forall q :: lo <= q <= hi ==> !LineEnd(s, q)
    decreases hi - lo
  {
    if LineEnd(s, hi) then Some(hi)
    else if hi == lo then None
    else LastLineEnd(s, lo, hi - 1)
  }

  /**
   * One submatch index quadruple of `FindAllStringSubmatchIndex`: the whole
   * match is `match[0]..match[1]` (`start..end`), the version capture group
   * `match[2]..match[3]` (`captureStart..captureEnd`).
   */
  datatype Match = Match(start: nat, captureStart: nat, captureEnd: nat, end: nat)

  /**
   * `m` is a match of the header expression at `p`: a line that starts "## ",
   * then a version, then spaces up to a point where `$` holds; that point may
   * lie on a later line when the lines between are blank.
   */
  predicate IsMatchAt(s: string, p: nat, m: Match) {
    m.start == p && m.captureStart == p + 3 && p + 3 < m.captureEnd <= m.end <= |s|
    && LineStart(s, p) && s[p..p + 3] == "## "
    && IsVersion(s[m.captureStart..m.captureEnd])
    && (forall k :: p <= k < m.captureEnd ==> s[k] != '\n')
    && (forall k :: m.captureEnd <= k < m.end ==> IsRegexSpace(s[k]))
    && LineEnd(s, m.end)
  }

  /**
   * Where `\d+\.\d+\.\d+` starting at `a` ends, if it matches there. Each
   * `\d+` is greedy and the next character must be a dot, so there is never
   * anything to backtrack to.
   */
  function VersionEnd(s: string, a: nat): Option<nat>
    requires a <= |s|
  {
    var b := DigitsFrom(s, a);
    if b == a || b == |s| || s[b] != '.' then None
    else
      var c := DigitsFrom(s, b + 1);
      if c == b + 1 || c == |s| || s[c] != '.' then None
      else
        var d := DigitsFrom(s, c + 1);
        if d == c + 1 then None else Some(d)
  }

  /** The leftmost-first match of the header expression that starts exactly at `p`, if any. */
  function HeaderAt(s: string, p: nat): Option<Match>
    requires p <= |s|
  {
    if !(LineStart(s, p) && p + 3 <= |s| && s[p..p + 3] == "## ") then None
    else
      match VersionEnd(s, p + 3)
      case None => None
      case Some(d) =>
        match LastLineEnd(s, d, RegexSpacesFrom(s, d))
        case None => None
        case Some(e) => Some(Match(p, p + 3, d, e))
  }

  /** What `VersionEnd` finds is a version, on one line, not followed by a digit. */
  lemma VersionEndSound(s: string, a: nat)
    requires a <= |s|
    ensures VersionEnd(s, a).Some? ==>
      var d := VersionEnd(s, a).value;
      a < d <= |s| && IsVersion(s[a..d]) && (d < |s| ==> !IsDigit(s[d]))
      && forall k :: a <= k < d ==> s[k] != '\n'
  {
    if VersionEnd(s, a).Some? {
      var b := DigitsFrom(s, a);
      var c := DigitsFrom(s, b + 1);
      var d := DigitsFrom(s, c + 1);
      DotsVersion(s, a, b, c, d);
    }
  }

  /** Three runs of digits separated by two dots form a version. */
  lemma DotsVersion(s: string, a: nat, i: nat, j: nat, d: nat)
    requires a < i && i + 1 < j && j + 1 < d <= |s| && s[i] == '.' && s[j] == '.'
    requires forall k :: a <= k < i ==> IsDigit(s[k])
    requires forall k :: i + 1 <= k < j ==> IsDigit(s[k])
    requires forall k :: j + 1 <= k < d ==> IsDigit(s[k])
    ensures IsVersion(s[a..d])
    ensures forall k :: a <= k < d ==> s[k] != '\n'
  {
    var v := s[a..d];
    assert SplitsAt(v, i - a, j - a);
  }

  /** A version not followed by a further digit is what `VersionEnd` finds. */
  lemma VersionEndIs(s: string, a: nat, d: nat)
    requires a <= d <= |s| && IsVersion(s[a..d]) && (d < |s| ==> !IsDigit(s[d]))
    ensures VersionEnd(s, a) == Some(d)
  {
    var i, j := VersionDots(s, a, d);
    DigitsFromIs(s, a, i);
    DigitsFromIs(s, i + 1, j);
    DigitsFromIs(s, j + 1, d);
  }

  /** Version format: what `HeaderAt` finds is a match of the expression. */
  lemma HeaderAtSound(s: string, p: nat)
    requires p <= |s|
    ensures HeaderAt(s, p).Some? ==> IsMatchAt(s, p, HeaderAt(s, p).value)
  {
    if HeaderAt(s, p).Some? {
      VersionEndSound(s, p + 3);
      assert s[p] == '#' && s[p + 1] == '#' && s[p + 2] == ' ' by {
        assert s[p..p + 3] == "## ";
      }
    }
  }

  /**
   * `FindAllStringSubmatchIndex(s, -1)` searching from `pos`: the leftmost
   * match, then the matches after its end; they do not overlap.
   */
  function MatchesFrom(s: string, pos: nat): (ms: seq<Match>)
    requires pos <= |s|
    ensures forall k :: 0 <= k < |ms| ==>
      pos <= ms[k].start && ms[k].start + 3 == ms[k].captureStart < ms[k].captureEnd <= ms[k].end <= |s|
    ensures forall k, l :: 0 <= k < l < |ms| ==> ms[k].end <= ms[l].start
    decreases |s| - pos
  {
    match HeaderAt(s, pos)
    case Some(m) => HeaderAtSound(s, pos); [m] + MatchesFrom(s, m.end)
    case None => if pos == |s| then [] else MatchesFrom(s, pos + 1)
  }

  /** Every element of the search is the match at its own start. */
  lemma {:induction false} MatchesFromSound(s: string, pos: nat)
    requires pos <= |s|
    ensures forall k :: 0 <= k < |MatchesFrom(s, pos)| ==> HeaderAt(s, MatchesFrom(s, pos)[k].start) == Some(MatchesFrom(s, pos)[k])
    decreases |s| - pos
  {
    var h := HeaderAt(s, pos);
    if h.Some? {
      HeaderAtSound(s, pos);
      MatchesFromHit(s, pos);
      MatchesFromSound(s, h.value.end);
    } else {
      MatchesFromMiss(s, pos);
      if pos < |s| {
        MatchesFromSound(s, pos + 1);
      }
    }
  }

  /** Matches that lie in `s` in order, each ending before the next starts. */
  predicate Placed(s: string, ms: seq<Match>) {
    (forall k :: 0 <= k < |ms| ==> ms[k].start <= ms[k].captureStart <= ms[k].captureEnd <= ms[k].end <= |s|)
    && (forall k, l :: 0 <= k < l < |ms| ==> ms[k].end <= ms[l].start)
  }

  /** Every match of the header expression in the document, in order. */
  function FindHeaders(s: string): (ms: seq<Match>)
    ensures Placed(s, ms)
  {
    MatchesFrom(s, 0)
  }

  /** No match of the header expression starts inside another one, nor where it ends. */
  lemma NoHeaderInside(s: string, p: nat, q: nat)
    requires p <= |s| && HeaderAt(s, p).Some?
    requires p < q <= HeaderAt(s, p).value.end
    ensures HeaderAt(s, q).None?
  {
    var m := HeaderAt(s, p).value;
    HeaderAtSound(s, p);
    if q <= m.captureEnd {
      assert !LineStart(s, q);
    } else if q < m.end {
      assert IsRegexSpace(s[q]);
    }
  }

  /** The search from `pos` finds every match that starts at or after `pos`. */
  lemma {:induction false} MatchesFromComplete(s: string, pos: nat, q: nat)
    requires pos <= q <= |s| && HeaderAt(s, q).Some?
    ensures exists k :: 0 <= k < |MatchesFrom(s, pos)| && MatchesFrom(s, pos)[k].start == q
    decreases |s| - pos
  {
    var h := HeaderAt(s, pos);
    if h.Some? {
      HeaderAtSound(s, pos);
      MatchesFromHit(s, pos);
      if q == pos {
        assert MatchesFrom(s, pos)[0].start == q;
      } else {
        var m := h.value;
        if q <= m.end {
          NoHeaderInside(s, pos, q);
        }
        MatchesFromComplete(s, m.end, q);
        FoundInTail(m, MatchesFrom(s, m.end), q);
      }
    } else {
      MatchesFromMiss(s, pos);
      MatchesFromComplete(s, pos + 1, q);
    }
  }

  lemma FoundInTail(m: Match, rest: seq<Match>, q: nat)
    requires exists k :: 0 <= k < |rest| && rest[k].start == q
    ensures exists k :: 0 <= k < |[m] + rest| && ([m] + rest)[k].start == q
  {
    var k :| 0 <= k < |rest| && rest[k].start == q;
    assert ([m] + rest)[k + 1].start == q;
  }

  lemma MatchesFromHit(s: string, pos: nat)
    requires pos <= |s| && HeaderAt(s, pos).Some?
    ensures MatchesFrom(s, pos) == [HeaderAt(s, pos).value] + MatchesFrom(s, HeaderAt(s, pos).value.end)
  {
  }

  lemma MatchesFromMiss(s: string, pos: nat)
    requires pos <= |s| && HeaderAt(s, pos).None?
    ensures pos < |s| ==> MatchesFrom(s, pos) == MatchesFrom(s, pos + 1)
    ensures pos == |s| ==> MatchesFrom(s, pos) == []
  {
  }

  /**
   * The matches are exactly the places where the header expression matches,
   * in strictly increasing order of position, and none overlaps the next.
   */
  lemma HeadersExactly(s: string)
    ensures forall q :: 0 <= q <= |s| ==>
      (HeaderAt(s, q).Some? <==> exists k :: 0 <= k < |FindHeaders(s)| && FindHeaders(s)[k].start == q)
    ensures forall k, l :: 0 <= k < l < |FindHeaders(s)| ==> FindHeaders(s)[k].end < FindHeaders(s)[l].start
  {
    var ms := FindHeaders(s);
    forall q | 0 <= q <= |s| && HeaderAt(s, q).Some?
      ensures exists k :: 0 <= k < |ms| && ms[k].start == q
    {
      MatchesFromComplete(s, 0, q);
    }
    MatchesFromSound(s, 0);
    forall k, l | 0 <= k < l < |ms| ensures ms[k].end < ms[l].start {
      EndBeforeNext(s, ms[k].start, ms[l].start);
    }
  }

  /** No match starts where another ends. */
  lemma EndBeforeNext(s: string, p: nat, q: nat)
    requires p <= |s| && q <= |s| && HeaderAt(s, p).Some? && HeaderAt(s, q).Some?
    ensures q != HeaderAt(s, p).value.end
  {
    HeaderAtSound(s, p);
    HeaderStartsWithHash(s, q);
  }

  lemma DigitsFromIs(s: string, from: nat, i: nat)
    requires from <= i <= |s|
    requires forall k :: from <= k < i ==> IsDigit(s[k])
    requires i < |s| ==> !IsDigit(s[i])
    ensures DigitsFrom(s, from) == i
  {
  }

  lemma RegexSpacesFromIs(s: string, from: nat, i: nat)
    requires from <= i <= |s|
    requires forall k :: from <= k < i ==> IsRegexSpace(s[k])
    requires i < |s| ==> !IsRegexSpace(s[i])
    ensures RegexSpacesFrom(s, from) == i
  {
  }

  /**
   * A line that starts "## " followed by a version (not followed by a further
   * digit) matches exactly when `\s*$` can match after the version.
   */
  lemma HeaderAtVersion(s: string, p: nat, d: nat)
    requires p + 3 < d <= |s| && LineStart(s, p) && s[p..p + 3] == "## "
    requires IsVersion(s[p + 3..d]) && (d < |s| ==> !IsDigit(s[d]))
    ensures HeaderAt(s, p) ==
      match LastLineEnd(s, d, RegexSpacesFrom(s, d))
      case None => None
      case Some(e) => Some(Match(p, p + 3, d, e))
  {
    VersionEndIs(s, p + 3, d);
  }

  /**
   * Every way the expression can match at `p` is found by `HeaderAt`: with the
   * same capture, and with the greedy `\s*` reaching at least as far.
   */
  lemma HeaderAtComplete(s: string, p: nat, m: Match)
    requires p <= |s| && IsMatchAt(s, p, m)
    ensures HeaderAt(s, p).Some?
    ensures HeaderAt(s, p).value.captureEnd == m.captureEnd
    ensures m.end <= HeaderAt(s, p).value.end
  {
    var d := m.captureEnd;
    HeaderAtVersion(s, p, d);
    assert m.end <= RegexSpacesFrom(s, d);
  }

  /** The two dots of the version `s[a..d]` and the digits between them. */
  lemma VersionDots(s: string, a: nat, d: nat) returns (i: nat, j: nat)
    requires a <= d <= |s| && IsVersion(s[a..d])
    ensures a < i && i + 1 < j && j + 1 < d && s[i] == '.' && s[j] == '.'
    ensures forall k :: a <= k < i ==> IsDigit(s[k])
    ensures forall k :: i + 1 <= k < j ==> IsDigit(s[k])
    ensures forall k :: j + 1 <= k < d ==> IsDigit(s[k])
  {
    var v := s[a..d];
    var x, y :| 0 < x < y < |v| && SplitsAt(v, x, y);
    i, j := a + x, a + y;
    assert forall k :: a <= k < d ==> s[k] == v[k - a];
  }

  /** Where the expression matches nowhere, the search finds nothing. */
  lemma {:induction false} NoMatchesFrom(s: string, pos: nat)
    requires pos <= |s|
    requires forall q :: pos <= q <= |s| ==> HeaderAt(s, q).None?
    ensures MatchesFrom(s, pos) == []
    decreases |s| - pos
  {
    MatchesFromMiss(s, pos);
    if pos < |s| {
      NoMatchesFrom(s, pos + 1);
    }
  }

  /** A match starts with '#', on a line of its own. */
  lemma HeaderStartsWithHash(s: string, q: nat)
    requires q <= |s| && HeaderAt(s, q).Some?
    ensures q < |s| && s[q] == '#' && LineStart(s, q)
  {
    HeaderAtSound(s, q);
    assert s[q..q + 3][0] == s[q];
  }

  /**
   * A line that continues after its version with anything but `\s` before the
   * line ends is not a header: `$` cannot hold anywhere after the version.
   */
  lemma TextAfterVersionNoHeader(s: string, p: nat, d: nat, t: nat)
    requires p + 3 < d <= t < |s| && LineStart(s, p) && s[p..p + 3] == "## "
    requires IsVersion(s[p + 3..d]) && !IsDigit(s[d])
    requires forall k :: d <= k < t ==> s[k] != '\n'
    requires !IsRegexSpace(s[t])
    ensures HeaderAt(s, p).None?
  {
    HeaderAtVersion(s, p, d);
    if HeaderAt(s, p).Some? {
      HeaderAtSound(s, p);
    }
  }

  /** A fourth version part leaves the line without a match. */
  lemma FourPartsNoHeader()
    ensures HeaderAt("## 1.2.3.4", 0).None?
  {
    var s := "## 1.2.3.4";
    DigitsFromIs(s, 3, 4);
    DigitsFromIs(s, 5, 6);
    DigitsFromIs(s, 7, 8);
    RegexSpacesFromIs(s, 8, 8);
    assert LastLineEnd(s, 8, 8).None?;
  }

  /** Text after the version leaves the line without a match. */
  lemma TrailingTextNoHeader()
    ensures HeaderAt("## 1.2.3 foo", 0).None?
  {
    var s := "## 1.2.3 foo";
    DigitsFromIs(s, 3, 4);
    DigitsFromIs(s, 5, 6);
    DigitsFromIs(s, 7, 8);
    RegexSpacesFromIs(s, 8, 9);
    assert LastLineEnd(s, 8, 9).None?;
  }

  /** Trailing spaces belong to the match, which ends where the line ends. */
  lemma TrailingSpacesHeader()
    ensures HeaderAt("## 1.2.3  \n- a", 0) == Some(Match(0, 3, 8, 10))
  {
    var s := "## 1.2.3  \n- a";
    DigitsFromIs(s, 3, 4);
    DigitsFromIs(s, 5, 6);
    DigitsFromIs(s, 7, 8);
    RegexSpacesFromIs(s, 8, 11);
    assert LastLineEnd(s, 8, 11) == Some(10);
  }
}
