/** The conventional Some/None datatype. */
module Wrappers {
  datatype Option<+T> = None | Some(value: T)
}

/**
 * The pieces of Go's `strings` package that the changelog pipeline uses:
 * `strings.Split` on "\n", `strings.TrimSpace` and the "- " prefix tests.
 * Strings are sequences of Unicode code points.
 */
module Text {

  /** Go's `unicode.IsSpace`: the characters `strings.TrimSpace` removes. */
  predicate IsSpace(c: char) {
    c == '\t' || c == '\n' || c == '\U{B}' || c == '\U{C}' || c == '\r' || c == ' '
    || c == '\U{85}' || c == '\U{A0}' || c == '\U{1680}'
    || ('\U{2000}' <= c <= '\U{200A}')
    || c == '\U{2028}' || c == '\U{2029}' || c == '\U{202F}' || c == '\U{205F}' || c == '\U{3000}'
  }

  predicate AllSpace(s: string) {
    forall k :: 0 <= k < |s| ==> IsSpace(s[k])
  }

  /** Index of the first '\n' at or after `from`, or `|s|` when there is none. */
  function NewlineFrom(s: string, from: nat): (i: nat)
    requires from <= |s|
    ensures from <= i <= |s|
    decreases |s| - from
  {
    if from == |s| || s[from] == '\n' then from else NewlineFrom(s, from + 1)
  }

  /** `NewlineFrom` stops at a newline, or at the end, and skips none. */
  lemma {:induction false} NewlineFromShape(s: string, from: nat)
    requires from <= |s|
    ensures var i := NewlineFrom(s, from); (i < |s| ==> s[i] == '\n') && forall k :: from <= k < i ==> s[k] != '\n'
    decreases |s| - from
  {
    if from < |s| && s[from] != '\n' {
      NewlineFromShape(s, from + 1);
    }
  }

  /** `NewlineFrom` is determined by where the first newline is. */
  lemma {:induction false} NewlineFromIs(s: string, from: nat, i: nat)
    requires from <= i <= |s|
    requires i < |s| ==> s[i] == '\n'
    requires forall k :: from <= k < i ==> s[k] != '\n'
    ensures NewlineFrom(s, from) == i
    decreases i - from
  {
    if from < i {
      NewlineFromIs(s, from + 1, i);
    }
  }

  /** `strings.Split(s, "\n")`: the pieces between newlines, at least one. */
  function Split(s: string): (lines: seq<string>)
    ensures |lines| >= 1
    decreases |s|
  {
    var i := NewlineFrom(s, 0);
    if i == |s| then [s] else [s[..i]] + Split(s[i + 1..])
  }

  /** No line of `Split` holds a newline. */
  lemma {:induction false} SplitLines(s: string)
    ensures forall k :: 0 <= k < |Split(s)| ==> '\n' !in Split(s)[k]
    decreases |s|
  {
    var i := NewlineFrom(s, 0);
    NewlineFromShape(s, 0);
    if i < |s| {
      SplitLines(s[i + 1..]);
      assert '\n' !in s[..i];
    }
  }

  /** The inverse of `Split`: the lines glued back with "\n" between them. */
  function Join(lines: seq<string>): string
    requires |lines| >= 1
  {
    if |lines| == 1 then lines[0] else lines[0] + "\n" + Join(lines[1..])
  }

  /** Splitting the two sides of a newline separately and concatenating. */
  lemma {:induction false} SplitAround(a: string, b: string)
    ensures Split(a + "\n" + b) == Split(a) + Split(b)
    decreases |a|
  {
    var s := a + "\n" + b;
    var i := NewlineFrom(a, 0);
    NewlineFromShape(a, 0);
    assert s[..|a|] == a;
    assert s[|a| + 1..] == b;
    NewlineFromIs(s, 0, i);
    if i == |a| {
      assert Split(a) == [a];
    } else {
      assert s[..i] == a[..i];
      assert s[i + 1..] == a[i + 1..] + "\n" + b;
      SplitAround(a[i + 1..], b);
    }
  }

  /** Two lines without a newline, then the rest. */
  lemma TwoLinesThen(a: string, r: string, b: string)
    requires '\n' !in a && '\n' !in r
    ensures Split(a + "\n" + (r + "\n" + b)) == [a, r] + Split(b)
  {
    SplitAround(a, r + "\n" + b);
    SplitAround(r, b);
    NoNewlineSplit(a);
    NoNewlineSplit(r);
  }

  /** `Split` loses nothing: joining its lines gives the text back. */
  lemma {:induction false} JoinSplit(s: string)
    ensures Join(Split(s)) == s
    decreases |s|
  {
    var i := NewlineFrom(s, 0);
    NewlineFromShape(s, 0);
    if i < |s| {
      JoinSplit(s[i + 1..]);
      assert s == s[..i] + "\n" + s[i + 1..];
    }
  }

  /** `Split` undoes `Join` for lines that hold no newline. */
  lemma {:induction false} SplitJoin(lines: seq<string>)
    requires |lines| >= 1
    requires forall k :: 0 <= k < |lines| ==> '\n' !in lines[k]
    ensures Split(Join(lines)) == lines
    decreases |lines|
  {
    if |lines| == 1 {
      NoNewlineSplit(lines[0]);
    } else {
      SplitJoin(lines[1..]);
      SplitAround(lines[0], Join(lines[1..]));
      NoNewlineSplit(lines[0]);
    }
  }

  /** Two pieces without a newline make one line. */
  lemma OneLine(a: string, b: string)
    requires '\n' !in a && '\n' !in b
    ensures '\n' !in a + b
  {
    assert forall k :: 0 <= k < |a + b| ==> (a + b)[k] == (if k < |a| then a[k] else b[k - |a|]);
  }

  lemma NoNewlineSplit(s: string)
    requires '\n' !in s
    ensures Split(s) == [s]
  {
    NewlineFromIs(s, 0, |s|);
  }

  /** Index of the first non-space at or after `from`, or `|s|`. */
  function SpacesFrom(s: string, from: nat): (i: nat)
    requires from <= |s|
    ensures from <= i <= |s|
    decreases |s| - from
  {
    if from == |s| || !IsSpace(s[from]) then from else SpacesFrom(s, from + 1)
  }

  lemma {:induction false} SpacesFromShape(s: string, from: nat)
    requires from <= |s|
    ensures var i := SpacesFrom(s, from); (i < |s| ==> !IsSpace(s[i])) && forall k :: from <= k < i ==> IsSpace(s[k])
    decreases |s| - from
  {
    if from < |s| && IsSpace(s[from]) {
      SpacesFromShape(s, from + 1);
    }
  }

  /** Index just past the last non-space at or after `lo`, or `lo`. */
  function SpacesBack(s: string, lo: nat, hi: nat): (j: nat)
    requires lo <= hi <= |s|
    ensures lo <= j <= hi
    decreases hi - lo
  {
    if hi == lo || !IsSpace(s[hi - 1]) then hi else SpacesBack(s, lo, hi - 1)
  }

  lemma {:induction false} SpacesBackShape(s: string, lo: nat, hi: nat)
    requires lo <= hi <= |s|
    ensures var j := SpacesBack(s, lo, hi); (j > lo ==> !IsSpace(s[j - 1])) && forall k :: j <= k < hi ==> IsSpace(s[k])
    decreases hi - lo
  {
    if hi > lo && IsSpace(s[hi - 1]) {
      SpacesBackShape(s, lo, hi - 1);
    }
  }

  /** `strings.TrimSpace`: the piece of `s` between its leading and its trailing spaces. */
  function TrimSpace(s: string): string {
    var i := SpacesFrom(s, 0);
    s[i..SpacesBack(s, i, |s|)]
  }

  /**
   * What `TrimSpace` leaves neither starts nor ends with a space, it is a
   * piece of `s`, and only spaces were cut away on either side.
   */
  lemma TrimSpaceShape(s: string)
    ensures var r := TrimSpace(s); r == [] || (!IsSpace(r[0]) && !IsSpace(r[|r| - 1]))
    ensures var i := SpacesFrom(s, 0); i + |TrimSpace(s)| <= |s| && TrimSpace(s) == s[i..i + |TrimSpace(s)|]
    ensures forall k :: 0 <= k < SpacesFrom(s, 0) ==> IsSpace(s[k])
    ensures forall k :: SpacesFrom(s, 0) + |TrimSpace(s)| <= k < |s| ==> IsSpace(s[k])
  {
    SpacesFromShape(s, 0);
    SpacesBackShape(s, SpacesFrom(s, 0), |s|);
  }

  /** Every character left by `TrimSpace` was in the input. */
  lemma TrimSpaceInside(s: string, c: char)
    requires c in TrimSpace(s)
    ensures c in s
  {
    var r := TrimSpace(s);
    var i := SpacesFrom(s, 0);
    TrimSpaceShape(s);
    var k :| 0 <= k < |r| && r[k] == c;
    assert s[i + k] == c;
  }

  /** `TrimSpace` leaves alone a text that neither starts nor ends with a space. */
  lemma TrimSpaceKeeps(s: string)
    requires s == [] || (!IsSpace(s[0]) && !IsSpace(s[|s| - 1]))
    ensures TrimSpace(s) == s
  {
    if s != [] {
      assert SpacesFrom(s, 0) == 0;
      assert SpacesBack(s, 0, |s|) == |s|;
    }
  }

  /** `TrimSpace` of a text made only of spaces is empty. */
  lemma TrimSpaceAllSpace(s: string)
    requires AllSpace(s)
    ensures TrimSpace(s) == []
  {
    TrimSpaceShape(s);
  }

  /** `strings.HasPrefix(s, "- ")`. */
  predicate HasDashPrefix(s: string) {
    |s| >= 2 && s[..2] == "- "
  }
}
