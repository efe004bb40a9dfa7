/**
 * `parseChangelog` and `parseChanges` of main.go: the changelog document is cut
 * at every version header, and each piece keeps its "- " bullet lines.
 */
module Parser {
  import opened Text
  import opened Header
  import opened Wrappers

  /** `ChangelogEntry`: one version of the changelog and its change lines. */
  datatype Entry = Entry(version: string, changes: seq<string>)

  /** What `parseChanges` keeps of one line: the trimmed line minus its "- " marker. */
  function BulletOf(line: string): seq<string> {
    var trimmed := TrimSpace(line);
    if HasDashPrefix(trimmed) then [trimmed[2..]] else []
  }

  /** The change lines of a list of lines, in order. */
  function Bullets(lines: seq<string>): seq<string>
    decreases |lines|
  {
    if lines == [] then [] else Bullets(lines[..|lines| - 1]) + BulletOf(lines[|lines| - 1])
  }

  /**
   * The shape of every change `parseChanges` yields from a line without '\n':
   * non-empty, on one line, and not ending in a space.
   */
  predicate IsChange(c: string) {
    |c| > 0 && '\n' !in c && !IsSpace(c[|c| - 1])
  }

  /** `parseChanges`: split on "\n", trim, keep the lines that start with "- ". */
  method ParseChanges(content: string) returns (changes: seq<string>)
    ensures changes == Bullets(Split(content))
  {
    var lines := Split(content);
    changes := [];
    for i := 0 to |lines|
      invariant changes == Bullets(lines[..i])
    {
      var trimmed := TrimSpace(lines[i]);
      if HasDashPrefix(trimmed) {
        changes := changes + [trimmed[2..]];
      }
      assert lines[..i + 1][..i] == lines[..i];
    }
    assert lines[..|lines|] == lines;
  }

  /** Where the text of header `i` stops: at the next header, or at the end. */
  function SpanEnd(s: string, ms: seq<Match>, i: nat): nat
    requires i < |ms|
  {
    if i + 1 < |ms| then ms[i + 1].start else |s|
  }

  /** The entry header `i` of `ms` yields: its version and the changes up to the next header. */
  function EntryAt(s: string, ms: seq<Match>, i: nat): Entry
    requires Placed(s, ms) && i < |ms|
  {
    Entry(s[ms[i].captureStart..ms[i].captureEnd], Bullets(Split(s[ms[i].end..SpanEnd(s, ms, i)])))
  }

  /** The entries of the first `n` headers of `ms`. */
  function EntriesOf(s: string, ms: seq<Match>, n: nat): (r: seq<Entry>)
    requires Placed(s, ms) && n <= |ms|
    ensures |r| == n
    ensures forall k :: 0 <= k < n ==> r[k] == EntryAt(s, ms, k)
  {
    if n == 0 then [] else EntriesOf(s, ms, n - 1) + [EntryAt(s, ms, n - 1)]
  }

  /** What `parseChangelog` returns: one entry per header match, in document order. */
  function Changelog(s: string): seq<Entry> {
    EntriesOf(s, FindHeaders(s), |FindHeaders(s)|)
  }

  /** `parseChangelog`. */
  method ParseChangelog(content: string) returns (entries: seq<Entry>)
    ensures entries == Changelog(content)
  {
    var matches := FindHeaders(content);
    entries := [];
    for i := 0 to |matches|
      invariant entries == EntriesOf(content, matches, i)
    {
      var m := matches[i];
      var version := content[m.captureStart..m.captureEnd];
      var contentEnd;
      if i + 1 < |matches| {
        contentEnd := matches[i + 1].start;
      } else {
        contentEnd := |content|;
      }
      var changes := ParseChanges(content[m.end..contentEnd]);
      assert Entry(version, changes) == EntryAt(content, matches, i);
      entries := entries + [Entry(version, changes)];
    }
  }

  lemma {:induction false} BulletsConcat(a: seq<string>, b: seq<string>)
    ensures Bullets(a + b) == Bullets(a) + Bullets(b)
    decreases |b|
  {
    if b == [] {
      assert a + b == a;
    } else {
      var b' := b[..|b| - 1];
      assert (a + b)[..|a + b| - 1] == a + b';
      BulletsConcat(a, b');
    }
  }

  /** `parseChanges` keeps at most one change per line. */
  lemma {:induction false} BulletsBound(lines: seq<string>)
    ensures |Bullets(lines)| <= |lines|
    decreases |lines|
  {
    if lines != [] {
      BulletsBound(lines[..|lines| - 1]);
    }
  }

  /** A kept line is "- " followed by its change, once trimmed, and the change is well formed. */
  lemma BulletOfShape(line: string)
    requires '\n' !in line
    ensures forall c :: c in BulletOf(line) ==> TrimSpace(line) == "- " + c && IsChange(c)
  {
    var t := TrimSpace(line);
    TrimSpaceShape(line);
    if HasDashPrefix(t) {
      var c := t[2..];
      assert t == "- " + c;
      assert IsSpace(t[1]);
      assert |t| > 2;
      if '\n' in c {
        TrimSpaceInside(line, '\n');
      }
    }
  }

  /**
   * Bullet shape: every change taken from lines without '\n' is the trimmed
   * form of one of those lines minus "- ", and is a well-formed change.
   */
  lemma {:induction false} BulletsShape(lines: seq<string>)
    requires forall k :: 0 <= k < |lines| ==> '\n' !in lines[k]
    ensures forall c :: c in Bullets(lines) ==>
      IsChange(c) && exists j :: 0 <= j < |lines| && TrimSpace(lines[j]) == "- " + c
    decreases |lines|
  {
    if lines != [] {
      var init := lines[..|lines| - 1];
      var last := lines[|lines| - 1];
      BulletsShape(init);
      BulletOfShape(last);
      forall c | c in Bullets(lines)
        ensures IsChange(c) && exists j :: 0 <= j < |lines| && TrimSpace(lines[j]) == "- " + c
      {
        if c in Bullets(init) {
          var j :| 0 <= j < |init| && TrimSpace(init[j]) == "- " + c;
          assert lines[j] == init[j];
        } else {
          assert c in BulletOf(last);
          assert TrimSpace(lines[|lines| - 1]) == "- " + c;
        }
      }
    }
  }

  /** An empty line holds no change. */
  lemma BulletsEmptyLine()
    ensures Bullets([""]) == []
  {
    TrimSpaceAllSpace("");
    assert Bullets([""]) == Bullets([]) + BulletOf("");
  }

  /** Only the marker "- " is cut: a second space after the dash stays in the change. */
  lemma LeadingSpaceKept()
    ensures Bullets(["-  foo"]) == [" foo"]
  {
    TrimSpaceKeeps("-  foo");
    assert Bullets(["-  foo"]) == Bullets([]) + BulletOf("-  foo");
  }

  /** Lines made only of spaces hold no change. */
  lemma {:induction false} BlankTextNoBullets(w: string)
    requires AllSpace(w)
    ensures Bullets(Split(w)) == []
    decreases |w|
  {
    var i := NewlineFrom(w, 0);
    TrimSpaceAllSpace(w[..i]);
    assert BulletOf(w[..i]) == [];
    assert Bullets([w[..i]]) == Bullets([]) + BulletOf(w[..i]);
    if i < |w| {
      assert Split(w) == [w[..i]] + Split(w[i + 1..]);
      BlankTextNoBullets(w[i + 1..]);
      BulletsConcat([w[..i]], Split(w[i + 1..]));
    } else {
      assert w[..i] == w;
    }
  }

  /**
   * Entry count, order and version format: there is one entry per match of the
   * header expression, matches are exactly the places where the expression
   * matches, they come in document order without overlapping, and every
   * version is the captured `digits.digits.digits` text after "## ".
   */
  lemma EntriesAreHeaders(s: string)
    ensures |Changelog(s)| == |FindHeaders(s)|
    ensures forall q :: 0 <= q <= |s| ==>
      (HeaderAt(s, q).Some? <==> exists k :: 0 <= k < |FindHeaders(s)| && FindHeaders(s)[k].start == q)
    ensures forall k, l :: 0 <= k < l < |FindHeaders(s)| ==> FindHeaders(s)[k].end < FindHeaders(s)[l].start
    ensures forall k :: 0 <= k < |Changelog(s)| ==>
      var m := FindHeaders(s)[k];
      s[m.start..m.captureStart] == "## " && Changelog(s)[k].version == s[m.captureStart..m.captureEnd]
      && IsVersion(Changelog(s)[k].version)
  {
    HeadersExactly(s);
    var ms := FindHeaders(s);
    forall k | 0 <= k < |ms|
      ensures s[ms[k].start..ms[k].captureStart] == "## " && Changelog(s)[k].version == s[ms[k].captureStart..ms[k].captureEnd]
      ensures IsVersion(Changelog(s)[k].version)
    {
      EntryVersion(s, k);
    }
  }

  /** Entry `k` carries the version captured by header `k`, right after its "## ". */
  lemma EntryVersion(s: string, k: nat)
    requires k < |FindHeaders(s)|
    ensures var m := FindHeaders(s)[k];
      s[m.start..m.captureStart] == "## " && Changelog(s)[k].version == s[m.captureStart..m.captureEnd]
      && IsVersion(Changelog(s)[k].version)
  {
    var ms := FindHeaders(s);
    MatchesFromSound(s, 0);
    assert HeaderAt(s, ms[k].start) == Some(ms[k]);
    HeaderAtSound(s, ms[k].start);
  }

  /** A document with no header line has no entries, and conversely. */
  lemma NoHeadersNoEntries(s: string)
    ensures Changelog(s) == [] <==> forall q :: 0 <= q <= |s| ==> HeaderAt(s, q).None?
  {
    HeadersExactly(s);
    MatchesFromSound(s, 0);
    if Changelog(s) != [] {
      assert HeaderAt(s, FindHeaders(s)[0].start).Some?;
    }
  }

  /**
   * Every change of every entry is well formed, comes from one trimmed "- "
   * line of the entry's text, and there are no more changes than lines.
   */
  lemma ChangesWellFormed(s: string, k: nat)
    requires k < |Changelog(s)|
    ensures var ms := FindHeaders(s); var lines := Split(s[ms[k].end..SpanEnd(s, ms, k)]);
      |Changelog(s)[k].changes| <= |lines|
      && forall c :: c in Changelog(s)[k].changes ==>
        IsChange(c) && exists j :: 0 <= j < |lines| && TrimSpace(lines[j]) == "- " + c
  {
    var ms := FindHeaders(s);
    var lines := Split(s[ms[k].end..SpanEnd(s, ms, k)]);
    SplitLines(s[ms[k].end..SpanEnd(s, ms, k)]);
    BulletsShape(lines);
    BulletsBound(lines);
  }

  /**
   * Changes per entry: entry `k` holds the "- " lines of the text from the end
   * of its header line up to the next header (or the end of the document). The
   * blank lines the greedy `\s*` of the expression swallows change nothing.
   */
  lemma ChangesFromHeaderLine(s: string, k: nat)
    requires k < |Changelog(s)|
    ensures var ms := FindHeaders(s);
      var e := NewlineFrom(s, ms[k].start);
      ms[k].captureEnd <= e <= ms[k].end
      && Changelog(s)[k].changes == Bullets(Split(s[e..SpanEnd(s, ms, k)]))
  {
    var ms := FindHeaders(s);
    var m := ms[k];
    var q := SpanEnd(s, ms, k);
    var e := NewlineFrom(s, m.start);
    MatchesFromSound(s, 0);
    assert HeaderAt(s, m.start) == Some(m);
    HeaderAtSound(s, m.start);
    NewlineFromShape(s, m.start);
    assert e >= m.captureEnd;
    assert e <= m.end;
    assert forall j :: e <= j < m.end ==> IsSpace(s[j]) by {
      forall j | e <= j < m.end ensures IsSpace(s[j]) {
        assert IsRegexSpace(s[j]);
      }
    }
    assert m.end < q ==> s[m.end] == '\n';
    SwallowedBlanks(s, e, m.end, q);
  }

  /** Blank text in front of a '\n' (or of nothing) adds no change. */
  lemma SwallowedBlanks(s: string, e: nat, mid: nat, q: nat)
    requires e <= mid <= q <= |s|
    requires forall j :: e <= j < mid ==> IsSpace(s[j])
    requires mid < q ==> s[mid] == '\n'
    ensures Bullets(Split(s[e..q])) == Bullets(Split(s[mid..q]))
  {
    var w := s[e..mid];
    assert AllSpace(w) by {
      forall j | 0 <= j < |w| ensures IsSpace(w[j]) {
        assert w[j] == s[e + j];
      }
    }
    if mid < q {
      var r := s[mid + 1..q];
      assert s[e..q] == w + "\n" + r;
      assert s[mid..q] == "\n" + r;
      BlankBeforeNewline(w, r);
    } else {
      assert s[e..q] == w;
      assert s[mid..q] == "";
      BlankTextNoBullets(w);
      BlankTextNoBullets("");
    }
  }

  lemma BlankBeforeNewline(w: string, r: string)
    requires AllSpace(w)
    ensures Bullets(Split(w + "\n" + r)) == Bullets(Split("\n" + r))
  {
    assert "\n" + r == "" + "\n" + r;
    SplitAround(w, r);
    SplitAround("", r);
    BlankTextNoBullets(w);
    BlankTextNoBullets("");
    BulletsConcat(Split(w), Split(r));
    BulletsConcat(Split(""), Split(r));
  }
}
