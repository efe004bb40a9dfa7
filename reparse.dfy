/**
 * What the rendered text says about the entry it came from: the markdown of
 * `outputMarkdown` parses back to the same entry, and the plain-text and list
 * outputs are, line by line, the version and the changes.
 */
module Reparse {
  import opened Wrappers
  import opened Text
  import opened Header
  import opened Parser
  import opened Render

  /** A version is digits and dots only, so it never holds a '\n'. */
  lemma VersionOneLine(v: string)
    requires IsVersion(v)
    ensures '\n' !in v
  {
    var i, j :| 0 < i < j < |v| && SplitsAt(v, i, j);
  }

  /** Every line of a block starts with the first character of its prefix. */
  lemma {:induction false} LineHeads(prefix: string, lines: seq<string>, q: nat)
    requires |prefix| > 0 && '\n' !in prefix
    requires forall i :: 0 <= i < |lines| ==> '\n' !in lines[i]
    requires q < |LinesOf(prefix, lines)|
    requires q == 0 || LinesOf(prefix, lines)[q - 1] == '\n'
    ensures LinesOf(prefix, lines)[q] == prefix[0]
    decreases |lines|
  {
    var b := LinesOf(prefix, lines);
    var first := prefix + lines[0];
    var rest := LinesOf(prefix, lines[1..]);
    assert b == first + "\n" + rest;
    if q > |first| {
      assert b[q] == rest[q - |first| - 1];
      if q > |first| + 1 {
        assert b[q - 1] == rest[q - |first| - 2];
      }
      LineHeads(prefix, lines[1..], q - |first| - 1);
    }
  }

  /** `parseChanges` gives back exactly the changes put behind "- ". */
  lemma {:induction false} BulletsOfPrefixed(cs: seq<string>)
    requires forall i :: 0 <= i < |cs| ==> IsChange(cs[i])
    ensures Bullets(Prefixed("- ", cs)) == cs
    decreases |cs|
  {
    if cs != [] {
      BulletsOfPrefixed(cs[1..]);
      BulletsConcat(["- " + cs[0]], Prefixed("- ", cs[1..]));
      DashLine(cs[0]);
      assert cs == [cs[0]] + cs[1..];
    }
  }

  /** The line `outputMarkdown` prints for a change holds exactly that change. */
  lemma DashLine(c: string)
    requires IsChange(c)
    ensures Bullets(["- " + c]) == [c]
  {
    var line := "- " + c;
    TrimSpaceKeeps(line);
    assert line[2..] == c;
    assert Bullets([line]) == Bullets([]) + BulletOf(line);
  }

  /** The markdown of an entry, parsed, has no header but the first. */
  lemma NoLaterHeader(e: Entry, q: nat)
    requires IsVersion(e.version)
    requires forall i :: 0 <= i < |e.changes| ==> '\n' !in e.changes[i]
    requires |e.version| + 4 <= q <= |Markdown(e)|
    ensures HeaderAt(Markdown(e), q).None?
  {
    var s := Markdown(e);
    var n := |e.version|;
    var b := LinesOf("- ", e.changes);
    assert s == "## " + e.version + "\n\n" + b;
    if HeaderAt(s, q).Some? {
      HeaderStartsWithHash(s, q);
      if q >= n + 5 {
        assert s[q] == b[q - n - 5];
        if q > n + 5 {
          assert s[q - 1] == b[q - n - 6];
        }
        LineHeads("- ", e.changes, q - n - 5);
      }
      assert false;
    }
  }

  /** Where the header match of the markdown of an entry ends. */
  function MarkdownHeaderEnd(e: Entry): nat {
    if e.changes == [] then |Markdown(e)| else |e.version| + 4
  }

  /** The markdown of an entry starts with a match of the header expression. */
  lemma MarkdownFirstHeader(e: Entry)
    requires IsVersion(e.version)
    ensures HeaderAt(Markdown(e), 0) == Some(Match(0, 3, |e.version| + 3, MarkdownHeaderEnd(e)))
  {
    var s := Markdown(e);
    var n := |e.version|;
    var b := LinesOf("- ", e.changes);
    assert s == "## " + e.version + "\n\n" + b;
    assert s[..3] == "## " && s[3..n + 3] == e.version && s[n + 3] == '\n' && s[n + 4] == '\n';
    if e.changes != [] {
      assert s[n + 5] == b[0] == '-';
    }
    HeaderOverBlankLine(s, n);
  }

  /**
   * "## ", a version and a blank line: the header match runs to the end of
   * the blank line, or to the end of the text when nothing follows it.
   */
  lemma HeaderOverBlankLine(s: string, n: nat)
    requires n + 5 <= |s| && s[..3] == "## " && IsVersion(s[3..n + 3])
    requires s[n + 3] == '\n' && s[n + 4] == '\n' && (n + 5 < |s| ==> s[n + 5] == '-')
    ensures HeaderAt(s, 0) == Some(Match(0, 3, n + 3, if n + 5 == |s| then |s| else n + 4))
  {
    assert s[0..3] == s[..3];
    HeaderAtVersion(s, 0, n + 3);
    RegexSpacesFromIs(s, n + 3, n + 5);
    if n + 5 == |s| {
      assert LastLineEnd(s, n + 3, n + 5) == Some(n + 5);
    } else {
      assert LastLineEnd(s, n + 3, n + 5) == Some(n + 4);
    }
  }

  /** The one header of the markdown of an entry. */
  lemma MarkdownHeader(e: Entry)
    requires IsVersion(e.version)
    requires forall i :: 0 <= i < |e.changes| ==> '\n' !in e.changes[i]
    ensures FindHeaders(Markdown(e)) == [Match(0, 3, |e.version| + 3, MarkdownHeaderEnd(e))]
  {
    var s := Markdown(e);
    var end := MarkdownHeaderEnd(e);
    MarkdownFirstHeader(e);
    forall q | end <= q <= |s| ensures HeaderAt(s, q).None? {
      NoLaterHeader(e, q);
    }
    NoMatchesFrom(s, end);
    MatchesFromHit(s, 0);
  }

  /** A leading '\n' puts an empty line in front, which holds no change. */
  lemma BulletsAfterNewline(r: string)
    ensures Bullets(Split("\n" + r)) == Bullets(Split(r))
  {
    assert "\n" + r == "" + "\n" + r;
    SplitAround("", r);
    NoNewlineSplit("");
    BulletsConcat([""], Split(r));
    BulletsEmptyLine();
  }

  /** The changes of a block of "- " lines are the changes it was printed from. */
  lemma BlockBullets(cs: seq<string>)
    requires forall i :: 0 <= i < |cs| ==> IsChange(cs[i])
    ensures Bullets(Split(LinesOf("- ", cs))) == cs
  {
    assert forall i :: 0 <= i < |cs| ==> '\n' !in cs[i];
    SplitLinesOf("- ", cs);
    BulletsOfBlockLines(cs);
  }

  /** The empty piece after the last '\n' adds no change. */
  lemma BulletsOfBlockLines(cs: seq<string>)
    requires forall i :: 0 <= i < |cs| ==> IsChange(cs[i])
    ensures Bullets(Prefixed("- ", cs) + [""]) == cs
  {
    BulletsConcat(Prefixed("- ", cs), [""]);
    BulletsEmptyLine();
    BulletsOfPrefixed(cs);
  }

  /** The text after the header match of the markdown of an entry holds exactly its changes. */
  lemma MarkdownBody(e: Entry)
    requires forall i :: 0 <= i < |e.changes| ==> IsChange(e.changes[i])
    ensures Bullets(Split(Markdown(e)[MarkdownHeaderEnd(e)..])) == e.changes
  {
    var s := Markdown(e);
    var b := LinesOf("- ", e.changes);
    assert s == "## " + e.version + "\n\n" + b;
    if e.changes == [] {
      assert s[MarkdownHeaderEnd(e)..] == "";
      NoNewlineSplit("");
      BulletsEmptyLine();
    } else {
      assert s[MarkdownHeaderEnd(e)..] == "\n" + b;
      BulletsAfterNewline(b);
      BlockBullets(e.changes);
    }
  }

  /**
   * Markdown round-trip: for a version of the header form and well-formed
   * changes, parsing what `outputMarkdown` prints yields that one entry.
   */
  lemma MarkdownRoundTrip(e: Entry)
    requires IsVersion(e.version)
    requires forall i :: 0 <= i < |e.changes| ==> IsChange(e.changes[i])
    ensures Changelog(Markdown(e)) == [e]
  {
    assert forall i :: 0 <= i < |e.changes| ==> '\n' !in e.changes[i];
    MarkdownHeader(e);
    MarkdownVersion(e);
    MarkdownBody(e);
    SingleEntry(Markdown(e), e, MarkdownHeaderEnd(e));
  }

  /** A text with one header match, whose version and body are those of `e`, parses to `e`. */
  lemma SingleEntry(s: string, e: Entry, end: nat)
    requires |e.version| + 3 <= end <= |s|
    requires FindHeaders(s) == [Match(0, 3, |e.version| + 3, end)]
    requires s[3..|e.version| + 3] == e.version
    requires Bullets(Split(s[end..])) == e.changes
    ensures Changelog(s) == [e]
  {
    var ms := FindHeaders(s);
    assert SpanEnd(s, ms, 0) == |s|;
    assert s[end..|s|] == s[end..];
    assert EntryAt(s, ms, 0) == Entry(s[3..|e.version| + 3], Bullets(Split(s[end..|s|])));
  }

  /** The markdown of an entry carries its version right after "## ". */
  lemma MarkdownVersion(e: Entry)
    ensures |e.version| + 3 <= |Markdown(e)| && Markdown(e)[3..|e.version| + 3] == e.version
  {
    assert Markdown(e) == "## " + e.version + ("\n\n" + LinesOf("- ", e.changes));
  }

  /** Every entry the parser produces survives rendering as markdown and parsing again. */
  lemma ParsedEntryRoundTrip(s: string, k: nat)
    requires k < |Changelog(s)|
    ensures Changelog(Markdown(Changelog(s)[k])) == [Changelog(s)[k]]
  {
    EntriesAreHeaders(s);
    ChangesWellFormed(s, k);
    MarkdownRoundTrip(Changelog(s)[k]);
  }

  /**
   * The lines of the plain-text output: the title, the 40-dash rule, one
   * "  * " line per change in order, and nothing after the last '\n'.
   */
  lemma PlainTextLines(e: Entry)
    requires '\n' !in e.version
    requires forall i :: 0 <= i < |e.changes| ==> '\n' !in e.changes[i]
    ensures Split(PlainText(e)) == ["Claude Code " + e.version, Rule()] + Prefixed("  * ", e.changes) + [""]
  {
    var title := "Claude Code " + e.version;
    var rule := Rule();
    var b := LinesOf("  * ", e.changes);
    assert PlainText(e) == title + "\n" + (rule + "\n" + b);
    OneLine("Claude Code ", e.version);
    RuleShape();
    TwoLinesThen(title, rule, b);
    SplitLinesOf("  * ", e.changes);
  }

  /** The plain text of a parsed entry has one line per change, after the title and the rule. */
  lemma ParsedPlainTextLines(s: string, k: nat)
    requires k < |Changelog(s)|
    ensures Split(PlainText(Changelog(s)[k])) ==
      ["Claude Code " + Changelog(s)[k].version, Rule()] + Prefixed("  * ", Changelog(s)[k].changes) + [""]
  {
    var e := Changelog(s)[k];
    EntryVersion(s, k);
    VersionOneLine(e.version);
    ChangesWellFormed(s, k);
    assert forall i :: 0 <= i < |e.changes| ==> '\n' !in e.changes[i] by {
      forall i | 0 <= i < |e.changes| ensures '\n' !in e.changes[i] {
        assert IsChange(e.changes[i]);
      }
    }
    PlainTextLines(e);
  }

  lemma RuleShape()
    ensures |Rule()| == 40 && forall k :: 0 <= k < 40 ==> Rule()[k] == '-'
    ensures '\n' !in Rule()
  {
  }

  /** The lines of list mode: every version, in entry order. */
  lemma VersionListLines(entries: seq<Entry>)
    requires forall i :: 0 <= i < |entries| ==> '\n' !in entries[i].version
    ensures Split(VersionList(entries)) == Versions(entries) + [""]
  {
    var vs := Versions(entries);
    forall i | 0 <= i < |vs| ensures '\n' !in vs[i] {
      VersionsAt(entries, i);
    }
    SplitLinesOf("", vs);
    PrefixedEmpty(vs);
  }

  /** List mode on a parsed changelog prints its versions, one per line, in document order. */
  lemma ParsedVersionListLines(s: string)
    ensures Split(VersionList(Changelog(s))) == Versions(Changelog(s)) + [""]
  {
    EntriesAreHeaders(s);
    forall i | 0 <= i < |Changelog(s)| ensures '\n' !in Changelog(s)[i].version {
      VersionOneLine(Changelog(s)[i].version);
    }
    VersionListLines(Changelog(s));
  }
}
