/**
 * The text main.go prints for one entry (`outputMarkdown`, `outputPlainText`)
 * and for list mode, as the strings written to standard output.
 */
module Render {
  import opened Text
  import opened Parser

  /** Each line of `lines` behind `prefix`, one per line, each line ended by '\n'. */
  function LinesOf(prefix: string, lines: seq<string>): string
    decreases |lines|
  {
    if lines == [] then "" else prefix + lines[0] + "\n" + LinesOf(prefix, lines[1..])
  }

  /** `prefix` put in front of every element. */
  function Prefixed(prefix: string, lines: seq<string>): (r: seq<string>)
    ensures |r| == |lines|
    decreases |lines|
  {
    if lines == [] then [] else [prefix + lines[0]] + Prefixed(prefix, lines[1..])
  }

  /** An empty prefix changes nothing. */
  lemma {:induction false} PrefixedEmpty(lines: seq<string>)
    ensures Prefixed("", lines) == lines
    decreases |lines|
  {
    if lines != [] {
      PrefixedEmpty(lines[1..]);
      assert "" + lines[0] == lines[0];
    }
  }

  /** Printing one more line extends the block by that line. */
  lemma {:induction false} LinesOfSnoc(prefix: string, lines: seq<string>, line: string)
    ensures LinesOf(prefix, lines + [line]) == LinesOf(prefix, lines) + prefix + line + "\n"
    decreases |lines|
  {
    if lines == [] {
      assert [line][1..] == [];
    } else {
      assert (lines + [line])[1..] == lines[1..] + [line];
      LinesOfSnoc(prefix, lines[1..], line);
    }
  }

  /** The lines of a block are its prefixed lines, then the empty piece after the last '\n'. */
  lemma {:induction false} SplitLinesOf(prefix: string, lines: seq<string>)
    requires '\n' !in prefix
    requires forall i :: 0 <= i < |lines| ==> '\n' !in lines[i]
    ensures Split(LinesOf(prefix, lines)) == Prefixed(prefix, lines) + [""]
    decreases |lines|
  {
    if lines == [] {
      NoNewlineSplit("");
    } else {
      var first := prefix + lines[0];
      OneLine(prefix, lines[0]);
      SplitLinesOf(prefix, lines[1..]);
      SplitAround(first, LinesOf(prefix, lines[1..]));
      NoNewlineSplit(first);
    }
  }

  /** `strings.Repeat` of a one-character string. */
  function Repeat(c: char, n: nat): (r: string)
    ensures |r| == n && forall k :: 0 <= k < n ==> r[k] == c
  {
    seq(n, _ => c)
  }

  /** The separator rule `strings.Repeat("-", 40)`. */
  function Rule(): string {
    Repeat('-', 40)
  }

  /** What `outputMarkdown` prints. */
  function Markdown(e: Entry): string {
    "## " + e.version + "\n\n" + LinesOf("- ", e.changes)
  }

  /** What `outputPlainText` prints. */
  function PlainText(e: Entry): string {
    "Claude Code " + e.version + "\n" + Rule() + "\n" + LinesOf("  * ", e.changes)
  }

  /** The versions of the entries, in order. */
  function Versions(entries: seq<Entry>): (vs: seq<string>)
    ensures |vs| == |entries|
    decreases |entries|
  {
    if entries == [] then [] else Versions(entries[..|entries| - 1]) + [entries[|entries| - 1].version]
  }

  /** Element `i` of `Versions` is the version of entry `i`. */
  lemma {:induction false} VersionsAt(entries: seq<Entry>, i: nat)
    requires i < |entries|
    ensures Versions(entries)[i] == entries[i].version
    decreases |entries|
  {
    if i < |entries| - 1 {
      VersionsAt(entries[..|entries| - 1], i);
    }
  }

  /** What list mode prints: `fmt.Println` of every version. */
  function VersionList(entries: seq<Entry>): string {
    LinesOf("", Versions(entries))
  }

  method RenderMarkdown(e: Entry) returns (out: string)
    ensures out == Markdown(e)
  {
    out := "## " + e.version + "\n\n";
    for i := 0 to |e.changes|
      invariant out == "## " + e.version + "\n\n" + LinesOf("- ", e.changes[..i])
    {
      LinesOfSnoc("- ", e.changes[..i], e.changes[i]);
      assert e.changes[..i + 1] == e.changes[..i] + [e.changes[i]];
      out := out + "- " + e.changes[i] + "\n";
    }
    assert e.changes[..|e.changes|] == e.changes;
  }

  method RenderPlainText(e: Entry) returns (out: string)
    ensures out == PlainText(e)
  {
    out := "Claude Code " + e.version + "\n";
    out := out + Rule() + "\n";
    for i := 0 to |e.changes|
      invariant out == "Claude Code " + e.version + "\n" + Rule() + "\n" + LinesOf("  * ", e.changes[..i])
    {
      LinesOfSnoc("  * ", e.changes[..i], e.changes[i]);
      assert e.changes[..i + 1] == e.changes[..i] + [e.changes[i]];
      out := out + "  * " + e.changes[i] + "\n";
    }
    assert e.changes[..|e.changes|] == e.changes;
  }

  method RenderVersionList(entries: seq<Entry>) returns (out: string)
    ensures out == VersionList(entries)
  {
    out := "";
    for i := 0 to |entries|
      invariant out == LinesOf("", Versions(entries[..i]))
    {
      assert entries[..i + 1][..i] == entries[..i];
      LinesOfSnoc("", Versions(entries[..i]), entries[i].version);
      out := out + entries[i].version + "\n";
    }
    assert entries[..|entries|] == entries;
  }
}
