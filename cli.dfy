/**
 * What `main` does once the changelog text is in hand: it parses it, stops
 * with an error when there is no entry, prints every version in list mode,
 * and otherwise picks one entry (the first, or the first with the requested
 * version) and prints it as JSON, as markdown or as plain text.
 */
module Cli {
  import opened Wrappers
  import opened Text
  import opened Header
  import opened Parser
  import opened Render
  import opened Reparse

  /** The command-line flags that shape the output: `-json`, `-md`, `-list` and `-version`. */
  datatype Options = Options(json: bool, markdown: bool, list: bool, target: string)

  /** The two ways a run fails after the changelog has been fetched. */
  datatype Error = NoEntries | VersionNotFound(version: string)

  /**
   * How a run ends: text on standard output and exit status 0, an entry handed
   * to the JSON encoder, or a message on standard error and exit status 1.
   */
  datatype Outcome = Print(stdout: string) | PrintJson(entry: Entry) | Fail(error: Error)

  /** The line written to standard error for each error. */
  function Message(err: Error): string {
    match err
    case NoEntries => "Error: No changelog entries found\n"
    case VersionNotFound(v) => "Error: Version " + v + " not found\n"
  }

  /**
   * The line on standard error tells the errors apart, so a not-found line
   * determines the requested version.
   */
  lemma MessageIdentifiesError(a: Error, b: Error)
    ensures Message(a) == Message(b) <==> a == b
  {
    if a != b {
      match a
      case NoEntries =>
        assert Message(a)[7] != Message(b)[7];
      case VersionNotFound(v) =>
        match b
        case NoEntries =>
          assert Message(a)[7] != Message(b)[7];
        case VersionNotFound(w) =>
          var x, y := Message(a), Message(b);
          assert x[15..|x| - 11] == v;
          assert y[15..|y| - 11] == w;
    }
  }

  /** The index of the first entry whose version is `v`, if there is one. */
  function FirstWithVersion(entries: seq<Entry>, v: string): (r: Option<nat>)
    ensures r.Some? ==> r.value < |entries| && entries[r.value].version == v
    ensures r.Some? ==> forall j :: 0 <= j < r.value ==> entries[j].version != v
    ensures r.None? ==> forall j :: 0 <= j < |entries| ==> entries[j].version != v
    decreases |entries|
  {
    if entries == [] then None
    else if entries[0].version == v then Some(0)
    else match FirstWithVersion(entries[1..], v)
      case None => None
      case Some(i) => Some(i + 1)
  }

  /** The entry `main` shows: the first one, or with `-version` the first with that version. */
  function Selection(entries: seq<Entry>, target: string): (r: Option<nat>)
    requires |entries| > 0
    ensures r.Some? ==> r.value < |entries|
  {
    if target == "" then Some(0) else FirstWithVersion(entries, target)
  }

  /** The selection loop of `main`. */
  method SelectEntry(entries: seq<Entry>, target: string) returns (r: Option<nat>)
    requires |entries| > 0
    ensures r == Selection(entries, target)
  {
    if target == "" {
      return Some(0);
    }
    r := None;
    var i := 0;
    while i < |entries|
      invariant 0 <= i <= |entries|
      invariant forall j :: 0 <= j < i ==> entries[j].version != target
      invariant r == None
    {
      if entries[i].version == target {
        r := Some(i);
        break;
      }
      i := i + 1;
    }
  }

  /** The text one entry is printed as, by the output flags. */
  function Show(e: Entry, opts: Options): Outcome {
    if opts.json then PrintJson(e)
    else if opts.markdown then Print(Markdown(e))
    else Print(PlainText(e))
  }

  /** What a run of `main` on the changelog text `s` ends with. */
  function Response(s: string, opts: Options): Outcome {
    var entries := Changelog(s);
    if entries == [] then Fail(NoEntries)
    else if opts.list then Print(VersionList(entries))
    else match Selection(entries, opts.target)
      case None => Fail(VersionNotFound(opts.target))
      case Some(i) => Show(entries[i], opts)
  }

  /** `main` after the changelog has been fetched. */
  method Run(s: string, opts: Options) returns (o: Outcome)
    ensures o == Response(s, opts)
  {
    var entries := ParseChangelog(s);
    if |entries| == 0 {
      return Fail(NoEntries);
    }
    if opts.list {
      var out := RenderVersionList(entries);
      return Print(out);
    }
    var selected := SelectEntry(entries, opts.target);
    match selected {
      case None =>
        o := Fail(VersionNotFound(opts.target));
      case Some(i) =>
        var entry := entries[i];
        if opts.json {
          o := PrintJson(entry);
        } else if opts.markdown {
          var out := RenderMarkdown(entry);
          o := Print(out);
        } else {
          var out := RenderPlainText(entry);
          o := Print(out);
        }
    }
  }

  /** The no-entries error happens exactly when no line of the text is a version header. */
  lemma NoEntriesError(s: string, opts: Options)
    ensures Response(s, opts) == Fail(NoEntries) <==> forall q :: 0 <= q <= |s| ==> HeaderAt(s, q).None?
  {
    NoHeadersNoEntries(s);
  }

  /** A requested version that no entry has ends in the not-found error, and only then. */
  lemma NotFoundError(s: string, opts: Options)
    requires Changelog(s) != [] && !opts.list
    ensures Response(s, opts) == Fail(VersionNotFound(opts.target)) <==>
      opts.target != "" && forall j :: 0 <= j < |Changelog(s)| ==> Changelog(s)[j].version != opts.target
  {
    var entries := Changelog(s);
    if opts.target != "" && Response(s, opts) != Fail(VersionNotFound(opts.target)) {
      assert FirstWithVersion(entries, opts.target).Some?;
    }
  }

  /**
   * `-md` output is the markdown of the selected entry, and parsing it again
   * gives back exactly that entry.
   */
  lemma MarkdownOutputReparses(s: string, opts: Options, i: nat)
    requires opts.markdown && !opts.json && !opts.list
    requires Changelog(s) != [] && Selection(Changelog(s), opts.target) == Some(i)
    ensures Response(s, opts) == Print(Markdown(Changelog(s)[i]))
    ensures Changelog(Response(s, opts).stdout) == [Changelog(s)[i]]
  {
    ParsedEntryRoundTrip(s, i);
  }

  /**
   * Plain-text output is the title line of the selected entry, the rule, and
   * one "  * " line per change.
   */
  lemma PlainTextOutputLines(s: string, opts: Options, i: nat)
    requires !opts.markdown && !opts.json && !opts.list
    requires Changelog(s) != [] && Selection(Changelog(s), opts.target) == Some(i)
    ensures Response(s, opts) == Print(PlainText(Changelog(s)[i]))
    ensures Split(Response(s, opts).stdout) ==
      ["Claude Code " + Changelog(s)[i].version, Rule()] + Prefixed("  * ", Changelog(s)[i].changes) + [""]
  {
    assert Response(s, opts) == Print(PlainText(Changelog(s)[i]));
    ParsedPlainTextLines(s, i);
  }

  /** List mode prints every version of the changelog, one per line, in document order. */
  lemma ListOutputLines(s: string, opts: Options)
    requires opts.list && Changelog(s) != []
    ensures Response(s, opts).Print? && Split(Response(s, opts).stdout) == Versions(Changelog(s)) + [""]
  {
    ParsedVersionListLines(s);
  }
}
