/** check_markdown_file and check_anchor_in_target_file of mdlinkcheck.py.
    The file system is a map from path to raw file text (a path exists when
    it is a key); what the script prints is returned as a sequence of
    diagnostic lines of the form "<file>:<line>: <message>". */
module Checker {
  import opened Text
  import opened Links

  type FileSystem = map<string, string>

  // ---------------------------------------------------------------------
  // Diagnostic lines
  // ---------------------------------------------------------------------

  /** "<file>:<line>:", the head of every diagnostic. */
  function Location(file: string, n: nat): string
  {
    file + ":" + NatToString(n) + ":"
  }

  /** s between single quotes, as the f-strings write '{s}'. */
  function Quoted(s: string): string
  {
    "'" + s + "'"
  }

  /** A diagnostic loc + words + tail starts with its location, has its
      words right after it, and ends with its tail. */
  lemma Framed(loc: string, words: string, tail: string)
    ensures IsPrefix(loc, loc + words + tail)
    ensures OccursAt(loc + words + tail, words, |loc|)
    ensures (loc + words + tail)[|loc + words + tail| - |tail|..] == tail
  {
    var d := loc + words + tail;
    assert d[..|loc|] == loc;
    assert d[|loc|..|loc| + |words|] == words;
    assert d[|d| - |tail|..] == tail;
  }

  /** print(f"{file}:{n}: Not checking external link:", url): the two
      arguments of print are joined by a space. */
  function ExternalNotice(file: string, n: nat, url: string): (d: string)
    ensures IsPrefix(Location(file, n), d)
    ensures OccursAt(d, " Not checking external link: ", |Location(file, n)|)
    ensures |url| <= |d| && d[|d| - |url|..] == url
  {
    Framed(Location(file, n), " Not checking external link: ", url);
    Location(file, n) + " Not checking external link: " + url
  }

  /** The missing file is named, quoted, at the end. */
  function TargetNotFound(file: string, n: nat, target: string): (d: string)
    ensures IsPrefix(Location(file, n), d)
    ensures OccursAt(d, " Target file not found: ", |Location(file, n)|)
    ensures |Quoted(target)| <= |d| && d[|d| - |Quoted(target)|..] == Quoted(target)
  {
    Framed(Location(file, n), " Target file not found: ", Quoted(target));
    Location(file, n) + " Target file not found: " + Quoted(target)
  }

  /** Both wordings end with the quoted anchor. The local wording has
      nothing between "Anchor not found: " and the anchor; the cross-file
      wording names the target file, quoted. */
  function AnchorNotFound(file: string, n: nat, target: Target, anchor: string): (d: string)
    ensures IsPrefix(Location(file, n), d)
    ensures |Quoted(anchor)| <= |d| && d[|d| - |Quoted(anchor)|..] == Quoted(anchor)
    ensures target.isLocal ==>
              OccursAt(d, " Anchor not found: ", |Location(file, n)|)
              && |d| == |Location(file, n)| + |" Anchor not found: "| + |Quoted(anchor)|
    ensures !target.isLocal ==>
              OccursAt(d, " Anchor not found in target file " + Quoted(target.path) + ": ", |Location(file, n)|)
  {
    var words :=
      if target.isLocal then " Anchor not found: "
      else " Anchor not found in target file " + Quoted(target.path) + ": ";
    Framed(Location(file, n), words, Quoted(anchor));
    Location(file, n) + words + Quoted(anchor)
  }

  // ---------------------------------------------------------------------
  // One line
  // ---------------------------------------------------------------------

  /** check_anchor_in_target_file: nothing when the anchor is found in
      the target's text (read in text mode), one diagnostic otherwise. */
  function CheckAnchor(fs: FileSystem, target: Target, anchor: string, file: string, n: nat): (r: seq<string>)
    requires target.path in fs
    ensures r == [] <==> AnchorFound(Normalize(fs[target.path]), anchor)
    ensures r != [] ==> r == [AnchorNotFound(file, n, target, anchor)]
  {
    if AnchorFound(Normalize(fs[target.path]), anchor) then [] else [AnchorNotFound(file, n, target, anchor)]
  }

  /** What the rest of the loop body prints for a project-internal
      target t found on line n. */
  function LinkDiagnostics(fs: FileSystem, root: string, file: string, n: nat, t: string): (r: seq<string>)
    ensures |r| <= 1
    ensures forall d :: d in r ==> IsPrefix(Location(file, n), d)
  {
    var (part, anchor) := SplitFragment(t);
    var target := Resolve(root, file, part);
    if target.path !in fs then [TargetNotFound(file, n, target.path)]
    else if anchor == "" then []
    else CheckAnchor(fs, target, anchor, file, n)
  }

  /** What one iteration of check_markdown_file's loop prints for line
      number n with raw text raw. */
  function LineDiagnostics(fs: FileSystem, root: string, file: string, n: nat, raw: string, show: bool): (r: seq<string>)
    ensures |r| <= 1
    ensures forall d :: d in r ==> IsPrefix(Location(file, n), d)
  {
    match ExtractTarget(Strip(raw))
    case None => []
    case Some(t) =>
      if IsExternal(t) then
        (if show then [ExternalNotice(file, n, t)] else [])
      else LinkDiagnostics(fs, root, file, n, t)
  }

  // ---------------------------------------------------------------------
  // A whole document
  // ---------------------------------------------------------------------

  /** The diagnostics for lines numbered 1 to |lines|, in line order. */
  function AllDiagnostics(fs: FileSystem, root: string, file: string, lines: seq<string>, show: bool): (r: seq<string>)
    ensures |r| <= |lines|
    ensures forall d :: d in r ==> exists n :: 1 <= n <= |lines| && IsPrefix(Location(file, n), d)
    decreases |lines|
  {
    if lines == [] then []
    else
      AllDiagnostics(fs, root, file, lines[..|lines| - 1], show)
      + LineDiagnostics(fs, root, file, |lines|, lines[|lines| - 1], show)
  }

  /** What checking a document results in: its diagnostics, or the
      failure to open it (FileNotFoundError, raised before anything is
      printed). */
  datatype Outcome = Checked(diagnostics: seq<string>) | CannotOpen(path: string)

  function DocumentOutcome(fs: FileSystem, root: string, file: string, show: bool): (r: Outcome)
    ensures r.CannotOpen? <==> file !in fs
    ensures r.CannotOpen? ==> r.path == file
    ensures r.Checked? ==> |r.diagnostics| <= |ReadLines(fs[file])|
  {
    if file !in fs then CannotOpen(file)
    else Checked(AllDiagnostics(fs, root, file, ReadLines(fs[file]), show))
  }

  /** check_markdown_file(root, file, show_external_links). */
  method CheckMarkdownFile(fs: FileSystem, root: string, file: string, show: bool) returns (r: Outcome)
    ensures r == DocumentOutcome(fs, root, file, show)
  {
    if file !in fs {
      return CannotOpen(file);
    }
    var lines := ReadLines(fs[file]);
    var diagnostics: seq<string> := [];
    for i := 0 to |lines|
      invariant diagnostics == AllDiagnostics(fs, root, file, lines[..i], show)
    {
      ghost var before := diagnostics;
      ghost var expected := LineDiagnostics(fs, root, file, i + 1, lines[i], show);
      assert lines[..i + 1][..i] == lines[..i];
      ghost var after := AllDiagnostics(fs, root, file, lines[..i + 1], show);
      assert after == before + expected;
      var lineNumber := i + 1;
      var line := Strip(lines[i]);
      var m := ExtractTarget(line);
      if m.None? {
        assert expected == [];
        assert diagnostics == after;
        continue;
      }
      var targetFilename := m.value;
      if IsExternal(targetFilename) {
        if show {
          diagnostics := diagnostics + [ExternalNotice(file, lineNumber, targetFilename)];
        }
        assert diagnostics == after;
        continue;
      }
      ghost var link := targetFilename;
      assert expected == LinkDiagnostics(fs, root, file, lineNumber, link);
      var anchor := "";
      var parts := Split(targetFilename, '#');
      if |parts| == 2 {
        targetFilename, anchor := parts[0], parts[1];
      }
      assert (targetFilename, anchor) == SplitFragment(link);
      var target: string, isLocalAnchor: bool;
      if targetFilename == "" {
        isLocalAnchor := true;
        target := file;
      } else {
        isLocalAnchor := false;
        target := ChildPath(root, targetFilename);
      }
      assert Target(target, isLocalAnchor) == Resolve(root, file, targetFilename);
      if target !in fs {
        assert expected == [TargetNotFound(file, lineNumber, target)];
        diagnostics := diagnostics + [TargetNotFound(file, lineNumber, target)];
        assert diagnostics == after;
        continue;
      }
      if anchor != "" {
        assert expected == CheckAnchor(fs, Target(target, isLocalAnchor), anchor, file, lineNumber);
        diagnostics := diagnostics + CheckAnchor(fs, Target(target, isLocalAnchor), anchor, file, lineNumber);
      } else {
        assert expected == [];
      }
      assert diagnostics == after;
    }
    assert lines[..|lines|] == lines;
    return Checked(diagnostics);
  }

  // ---------------------------------------------------------------------
  // Properties of a document's diagnostics
  // ---------------------------------------------------------------------

  /** d is what line number n (counting from 1) of the document yields. */
  predicate FromLine(fs: FileSystem, root: string, file: string, lines: seq<string>, show: bool, n: nat, d: string)
  {
    1 <= n <= |lines| && d in LineDiagnostics(fs, root, file, n, lines[n - 1], show)
  }

  /** Every diagnostic comes from one line, and carries that line's
      1-based number. */
  lemma {:induction false} DiagnosticOrigin(fs: FileSystem, root: string, file: string, lines: seq<string>, show: bool, d: string)
    requires d in AllDiagnostics(fs, root, file, lines, show)
    ensures exists n :: FromLine(fs, root, file, lines, show, n, d)
    decreases |lines|
  {
    var init := lines[..|lines| - 1];
    var last := LineDiagnostics(fs, root, file, |lines|, lines[|lines| - 1], show);
    if d in last {
      assert FromLine(fs, root, file, lines, show, |lines|, d);
    } else {
      DiagnosticOrigin(fs, root, file, init, show, d);
      var n :| FromLine(fs, root, file, init, show, n, d);
      assert init[n - 1] == lines[n - 1];
      assert FromLine(fs, root, file, lines, show, n, d);
    }
  }

  /** A document none of whose lines holds a link gets no diagnostic. */
  lemma {:induction false} NoLinksNoDiagnostics(fs: FileSystem, root: string, file: string, lines: seq<string>, show: bool)
    requires forall l, i: nat, j: nat, k: nat :: l in lines ==> !IsLinkMatch(Strip(l), i, j, k)
    ensures AllDiagnostics(fs, root, file, lines, show) == []
    decreases |lines|
  {
    if lines != [] {
      var init := lines[..|lines| - 1];
      assert forall l :: l in init ==> l in lines;
      NoLinksNoDiagnostics(fs, root, file, init, show);
      NoLinkLine(fs, root, file, |lines|, lines[|lines| - 1], show);
    }
  }

  // ---------------------------------------------------------------------
  // Properties of one line's diagnostics
  // ---------------------------------------------------------------------

  /** A line the link pattern does not match contributes nothing. */
  lemma NoLinkLine(fs: FileSystem, root: string, file: string, n: nat, raw: string, show: bool)
    requires forall i: nat, j: nat, k: nat :: !IsLinkMatch(Strip(raw), i, j, k)
    ensures LineDiagnostics(fs, root, file, n, raw, show) == []
  {
    ExtractTargetSpec(Strip(raw));
  }

  /** An external target (http, any number of 's', "://") is neither
      resolved nor looked up: what the line yields does not depend on the
      file system or the root, and is the notice exactly when show is
      set. */
  lemma ExternalLine(fs: FileSystem, fs': FileSystem, root: string, root': string,
                     file: string, n: nat, raw: string, show: bool, t: string, s: nat)
    requires ExtractTarget(Strip(raw)) == Some(t)
    requires IsPrefix("http" + Repeat('s', s) + "://", t)
    ensures LineDiagnostics(fs, root, file, n, raw, show) == LineDiagnostics(fs', root', file, n, raw, show)
    ensures LineDiagnostics(fs, root, file, n, raw, show) == if show then [ExternalNotice(file, n, t)] else []
  {
    MatchesIsExternal(t, s);
  }

  /** A target that is empty, or '#' and an anchor, refers to the document
      itself; that document exists, so the line never reports a missing
      file, only (with the local wording) a missing anchor. */
  lemma SelfReferenceLine(fs: FileSystem, root: string, file: string, n: nat, raw: string, show: bool, t: string)
    requires file in fs
    requires ExtractTarget(Strip(raw)) == Some(t)
    requires t == "" || (t[0] == '#' && '#' !in t[1..])
    ensures var anchor := if t == "" then "" else t[1..];
            LineDiagnostics(fs, root, file, n, raw, show) ==
              if anchor == "" || AnchorFound(Normalize(fs[file]), anchor) then []
              else [AnchorNotFound(file, n, Target(file, true), anchor)]
  {
    var anchor := if t == "" then "" else t[1..];
    assert SplitFragment(t) == ("", anchor) by {
      if t != "" {
        SplitFragmentLocal(t);
      }
    }
    assert !IsExternal(t) by {
      if t != "" { assert t[0] != "http"[0]; }
    }
    SelfReferenceLink(fs, root, file, n, t, anchor);
  }

  /** A target whose path part is empty is checked against the
      document itself, with the local wording. */
  lemma SelfReferenceLink(fs: FileSystem, root: string, file: string, n: nat, t: string, anchor: string)
    requires file in fs
    requires SplitFragment(t) == ("", anchor)
    ensures LinkDiagnostics(fs, root, file, n, t) ==
              if anchor == "" || AnchorFound(Normalize(fs[file]), anchor) then []
              else [AnchorNotFound(file, n, Target(file, true), anchor)]
  {
  }

  /** A target with exactly one '#' and a non-empty path part p: a
      missing root/p is reported once and the anchor is not looked at;
      otherwise an empty anchor is accepted, and a non-empty anchor is
      reported, with the cross-file wording, exactly when it is missing. */
  lemma PathAndAnchorLine(fs: FileSystem, root: string, file: string, n: nat, raw: string, show: bool,
                          p: string, a: string)
    requires ExtractTarget(Strip(raw)) == Some(p + "#" + a)
    requires p != "" && '#' !in p && '#' !in a
    requires !IsExternal(p + "#" + a)
    ensures var target := ChildPath(root, p);
            LineDiagnostics(fs, root, file, n, raw, show) ==
              if target !in fs then [TargetNotFound(file, n, target)]
              else if a == "" || AnchorFound(Normalize(fs[target]), a) then []
              else [AnchorNotFound(file, n, Target(target, false), a)]
  {
    SplitFragmentOfJoin(p, a);
  }

  /** A target with no '#', or with two or more, is taken whole as a path
      with no anchor: the line reports root/t when it is missing and
      nothing otherwise. */
  lemma PlainPathLine(fs: FileSystem, root: string, file: string, n: nat, raw: string, show: bool, t: string)
    requires ExtractTarget(Strip(raw)) == Some(t)
    requires t != "" && Count(t, '#') != 1
    requires !IsExternal(t)
    ensures LineDiagnostics(fs, root, file, n, raw, show) ==
              if ChildPath(root, t) !in fs then [TargetNotFound(file, n, ChildPath(root, t))] else []
  {
    SplitFragmentExact(t);
  }
}
