/** The per-link decisions of mdlinkcheck.py, each a pure function of its
    inputs: which link a line holds, whether it is external, how it splits
    into a path part and an anchor, which file it names, whether the anchor
    is present in that file, and which files are Markdown documents. */
module Links {
  import opened Text

  // ---------------------------------------------------------------------
  // Link extraction: the first match of \[.*?\]\((.*?)\) in a line
  // ---------------------------------------------------------------------

  /** The pattern matches with its '[' at i, its "](" at j and its closing
      ')' at k; the captured target is line[j + 2..k]. (The pattern's '.'
      does not match '\n'; a line holds '\n' only as its last character,
      which strip() removes, so no condition on '\n' is needed here.) */
  predicate IsLinkMatch(line: string, i: nat, j: nat, k: nat)
  {
    i < j && j + 2 <= k < |line|
    && line[i] == '[' && line[j] == ']' && line[j + 1] == '(' && line[k] == ')'
  }

  /** The order in which re.search picks among matches: the leftmost
      start first, then the shortest label (lazy .*?), then the shortest
      target (lazy .*?). */
  predicate Precedes(m: (nat, nat, nat), i: nat, j: nat, k: nat)
  {
    m.0 < i || (m.0 == i && (m.1 < j || (m.1 == j && m.2 <= k)))
  }

  /** The positions of the match re.search finds: the first '[', the first
      "](" after it, the first ')' after that. */
  function FirstLinkMatch(line: string): (m: Option<(nat, nat, nat)>)
    ensures m.Some? ==> IsLinkMatch(line, m.value.0, m.value.1, m.value.2)
  {
    match IndexOf(line, "[", 0)
    case None => None
    case Some(i) =>
      match IndexOf(line, "](", i + 1)
      case None => None
      case Some(j) =>
        match IndexOf(line, ")", j + 2)
        case None => None
        case Some(k) =>
          OccursAtChar(line, '[', i);
          OccursAtChar(line, ')', k);
          assert line[j..j + 2] == "](";
          Some((i, j, k))
  }

  /** Every match of the pattern is found, and the one returned comes
      first in re.search's order; so there is no match exactly when
      FirstLinkMatch returns None. */
  lemma FirstLinkMatchIsFirst(line: string, i: nat, j: nat, k: nat)
    requires IsLinkMatch(line, i, j, k)
    ensures FirstLinkMatch(line).Some?
    ensures Precedes(FirstLinkMatch(line).value, i, j, k)
  {
    OccursAtChar(line, '[', i);
    OccursAtChar(line, ')', k);
    assert OccursAt(line, "](", j) by { assert line[j..j + 2] == "]("; }
    var i0 := IndexOf(line, "[", 0).value;
    var j0 := IndexOf(line, "](", i0 + 1).value;
    var k0 := IndexOf(line, ")", j0 + 2).value;
  }

  /** m.groups()[0] of that match, if there is one. */
  function ExtractTarget(line: string): (r: Option<string>)
    ensures r.Some? ==> ')' !in r.value
  {
    match FirstLinkMatch(line)
    case None => None
    case Some((i, j, k)) =>
      assert forall p :: j + 2 <= p < k ==> line[p] != ')' by {
        forall p | j + 2 <= p < k ensures line[p] != ')' { OccursAtChar(line, ')', p); }
      }
      Some(line[j + 2..k])
  }

  /** A line yields a target exactly when the pattern matches it, and the
      target is the text between the first "](" after the first '[' and
      the next ')'. */
  lemma ExtractTargetSpec(line: string)
    ensures ExtractTarget(line).None? <==>
              forall i: nat, j: nat, k: nat :: !IsLinkMatch(line, i, j, k)
    ensures ExtractTarget(line).Some? ==>
              exists i: nat, j: nat, k: nat ::
                IsLinkMatch(line, i, j, k) && ExtractTarget(line).value == line[j + 2..k]
                && forall i': nat, j': nat, k': nat ::
                     IsLinkMatch(line, i', j', k') ==> Precedes((i, j, k), i', j', k')
  {
    forall i: nat, j: nat, k: nat | IsLinkMatch(line, i, j, k)
      ensures FirstLinkMatch(line).Some? && Precedes(FirstLinkMatch(line).value, i, j, k)
    {
      FirstLinkMatchIsFirst(line, i, j, k);
    }
  }

  // ---------------------------------------------------------------------
  // External links: re.match(r"https*://", target)
  // ---------------------------------------------------------------------

  /** The first position at or after from that does not hold 's'. */
  function SkipS(t: string, from: nat): (j: nat)
    requires from <= |t|
    ensures from <= j <= |t|
    ensures forall k :: from <= k < j ==> t[k] == 's'
    ensures j == |t| || t[j] != 's'
    decreases |t| - from
  {
    if from < |t| && t[from] == 's' then SkipS(t, from + 1) else from
  }

  /** The target starts with "http", any number of 's', then "://". */
  predicate IsExternal(t: string)
    ensures IsExternal(t) ==> |t| >= 7 && IsPrefix("http", t)
    ensures IsExternal(t) ==> exists j :: 4 <= j && OccursAt(t, "://", j)
  {
    |t| >= 4 && t[..4] == "http"
    && var j := SkipS(t, 4);
       OccursAt(t, "://", j)
  }

  function Repeat(c: char, n: nat): (r: string)
    ensures |r| == n && forall k :: 0 <= k < n ==> r[k] == c
  {
    if n == 0 then "" else [c] + Repeat(c, n - 1)
  }

  predicate IsPrefix(p: string, t: string)
  {
    |p| <= |t| && t[..|p|] == p
  }

  /** A target the scan accepts starts with "http", some 's', "://". */
  lemma IsExternalMatches(t: string)
    requires IsExternal(t)
    ensures exists n: nat :: IsPrefix("http" + Repeat('s', n) + "://", t)
  {
    var j := SkipS(t, 4);
    var p := "http" + Repeat('s', j - 4) + "://";
    assert t[..|p|] == p;
    assert IsPrefix(p, t);
  }

  /** A target starting with "http", n times 's', "://" is accepted. */
  lemma MatchesIsExternal(t: string, n: nat)
    requires IsPrefix("http" + Repeat('s', n) + "://", t)
    ensures IsExternal(t)
  {
    var p := "http" + Repeat('s', n) + "://";
    assert |p| == n + 7;
    assert forall k :: 0 <= k < |p| ==> t[k] == p[k] by {
      forall k | 0 <= k < |p| ensures t[k] == p[k] { assert t[..|p|][k] == p[k]; }
    }
    assert t[..4] == "http" by {
      forall k | 0 <= k < 4 ensures t[k] == "http"[k] { assert p[k] == "http"[k]; }
    }
    assert forall k :: 4 <= k < 4 + n ==> t[k] == 's' by {
      forall k | 4 <= k < 4 + n ensures t[k] == 's' { assert p[k] == Repeat('s', n)[k - 4]; }
    }
    assert t[4 + n] == ':' by { assert p[4 + n] == "://"[0]; }
    var j := SkipS(t, 4);
    assert j == 4 + n;
    assert t[j..j + 3] == "://" by {
      forall k | 0 <= k < 3 ensures t[j + k] == "://"[k] { assert p[4 + n + k] == "://"[k]; }
    }
  }

  /** The scan accepts exactly the strings the pattern https*:// matches
      at their start. */
  lemma IsExternalIff(t: string)
    ensures IsExternal(t) <==> exists n: nat :: IsPrefix("http" + Repeat('s', n) + "://", t)
  {
    if IsExternal(t) {
      IsExternalMatches(t);
    }
    if n: nat :| IsPrefix("http" + Repeat('s', n) + "://", t) {
      MatchesIsExternal(t, n);
    }
  }

  // ---------------------------------------------------------------------
  // Fragment split: target_filename, anchor = target_filename.split("#")
  // ---------------------------------------------------------------------

  /** With exactly two pieces the unpacking succeeds; otherwise it raises
      ValueError, which leaves the target whole and the anchor empty. */
  function SplitFragment(t: string): (r: (string, string))
    ensures r == (t, "") || (t == r.0 + "#" + r.1 && '#' !in r.0 && '#' !in r.1)
  {
    var parts := Split(t, '#');
    if |parts| == 2 then
      JoinSplit(t, '#');
      assert parts[1..] == [parts[1]];
      assert parts[0] in parts && parts[1] in parts;
      (parts[0], parts[1])
    else (t, "")
  }

  /** A target with exactly one '#' is cut at it; any other target is
      kept whole with an empty anchor. */
  lemma SplitFragmentExact(t: string)
    ensures Count(t, '#') == 1 ==>
              var (p, a) := SplitFragment(t);
              t == p + "#" + a && '#' !in p && '#' !in a
    ensures Count(t, '#') != 1 ==> SplitFragment(t) == (t, "")
  {
    var parts := Split(t, '#');
    JoinSplit(t, '#');
    if |parts| == 2 {
      assert parts[1..] == [parts[1]];
      assert parts[0] in parts && parts[1] in parts;
    }
  }

  /** Conversely, a path part and an anchor without '#' come back out of
      the target they form. */
  lemma SplitFragmentOfJoin(p: string, a: string)
    requires '#' !in p && '#' !in a
    ensures SplitFragment(p + "#" + a) == (p, a)
  {
    SplitCons(p, '#', a);
    SplitNone(a, '#');
  }

  /** A bare "#a" has an empty path part. */
  lemma SplitFragmentOfAnchor(a: string)
    requires '#' !in a
    ensures SplitFragment("#" + a) == ("", a)
  {
    assert "" + "#" + a == "#" + a;
    SplitFragmentOfJoin("", a);
  }

  /** A target that starts with its only '#' splits into an empty path
      part and the rest. */
  lemma SplitFragmentLocal(t: string)
    requires t != "" && t[0] == '#' && '#' !in t[1..]
    ensures SplitFragment(t) == ("", t[1..])
  {
    assert t == "#" + t[1..];
    SplitFragmentOfAnchor(t[1..]);
  }

  // ---------------------------------------------------------------------
  // Target resolution
  // ---------------------------------------------------------------------

  /** root / name, written as a join with '/'. */
  function ChildPath(root: string, name: string): string
  {
    root + "/" + name
  }

  datatype Target = Target(path: string, isLocal: bool)

  /** An empty path part names the current file (a local anchor);
      any other path part names root / part. */
  function Resolve(root: string, file: string, part: string): (r: Target)
    ensures r.isLocal <==> part == ""
    ensures r.isLocal ==> r.path == file
    ensures !r.isLocal ==> r.path == root + "/" + part
  {
    if part == "" then Target(file, true) else Target(ChildPath(root, part), false)
  }

  /** The file a (non-external) link target refers to. */
  function ResolveLink(root: string, file: string, t: string): (r: Target)
    ensures r.isLocal ==> r.path == file
    ensures !r.isLocal ==> IsPrefix(root + "/", r.path)
  {
    Resolve(root, file, SplitFragment(t).0)
  }

  /** A link refers to its own document exactly when the target is empty
      or is '#' followed by an anchor with no further '#'. */
  lemma ResolveLinkLocalIff(root: string, file: string, t: string)
    ensures ResolveLink(root, file, t).isLocal <==>
              t == "" || (t[0] == '#' && '#' !in t[1..])
    ensures ResolveLink(root, file, t).isLocal ==> ResolveLink(root, file, t).path == file
    ensures !ResolveLink(root, file, t).isLocal ==>
              ResolveLink(root, file, t).path == ChildPath(root, SplitFragment(t).0)
  {
    SplitFragmentExact(t);
    if t != [] && t[0] == '#' && '#' !in t[1..] {
      SplitFragmentLocal(t);
    }
    if t != [] && t[0] == '#' && '#' in t[1..] {
      CountZero(t[1..], '#');
      assert Count(t, '#') >= 2;
    }
  }

  // ---------------------------------------------------------------------
  // Anchor resolution
  // ---------------------------------------------------------------------

  /** The explicit anchor tag <a name="A">. */
  function AnchorTag(anchor: string): string
  {
    "<a name=\"" + anchor + "\">"
  }

  /** The heading text "# A". */
  function HeadingText(anchor: string): string
  {
    "# " + anchor
  }

  /** re.search of the tag (case-sensitive) or of the heading text
      (re.IGNORECASE) in the content; the anchor is taken literally. */
  predicate AnchorFound(content: string, anchor: string)
    ensures AnchorFound(content, anchor) ==> |content| >= |anchor| + 2
  {
    Contains(content, AnchorTag(anchor)) || Contains(Lower(content), Lower(HeadingText(anchor)))
  }

  /** pat matches text at i when letter case is ignored. */
  predicate MatchesIgnoringCaseAt(text: string, pat: string, i: nat)
  {
    i + |pat| <= |text| && forall k :: 0 <= k < |pat| ==> LowerChar(text[i + k]) == LowerChar(pat[k])
  }

  /** The anchor is found exactly when the tag occurs verbatim or the
      heading text occurs, ignoring case, at some position of the content
      (not necessarily at the start of a line). */
  lemma AnchorFoundIff(content: string, anchor: string)
    ensures AnchorFound(content, anchor) <==>
              (exists i :: OccursAt(content, AnchorTag(anchor), i))
              || (exists i :: MatchesIgnoringCaseAt(content, HeadingText(anchor), i))
  {
    var lc, lp := Lower(content), Lower(HeadingText(anchor));
    forall i: nat
      ensures OccursAt(lc, lp, i) <==> MatchesIgnoringCaseAt(content, HeadingText(anchor), i)
    {
      if i + |lp| <= |lc| {
        if OccursAt(lc, lp, i) {
          forall k | 0 <= k < |lp|
            ensures LowerChar(content[i + k]) == LowerChar(HeadingText(anchor)[k])
          {
            assert lc[i..i + |lp|][k] == lp[k];
          }
        }
        if MatchesIgnoringCaseAt(content, HeadingText(anchor), i) {
          assert lc[i..i + |lp|] == lp;
        }
      }
    }
    ContainsIff(content, AnchorTag(anchor));
    ContainsIff(lc, lp);
  }

  /** Heading matches are substring matches: if "# A" + more occurs, then
      the shorter anchor A is found too. */
  lemma HeadingMatchIsPrefixClosed(content: string, anchor: string, more: string)
    requires Contains(Lower(content), Lower(HeadingText(anchor + more)))
    ensures AnchorFound(content, anchor)
  {
    var lc := Lower(content);
    var long, short := Lower(HeadingText(anchor + more)), Lower(HeadingText(anchor));
    var i := IndexOf(lc, long, 0).value;
    assert lc[i..i + |short|] == short by {
      assert lc[i..i + |long|] == long;
      forall k | 0 <= k < |short| ensures lc[i + k] == short[k] {
        assert long[k] == lc[i..i + |long|][k];
      }
    }
    assert OccursAt(lc, short, i);
    ContainsIff(lc, short);
  }

  /** The heading text is matched literally and ignoring case, so the
      heading "## Section One" satisfies the anchor "section one" ... */
  lemma HeadingFoundExample(content: string, anchor: string)
    requires content == "## Section One\n" && anchor == "section one"
    ensures AnchorFound(content, anchor)
  {
    var pat := HeadingText(anchor);
    assert pat == "# section one";
    assert MatchesIgnoringCaseAt(content, pat, 1) by {
      forall k | 0 <= k < |pat| ensures LowerChar(content[1 + k]) == LowerChar(pat[k]) {
      }
    }
    AnchorFoundIff(content, anchor);
  }

  lemma HeadingMismatch(content: string, pat: string)
    requires content == "## Section One\n" && pat == "# section-one"
    ensures forall i: nat :: !MatchesIgnoringCaseAt(content, pat, i)
  {
    forall i: nat ensures !MatchesIgnoringCaseAt(content, pat, i) {
      if i == 0 {
        assert LowerChar(content[1]) != LowerChar(pat[1]);
      } else if i == 1 {
        assert LowerChar(content[10]) != LowerChar(pat[9]);
      } else if i == 2 {
        assert LowerChar(content[2]) != LowerChar(pat[0]);
      }
    }
  }

  /** ... but not the slug-style anchor "section-one": no heading slugs
      are computed. */
  lemma HeadingNotFoundExample(content: string, anchor: string)
    requires content == "## Section One\n" && anchor == "section-one"
    ensures !AnchorFound(content, anchor)
  {
    AnchorFoundIff(content, anchor);
    HeadingMismatch(content, HeadingText(anchor));
    assert |AnchorTag(anchor)| > |content|;
  }

  // ---------------------------------------------------------------------
  // The anchor as written: interpolated into the pattern unescaped
  // ---------------------------------------------------------------------

  /** How re.search reads a pattern whose only special character is '.':
      each '.' stands for any character other than '\n'. This is what the
      tag search of the source does with an anchor holding a '.', since
      the anchor is put into the pattern without re.escape. */
  predicate DotPatternMatchesAt(text: string, pat: string, i: nat)
  {
    i + |pat| <= |text|
    && forall k :: 0 <= k < |pat| ==>
         if pat[k] == '.' then text[i + k] != '\n' else text[i + k] == pat[k]
  }

  /** The tag search as the source performs it, for anchors whose only
      regular-expression metacharacter is '.'. Other metacharacters
      (such as '+' or '*') are read here as plain characters, which the
      source does not do. */
  ghost predicate AnchorTagFoundAsWritten(content: string, anchor: string)
  {
    exists i: nat :: DotPatternMatchesAt(content, AnchorTag(anchor), i)
  }

  /** For anchors without '.', the dot reading of the tag pattern and the
      literal search agree. This is the source's behaviour only for
      anchors that hold no regular-expression metacharacter at all. */
  lemma AsWrittenAgreesWithoutDot(content: string, anchor: string)
    requires '.' !in anchor
    ensures AnchorTagFoundAsWritten(content, anchor) <==> Contains(content, AnchorTag(anchor))
  {
    var tag := AnchorTag(anchor);
    assert '.' !in tag by {
      forall k | 0 <= k < |tag| ensures tag[k] != '.' {
        if 9 <= k < 9 + |anchor| { assert tag[k] == anchor[k - 9]; }
      }
    }
    forall i: nat ensures DotPatternMatchesAt(content, tag, i) <==> OccursAt(content, tag, i) {
      if i + |tag| <= |content| {
        if DotPatternMatchesAt(content, tag, i) {
          assert content[i..i + |tag|] == tag;
        }
        if OccursAt(content, tag, i) {
          forall k | 0 <= k < |tag| ensures content[i + k] == tag[k] {
            assert content[i..i + |tag|][k] == tag[k];
          }
        }
      }
    }
    ContainsIff(content, tag);
  }

  /** The anchor "v1.2" is reported as present in a document that only
      holds the tag for "v1x2". */
  lemma UnescapedAnchorFinding(content: string, anchor: string)
    requires content == "<a name=\"v1x2\">" && anchor == "v1.2"
    ensures AnchorTagFoundAsWritten(content, anchor)
    ensures !Contains(content, AnchorTag(anchor))
  {
    var tag := AnchorTag(anchor);
    assert |tag| == |content| == 15;
    assert DotPatternMatchesAt(content, tag, 0);
    ContainsIff(content, tag);
    forall i: nat ensures !OccursAt(content, tag, i) {
      if i == 0 {
        assert content[0..15][11] != tag[11];
      }
    }
  }

  // ---------------------------------------------------------------------
  // Markdown documents: file.suffix in (".md", ".mkd", ".markdown")
  // ---------------------------------------------------------------------

  /** The last position of c in s, or -1. */
  function LastIndexOf(s: string, c: char): (r: int)
    ensures -1 <= r < |s|
    ensures r >= 0 ==> s[r] == c
    ensures forall k :: r < k < |s| ==> s[k] != c
    decreases |s|
  {
    if s == [] then -1
    else if s[|s| - 1] == c then |s| - 1
    else LastIndexOf(s[..|s| - 1], c)
  }

  /** PurePath.name: the text after the last '/'. */
  function Name(path: string): string
  {
    path[LastIndexOf(path, '/') + 1..]
  }

  /** PurePath.suffix of a name: from its last '.' on, provided that dot
      is neither the first nor the last character. */
  function Suffix(name: string): (r: string)
    ensures r == "" || (1 < |r| < |name| && r[0] == '.' && '.' !in r[1..] && r == name[|name| - |r|..])
  {
    var i := LastIndexOf(name, '.');
    if 0 < i < |name| - 1 then name[i..] else ""
  }

  predicate IsMarkdown(path: string)
    ensures IsMarkdown(path) ==> |Name(path)| >= 4
  {
    Suffix(Name(path)) in {".md", ".mkd", ".markdown"}
  }

  /** The path ends in ext, and ext is preceded inside the file name by at
      least one character. */
  predicate HasExtension(path: string, ext: string)
  {
    |path| > |ext| && path[|path| - |ext|..] == ext && path[|path| - |ext| - 1] != '/'
  }

  /** Dropping a then i characters drops a + i. */
  lemma DropDrop(s: string, a: nat, i: nat)
    requires a + i <= |s|
    ensures s[a..][i..] == s[a + i..]
  {
  }

  /** Where a non-empty suffix starts: a is the start of the file name and
      i the position of the suffix's dot inside it. */
  lemma SuffixPosition(path: string) returns (a: nat, i: nat)
    requires Suffix(Name(path)) != ""
    ensures a == LastIndexOf(path, '/') + 1 <= |path|
    ensures i == LastIndexOf(path[a..], '.') && 0 < i < |path| - a - 1
  {
    a := LastIndexOf(path, '/') + 1;
    i := LastIndexOf(path[a..], '.');
  }

  /** The suffix is the rest of the path from its dot, and the character
      before the dot still belongs to the file name. */
  lemma SuffixAt(path: string, a: nat, i: nat)
    requires a == LastIndexOf(path, '/') + 1 <= |path|
    requires i == LastIndexOf(path[a..], '.') && 0 < i < |path| - a - 1
    ensures path[a + i - 1] != '/'
    ensures Suffix(Name(path)) == path[a + i..]
  {
    assert a <= a + i - 1 < |path|;
    DropDrop(path, a, i);
  }

  /** A tail of the path preceded by a character other than '/' is an
      extension. */
  lemma ExtensionAt(path: string, start: nat)
    requires 0 < start < |path| && path[start - 1] != '/'
    ensures HasExtension(path, path[start..])
  {
  }

  /** A non-empty suffix is an extension of the path with something
      before it inside the file name. */
  lemma SuffixIsExtension(path: string)
    requires Suffix(Name(path)) != ""
    ensures HasExtension(path, Suffix(Name(path)))
  {
    var a, i := SuffixPosition(path);
    SuffixAt(path, a, i);
    ExtensionAt(path, a + i);
  }

  /** A file that passes the filter has a name that is something followed
      by .md, .mkd or .markdown. */
  lemma IsMarkdownHasExtension(path: string)
    requires IsMarkdown(path)
    ensures HasExtension(path, ".md") || HasExtension(path, ".mkd") || HasExtension(path, ".markdown")
  {
    SuffixIsExtension(path);
  }

  /** The last c of a slice s[a..] is the last c of s, shifted. */
  lemma LastIndexOfSlice(s: string, c: char, a: nat, i: nat)
    requires a <= i < |s| && s[i] == c
    requires forall k :: i < k < |s| ==> s[k] != c
    ensures LastIndexOf(s[a..], c) == i - a
  {
    var t := s[a..];
    assert t[i - a] == c;
    assert forall k :: i - a < k < |t| ==> t[k] == s[a + k];
  }

  /** Conversely, a path that ends in a dotted extension with something
      before it inside the file name has that extension as its suffix. */
  lemma HasExtensionSuffix(path: string, ext: string)
    requires |ext| >= 2 && ext[0] == '.' && '.' !in ext[1..] && '/' !in ext
    requires HasExtension(path, ext)
    ensures Suffix(Name(path)) == ext
  {
    var dot := |path| - |ext|;
    assert path[dot..] == ext;
    assert forall k :: dot <= k < |path| ==> path[k] == ext[k - dot];
    assert forall k :: dot - 1 <= k < |path| ==> path[k] != '/' by {
      forall k | dot <= k < |path| ensures path[k] != '/' { assert ext[k - dot] in ext; }
    }
    assert forall k :: dot < k < |path| ==> path[k] != '.' by {
      forall k | dot < k < |path| ensures path[k] != '.' { assert ext[k - dot] == ext[1..][k - dot - 1]; }
    }
    var a := LastIndexOf(path, '/') + 1;
    assert a <= dot - 1;
    LastIndexOfSlice(path, '.', a, dot);
    assert path[a..][dot - a..] == ext;
  }

  /** A name that is something followed by one of the three extensions
      passes the filter. */
  lemma HasExtensionIsMarkdown(path: string, ext: string)
    requires ext in [".md", ".mkd", ".markdown"] && HasExtension(path, ext)
    ensures IsMarkdown(path)
  {
    assert ext[1..] in ["md", "mkd", "markdown"];
    HasExtensionSuffix(path, ext);
  }

  /** The filter accepts exactly the names ending in a Markdown extension
      with something before it. */
  lemma IsMarkdownIff(path: string)
    ensures IsMarkdown(path) <==>
              HasExtension(path, ".md") || HasExtension(path, ".mkd") || HasExtension(path, ".markdown")
  {
    if IsMarkdown(path) {
      IsMarkdownHasExtension(path);
    }
    if HasExtension(path, ".md") {
      HasExtensionIsMarkdown(path, ".md");
    } else if HasExtension(path, ".mkd") {
      HasExtensionIsMarkdown(path, ".mkd");
    } else if HasExtension(path, ".markdown") {
      HasExtensionIsMarkdown(path, ".markdown");
    }
  }
}
