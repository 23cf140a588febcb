# mdlinkcheck — a Dafny model of the link-checking engine

mdlinkcheck walks a tree of Markdown documents and reports project-internal
links that do not resolve. For every line of a document it takes the first
inline link `[label](target)`. It ignores external `http://`/`https://`
targets, or announces them when asked to. It splits off a `#anchor`,
resolves the path part against the document's directory (an empty path part
means the document itself), and reports a missing target file. When the
file exists and an anchor was given, it reports the anchor if the file holds
no `<a name="anchor">` tag and no `# anchor` heading text (case ignored).

The model represents:

- the file system as a `map<string, string>` from path to raw file text;
  a path exists when it is a key;
- reading a file as universal-newline translation followed by `readlines()`
  (`Text.Normalize`, `Text.SplitLines`);
- everything the script prints per document as a returned sequence of lines
  of the form `<file>:<line>: <message>`;
- `root / name` as `root + "/" + name` (`Links.ChildPath`).

Files:

- `text.dfy` (module `Text`): the Python built-ins the checker relies on.
  These are `str.strip`, `str.split` and `join`, literal substring search,
  ASCII lower-casing, text-mode reading, and decimal line numbers.
- `links.dfy` (module `Links`): the per-link decisions, all pure functions.
  They cover link extraction, the external-link test, the fragment split,
  target resolution, anchor search and the Markdown suffix filter.
- `checker.dfy` (module `Checker`): `check_anchor_in_target_file` and
  `check_markdown_file`. The latter is a method with a loop over the lines,
  proved equal to the function `AllDiagnostics`. The lemmas there say what
  each kind of line yields.

## Model

| member | source | states |
|---|---|---|
| `Text.Strip` | mdlinkcheck.py:62 | the result is a contiguous piece of the line; everything cut off on either side is whitespace (Python's `isspace` set), and a non-empty result starts and ends with non-whitespace |
| `Text.IndexOf` | mdlinkcheck.py:25-26 | returns the first position at or after `from` where the pattern occurs literally, or None when there is none |
| `Text.Split` | mdlinkcheck.py:74 | `split(sep)` yields one more piece than there are separators, and no piece contains the separator |
| `Text.JoinSplit` | mdlinkcheck.py:74 | joining the pieces with the separator gives back the original string |
| `Text.SplitJoin` | mdlinkcheck.py:74 | splitting a join of separator-free pieces gives back the pieces |
| `Text.Normalize` | mdlinkcheck.py:58-59 | text-mode reading leaves no `\r` in the text (what each `\r` becomes is stated by `NormalizeCRLF` and `NormalizeCR`) |
| `Text.NormalizeCRLF` | mdlinkcheck.py:58-59 | a `\r\n` pair after `\r`-free text is read as a single `\n`, and the rest is translated independently |
| `Text.NormalizeCR` | mdlinkcheck.py:58-59 | a `\r` not followed by `\n`, after `\r`-free text, is read as `\n`, and the rest is translated independently |
| `Text.NormalizeIdempotent` | mdlinkcheck.py:58-59 | newline translation is idempotent |
| `Text.SplitLines` | mdlinkcheck.py:58-59 | `readlines()` yields non-empty lines; every line but the last ends in `\n`, and no line holds `\n` anywhere else |
| `Text.ConcatSplitLines` | mdlinkcheck.py:58-59 | concatenating the lines gives back the text, so nothing is lost or added |
| `Text.NatToString` | mdlinkcheck.py:32-33 | a line number is rendered as a non-empty string of decimal digits with no leading zero |
| `Text.NatToStringRoundTrip` | mdlinkcheck.py:61 | the rendered line number reads back as the same number |
| `Text.NatToStringInjective` | mdlinkcheck.py:61 | different line numbers are rendered differently |
| `Links.FirstLinkMatch` | mdlinkcheck.py:63 | any positions returned form a match of `\[.*?\]\((.*?)\)`: a `[`, a later `](`, and a `)` after that |
| `Links.FirstLinkMatchIsFirst` | mdlinkcheck.py:63 | whenever the pattern matches anywhere, a match is found, and it comes first in `re.search` order: leftmost start, then shortest label, then shortest target |
| `Links.ExtractTarget` | mdlinkcheck.py:63-67 | the captured target never contains `)` |
| `Links.ExtractTargetSpec` | mdlinkcheck.py:63-67 | a line yields no target exactly when the pattern matches nowhere in it; otherwise the target is the text between the leftmost, shortest match's `](` and its `)` |
| `Links.IsExternal` | mdlinkcheck.py:46 | a target classified external is at least seven characters long, starts with `http`, and holds `://` at position 4 or later |
| `Links.SkipS` | mdlinkcheck.py:46 | skips exactly the run of `s` that starts at the given position |
| `Links.IsExternalMatches` | mdlinkcheck.py:46 | a target classified external starts with `http`, some number of `s`, then `://` |
| `Links.MatchesIsExternal` | mdlinkcheck.py:46 | every target starting with `http`, some number of `s`, then `://` is classified external |
| `Links.IsExternalIff` | mdlinkcheck.py:46-47 | the external test is exactly `re.match(r"https*://", t)`, in both directions |
| `Links.SplitFragment` | mdlinkcheck.py:73-76 | either the target stays whole with an empty anchor, or it is a `#`-free path part and a `#`-free anchor joined by `#` |
| `Links.SplitFragmentExact` | mdlinkcheck.py:73-76 | with exactly one `#` the target is cut there into a `#`-free path part and a `#`-free anchor; with zero or two or more `#` the target stays whole and the anchor is empty (the ValueError path) |
| `Links.SplitFragmentOfJoin` | mdlinkcheck.py:73-76 | a `#`-free path part and a `#`-free anchor joined by `#` split back into themselves |
| `Links.SplitFragmentLocal` | mdlinkcheck.py:73-79 | a target that starts with its only `#` has an empty path part, and the anchor is everything after the `#` |
| `Links.Resolve` | mdlinkcheck.py:78-83 | an empty path part means the current file, marked as a local anchor; any other part means `root/part`, not local |
| `Links.ResolveLink` | mdlinkcheck.py:73-83 | a link to the current file resolves to that file; any other link resolves to a path under `root/` |
| `Links.ResolveLinkLocalIff` | mdlinkcheck.py:73-83 | a link resolves to the current file (local anchor) exactly when its target is empty or is `#` followed by text with no further `#`; otherwise it resolves to `root/part` |
| `Links.AnchorFound` | mdlinkcheck.py:25-28 | an anchor can only be found in content at least two characters longer than the anchor (the shorter of the two searched patterns is `# A`) |
| `Links.AnchorFoundIff` | mdlinkcheck.py:25-29 | an anchor is found exactly when `<a name="A">` occurs verbatim in the content, or `# A` occurs at some position ignoring ASCII case |
| `Links.HeadingMatchIsPrefixClosed` | mdlinkcheck.py:26 | the heading match is a substring match: if `# A…` occurs, the shorter anchor `A` is found too |
| `Links.HeadingFoundExample` | mdlinkcheck.py:26 | the heading `## Section One` satisfies the anchor `section one` (case ignored) |
| `Links.HeadingNotFoundExample` | mdlinkcheck.py:26 | the heading `## Section One` does not satisfy the slug-style anchor `section-one` |
| `Links.AsWrittenAgreesWithoutDot` | mdlinkcheck.py:25 | for anchors without `.`, the dot reading of the unescaped tag pattern and the literal search agree; this is the source's search only for anchors with no regular-expression metacharacter |
| `Links.UnescapedAnchorFinding` | mdlinkcheck.py:25 | the unescaped search finds the anchor `v1.2` in a text that only holds `<a name="v1x2">`, although the literal tag is absent |
| `Links.Suffix` | mdlinkcheck.py:101 | `suffix` is empty, or a proper tail of the name that starts with its only `.`, with at least one character after the dot |
| `Links.IsMarkdown` | mdlinkcheck.py:101 | an accepted file has a name of at least four characters |
| `Links.HasExtensionSuffix` | mdlinkcheck.py:101 | a path ending in a dotted extension, with something before it in the file name, has that extension as its `suffix` |
| `Links.SuffixIsExtension` | mdlinkcheck.py:101 | whenever the file name has a non-empty suffix, the path ends in that suffix and the file name has at least one character before it |
| `Links.IsMarkdownHasExtension` | mdlinkcheck.py:101 | a file the filter accepts ends in `.md`, `.mkd` or `.markdown`, with at least one character of its name before it |
| `Links.HasExtensionIsMarkdown` | mdlinkcheck.py:101 | every such file is accepted |
| `Links.IsMarkdownIff` | mdlinkcheck.py:101 | the suffix filter accepts exactly those files, in both directions (so `.md` alone and `dir/.md` are rejected) |
| `Checker.ExternalNotice` | mdlinkcheck.py:50-52 | the notice starts with `file:n:`, continues with " Not checking external link: " and ends with the URL |
| `Checker.TargetNotFound` | mdlinkcheck.py:86-87 | the diagnostic starts with `file:n:`, continues with " Target file not found: " and ends with the missing path in single quotes |
| `Checker.AnchorNotFound` | mdlinkcheck.py:31-38 | both wordings start with `file:n:` and end with the anchor in single quotes. The local wording is exactly " Anchor not found: " between the two, so it does not name the file; the cross-file wording continues with " Anchor not found in target file '<path>': " |
| `Checker.DocumentOutcome` | mdlinkcheck.py:56-59 | a document cannot be opened exactly when it is missing, and the failure names it; otherwise it gets at most one diagnostic per line |
| `Checker.CheckAnchor` | mdlinkcheck.py:15-38 | nothing is emitted exactly when the anchor is found in the target's text; otherwise exactly one "Anchor not found" diagnostic is emitted |
| `Checker.LinkDiagnostics` | mdlinkcheck.py:73-93 | an internal target yields at most one diagnostic, and it starts with `file:n:` |
| `Checker.LineDiagnostics` | mdlinkcheck.py:61-93 | a line yields at most one diagnostic, and it starts with `file:n:` |
| `Checker.AllDiagnostics` | mdlinkcheck.py:61-93 | a document yields at most one diagnostic per line, each starting with `file:n:` for some line number 1 ≤ n ≤ number of lines |
| `Checker.CheckMarkdownFile` | mdlinkcheck.py:56-93 | the loop emits exactly the line-by-line diagnostics of the document in line order, or reports that a missing file cannot be opened |
| `Checker.DiagnosticOrigin` | mdlinkcheck.py:61 | every diagnostic of a document is what line n yields, for its 1-based line number n, from that line's text |
| `Checker.NoLinksNoDiagnostics` | mdlinkcheck.py:61-65 | a document with no link on any line yields no diagnostic |
| `Checker.NoLinkLine` | mdlinkcheck.py:63-65 | a line the link pattern does not match yields nothing |
| `Checker.ExternalLine` | mdlinkcheck.py:46-71 | an external target yields "Not checking external link: url" exactly when show is set, and nothing otherwise; what it yields does not depend on the file system or the root, so it is never split, resolved or looked up |
| `Checker.SelfReferenceLine` | mdlinkcheck.py:78-93 | an empty target or `#anchor` never yields "Target file not found" (the document exists). It yields nothing when the anchor is empty or found in the document, and otherwise the local "Anchor not found: 'A'" wording |
| `Checker.SelfReferenceLink` | mdlinkcheck.py:78-93 | a target with an empty path part is checked against the document itself: nothing for an empty or found anchor, otherwise the local "Anchor not found: 'A'" wording |
| `Checker.PathAndAnchorLine` | mdlinkcheck.py:73-93 | for a target `p#a` with non-empty `p`, a missing `root/p` yields exactly one "Target file not found" naming it, and the anchor is not checked. If `root/p` exists, an empty or found anchor yields nothing; otherwise it yields the cross-file wording naming `root/p` and quoting the anchor |
| `Checker.PlainPathLine` | mdlinkcheck.py:73-88 | a non-empty target with zero, or two or more, `#` is looked up whole as `root/t`: missing yields exactly one "Target file not found", present yields nothing |

## Left out

- Directory traversal (`Path.walk` and its `on_error=print`, mdlinkcheck.py:96-103) is I/O and is not modelled. Only its suffix predicate (line 101) is: `Links.IsMarkdown`.
- Reading files is modelled as a lookup in the map. Read errors other than a missing document (permissions, text decoding) are not modelled. A missing document gives `Checker.CannotOpen`, which stands for the `FileNotFoundError` raised by `file.open()`.
- Directories as link targets: `exists()` is also true for a directory, and `read_text` on one would raise. The map holds files only, so a directory target reads as missing.
- `pathlib` joining and normalisation (absolute link targets, `.` and `..` segments, repeated `/`, `as_posix`): paths are treated as plain strings joined with `/`.
- Regular-expression metacharacters in an anchor: the anchor is put into both patterns unescaped. `Links.AnchorFound`, and so `Checker.CheckAnchor`, searches for it literally, `.` included; this agrees with the source for anchors without metacharacters. The source's reading of `.` as "any character" is modelled only for the tag search (`Links.AnchorTagFoundAsWritten`, used by the finding below), not for the heading search at mdlinkcheck.py:26. An anchor such as `a(b` (from `[x](#a(b)`) makes `re.search` raise `re.error` and abort the whole run. Such anchors are outside the model.
- `re.IGNORECASE` uses Unicode case folding; the model lowercases ASCII letters only.
- In the link pattern `.` does not match `\n`. The model has no such condition: a line holds `\n` only as its last character (`Text.SplitLines`), and `strip()` removes it before the pattern is applied.
- Links.AsWrittenAgreesWithoutDot: the as-written tag search (`Links.AnchorTagFoundAsWritten`) reads only `.` as special. For an anchor with another metacharacter, such as `a+` (which `re.search` lets match `<a name="aa">`), it is not the source's search, and the lemma says nothing about such anchors.
- Command-line handling, the banner lines and the hard-coded `SRCDIR` (mdlinkcheck.py:12, 106-115) are not modelled.
- `print` is replaced by returning the diagnostic lines: the message text is modelled, the output stream and the trailing newline of each line are not.

Behaviour of this revision of mdlinkcheck.py that the model keeps as it is:

- It has no directory-remapping rule.
- It gives no "anchor name is not quoted" warning: an unquoted `<a name=sec>` is simply not found.
- A heading match is a substring match anywhere in the text, not a match anchored at the start of a line.
- No heading slug is computed: the anchor is compared with the heading text as it stands, case ignored. `[x](#section-one)` does not match `## Section One`, because `-` is not a space (`Links.HeadingNotFoundExample`).
- External links are announced inline, one diagnostic per line. They are not collected into a sorted summary.
- The fragment split is `split("#")` with two-value unpacking, not a split at the first `#`. A target with two `#` keeps its whole text as the path.

## Findings

| source | as written | input that shows it | evidently intended | confidence | as-written member | corrected member |
|---|---|---|---|---|---|---|
| mdlinkcheck.py:25-26 | the anchor is interpolated into the `re.search` pattern without `re.escape`, so a `.` in it matches any character | `[x](t.md#v1.2)` where `t.md` holds only `<a name="v1x2">`: no diagnostic | search for the anchor text literally, which reports "Anchor not found … 'v1.2'" | high (not executed) | `Links.UnescapedAnchorFinding` | `Links.AnchorFoundIff` |
