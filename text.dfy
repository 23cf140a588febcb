/** Text primitives the link checker is built from. Each one stands for a
    Python built-in that mdlinkcheck.py relies on: str.strip, str.split,
    substring search, ASCII lower-casing, reading a file in text mode
    (universal newlines, readlines) and decimal formatting of an int. */
module Text {

  datatype Option<T> = None | Some(value: T)

  // ---------------------------------------------------------------------
  // Whitespace and str.strip
  // ---------------------------------------------------------------------

  /** Python's str.isspace for one character: the ASCII controls \t..\r,
      \x1c..\x1f, the space, and the Unicode separators. */
  predicate IsSpace(c: char)
  {
    ('\t' <= c <= '\r') || ('\U{1C}' <= c <= ' ') || c == '\U{85}' || c == '\U{A0}'
    || c == '\U{1680}' || ('\U{2000}' <= c <= '\U{200A}') || c == '\U{2028}' || c == '\U{2029}'
    || c == '\U{202F}' || c == '\U{205F}' || c == '\U{3000}'
  }

  /** The longest suffix of s that does not start with whitespace. */
  function TrimLeft(s: string): (r: string)
    ensures |r| <= |s| && r == s[|s| - |r|..]
    ensures forall k :: 0 <= k < |s| - |r| ==> IsSpace(s[k])
    ensures r != [] ==> !IsSpace(r[0])
  {
    if s != [] && IsSpace(s[0]) then TrimLeft(s[1..]) else s
  }

  /** The longest prefix of s that does not end with whitespace. */
  function TrimRight(s: string): (r: string)
    ensures |r| <= |s| && r == s[..|r|]
    ensures forall k :: |r| <= k < |s| ==> IsSpace(s[k])
    ensures r != [] ==> !IsSpace(r[|r| - 1])
  {
    if s != [] && IsSpace(s[|s| - 1]) then TrimRight(s[..|s| - 1]) else s
  }

  /** r is s with the whitespace before position i and after position
      i + |r| cut off. */
  predicate StrippedAt(s: string, r: string, i: nat)
  {
    i + |r| <= |s| && s[i..i + |r|] == r
    && (forall k :: 0 <= k < i ==> IsSpace(s[k]))
    && (forall k :: i + |r| <= k < |s| ==> IsSpace(s[k]))
  }

  /** Cutting whitespace off the front and then off the back leaves a
      contiguous piece with only whitespace around it. */
  lemma TrimmedIsStripped(s: string, left: string, r: string)
    requires |left| <= |s| && left == s[|s| - |left|..]
    requires forall k :: 0 <= k < |s| - |left| ==> IsSpace(s[k])
    requires |r| <= |left| && r == left[..|r|]
    requires forall k :: |r| <= k < |left| ==> IsSpace(left[k])
    ensures StrippedAt(s, r, |s| - |left|)
  {
    var i := |s| - |left|;
    assert s[i..i + |r|] == left[..|r|];
    assert forall k :: i + |r| <= k < |s| ==> s[k] == left[k - i];
  }

  /** str.strip() with no argument: s with all leading and trailing
      whitespace removed, and nothing else changed. */
  function Strip(s: string): (r: string)
    ensures exists i :: StrippedAt(s, r, i)
    ensures r != [] ==> !IsSpace(r[0]) && !IsSpace(r[|r| - 1])
  {
    var left := TrimLeft(s);
    var r := TrimRight(left);
    TrimmedIsStripped(s, left, r);
    r
  }

  // ---------------------------------------------------------------------
  // Substring search (str.find / re.search on a literal pattern)
  // ---------------------------------------------------------------------

  /** pat occurs in text starting at position i. */
  predicate OccursAt(text: string, pat: string, i: nat)
  {
    i + |pat| <= |text| && text[i..i + |pat|] == pat
  }

  /** The first position at or after from where pat occurs, if any. */
  function IndexOf(text: string, pat: string, from: nat): (r: Option<nat>)
    ensures r.Some? ==> from <= r.value && OccursAt(text, pat, r.value)
    ensures forall k :: from <= k && (r.None? || k < r.value) ==> !OccursAt(text, pat, k)
    decreases |text| - from
  {
    if from + |pat| > |text| then None
    else if OccursAt(text, pat, from) then Some(from)
    else IndexOf(text, pat, from + 1)
  }

  /** pat occurs somewhere in text. */
  predicate Contains(text: string, pat: string)
  {
    IndexOf(text, pat, 0).Some?
  }

  lemma ContainsIff(text: string, pat: string)
    ensures Contains(text, pat) <==> exists i :: OccursAt(text, pat, i)
  {
  }

  lemma OccursAtChar(text: string, c: char, i: nat)
    ensures OccursAt(text, [c], i) <==> i < |text| && text[i] == c
  {
    if i < |text| {
      assert text[i..i + 1] == [text[i]];
    }
  }

  // ---------------------------------------------------------------------
  // ASCII lower-casing (re.IGNORECASE restricted to ASCII letters)
  // ---------------------------------------------------------------------

  function LowerChar(c: char): char
  {
    if 'A' <= c <= 'Z' then (c as int + 32) as char else c
  }

  function Lower(s: string): (r: string)
    ensures |r| == |s|
    ensures forall k :: 0 <= k < |s| ==> r[k] == LowerChar(s[k])
  {
    seq(|s|, k requires 0 <= k < |s| => LowerChar(s[k]))
  }

  // ---------------------------------------------------------------------
  // str.split(sep) for a one-character separator, and its inverse
  // ---------------------------------------------------------------------

  /** Number of occurrences of c in s. */
  function Count(s: string, c: char): nat
  {
    if s == [] then 0 else (if s[0] == c then 1 else 0) + Count(s[1..], c)
  }

  lemma {:induction false} CountZero(s: string, c: char)
    ensures Count(s, c) == 0 <==> c !in s
  {
    if s != [] {
      CountZero(s[1..], c);
      assert s == [s[0]] + s[1..];
    }
  }

  /** s cut at every occurrence of sep: one more piece than there are
      separators, and no piece holds the separator. */
  function Split(s: string, sep: char): (parts: seq<string>)
    ensures |parts| == Count(s, sep) + 1
    ensures forall p :: p in parts ==> sep !in p
    decreases |s|
  {
    if s == [] then [""]
    else
      var rest := Split(s[1..], sep);
      if s[0] == sep then [""] + rest else [[s[0]] + rest[0]] + rest[1..]
  }

  /** sep.join(parts). */
  function Join(parts: seq<string>, sep: char): string
  {
    if parts == [] then ""
    else if |parts| == 1 then parts[0]
    else parts[0] + [sep] + Join(parts[1..], sep)
  }

  /** Joining the pieces back together gives the original string. */
  lemma {:induction false} JoinSplit(s: string, sep: char)
    ensures Join(Split(s, sep), sep) == s
  {
    if s != [] {
      JoinSplit(s[1..], sep);
      var rest := Split(s[1..], sep);
      if s[0] == sep {
        assert Split(s, sep) == [""] + rest;
        assert ([""] + rest)[1..] == rest;
      } else {
        var parts := [[s[0]] + rest[0]] + rest[1..];
        assert Split(s, sep) == parts;
        if |rest| == 1 {
          assert Join(rest, sep) == rest[0];
        } else {
          assert parts[1..] == rest[1..];
          assert Join(rest, sep) == rest[0] + [sep] + Join(rest[1..], sep);
        }
      }
    }
  }

  /** Splitting a separator-free piece followed by a separator. */
  lemma {:induction false} SplitCons(a: string, sep: char, t: string)
    requires sep !in a
    ensures Split(a + [sep] + t, sep) == [a] + Split(t, sep)
    decreases |a|
  {
    var s := a + [sep] + t;
    if a != [] {
      SplitCons(a[1..], sep, t);
      assert s[1..] == a[1..] + [sep] + t;
      assert [s[0]] + a[1..] == a;
    } else {
      assert s[1..] == t;
    }
  }

  /** A separator-free string is one piece. */
  lemma {:induction false} SplitNone(a: string, sep: char)
    requires sep !in a
    ensures Split(a, sep) == [a]
    decreases |a|
  {
    if a != [] {
      SplitNone(a[1..], sep);
      assert [a[0]] + a[1..] == a;
    }
  }

  /** Splitting a join of separator-free pieces gives the pieces back. */
  lemma {:induction false} SplitJoin(parts: seq<string>, sep: char)
    requires parts != []
    requires forall p :: p in parts ==> sep !in p
    ensures Split(Join(parts, sep), sep) == parts
  {
    if |parts| == 1 {
      SplitNone(parts[0], sep);
    } else {
      SplitJoin(parts[1..], sep);
      SplitCons(parts[0], sep, Join(parts[1..], sep));
      assert [parts[0]] + parts[1..] == parts;
    }
  }

  // ---------------------------------------------------------------------
  // Reading a file in text mode: universal newlines, then readlines()
  // ---------------------------------------------------------------------

  /** Universal-newline translation: every "\r\n" and every lone '\r'
      becomes '\n'. */
  function Normalize(t: string): (r: string)
    ensures '\r' !in r
    decreases |t|
  {
    if t == [] then []
    else if t[0] == '\r' then
      "\n" + Normalize(if |t| > 1 && t[1] == '\n' then t[2..] else t[1..])
    else [t[0]] + Normalize(t[1..])
  }

  /** Text without '\r' is left alone by the translation. */
  lemma {:induction false} NormalizeIdentity(t: string)
    requires '\r' !in t
    ensures Normalize(t) == t
    decreases |t|
  {
    if t != [] {
      NormalizeIdentity(t[1..]);
      assert [t[0]] + t[1..] == t;
    }
  }

  /** The translation is idempotent. */
  lemma NormalizeIdempotent(t: string)
    ensures Normalize(Normalize(t)) == Normalize(t)
  {
    NormalizeIdentity(Normalize(t));
  }

  /** A "\r\n" pair after \r-free text becomes one '\n'. */
  lemma {:induction false} NormalizeCRLF(a: string, b: string)
    requires '\r' !in a
    ensures Normalize(a + "\r\n" + b) == a + "\n" + Normalize(b)
    decreases |a|
  {
    var t := a + "\r\n" + b;
    if a == [] {
      assert t[0] == '\r' && t[1] == '\n' && t[2..] == b;
    } else {
      assert t[0] == a[0] && t[1..] == a[1..] + "\r\n" + b;
      NormalizeCRLF(a[1..], b);
      assert a + "\n" + Normalize(b) == [a[0]] + (a[1..] + "\n" + Normalize(b));
    }
  }

  /** A '\r' after \r-free text and not followed by '\n' becomes '\n'. */
  lemma {:induction false} NormalizeCR(a: string, b: string)
    requires '\r' !in a
    requires b == [] || b[0] != '\n'
    ensures Normalize(a + "\r" + b) == a + "\n" + Normalize(b)
    decreases |a|
  {
    var t := a + "\r" + b;
    if a == [] {
      assert t[0] == '\r' && t[1..] == b;
    } else {
      assert t[0] == a[0] && t[1..] == a[1..] + "\r" + b;
      NormalizeCR(a[1..], b);
      assert a + "\n" + Normalize(b) == [a[0]] + (a[1..] + "\n" + Normalize(b));
    }
  }

  /** readlines(): the text cut after every '\n'; each line keeps its
      terminator, the last one may lack it. */
  function SplitLines(t: string): (lines: seq<string>)
    ensures forall i :: 0 <= i < |lines| ==> lines[i] != []
    ensures forall i :: 0 <= i < |lines| - 1 ==> lines[i][|lines[i]| - 1] == '\n'
    ensures forall i, k :: 0 <= i < |lines| && 0 <= k < |lines[i]| - 1 ==> lines[i][k] != '\n'
    decreases |t|
  {
    if t == [] then []
    else
      match IndexOf(t, "\n", 0)
      case None =>
        assert forall k :: 0 <= k < |t| ==> t[k] != '\n' by {
          forall k | 0 <= k < |t| ensures t[k] != '\n' { OccursAtChar(t, '\n', k); }
        }
        [t]
      case Some(n) =>
        OccursAtChar(t, '\n', n);
        assert forall k :: 0 <= k < n ==> t[k] != '\n' by {
          forall k | 0 <= k < n ensures t[k] != '\n' { OccursAtChar(t, '\n', k); }
        }
        [t[..n + 1]] + SplitLines(t[n + 1..])
  }

  function Concat(lines: seq<string>): string
  {
    if lines == [] then "" else lines[0] + Concat(lines[1..])
  }

  /** No text is lost or added by cutting it into lines. */
  lemma {:induction false} ConcatSplitLines(t: string)
    ensures Concat(SplitLines(t)) == t
    decreases |t|
  {
    if t != [] {
      match IndexOf(t, "\n", 0)
      case None =>
      case Some(n) =>
        ConcatSplitLines(t[n + 1..]);
        assert t[..n + 1] + t[n + 1..] == t;
    }
  }

  /** f.readlines() / read_text() on a file opened in text mode. */
  function ReadLines(text: string): seq<string>
  {
    SplitLines(Normalize(text))
  }

  // ---------------------------------------------------------------------
  // Decimal rendering of a line number (f"{n}")
  // ---------------------------------------------------------------------

  predicate IsDigit(c: char)
  {
    '0' <= c <= '9'
  }

  function DigitChar(d: nat): (c: char)
    requires d < 10
    ensures IsDigit(c) && c as int - '0' as int == d
  {
    ('0' as int + d) as char
  }

  /** The decimal digits of n, most significant first. */
  function NatToString(n: nat): (s: string)
    ensures s != [] && forall k :: 0 <= k < |s| ==> IsDigit(s[k])
    ensures |s| > 1 ==> s[0] != '0'
    decreases n
  {
    if n < 10 then [DigitChar(n)] else NatToString(n / 10) + [DigitChar(n % 10)]
  }

  function DigitValue(c: char): nat
    requires IsDigit(c)
  {
    c as int - '0' as int
  }

  /** The value a string of decimal digits denotes. */
  function ParseDigits(s: string): nat
    requires forall k :: 0 <= k < |s| ==> IsDigit(s[k])
  {
    if s == [] then 0
    else ParseDigits(s[..|s| - 1]) * 10 + DigitValue(s[|s| - 1])
  }

  /** The rendered line number reads back as the same number. */
  lemma {:induction false} NatToStringRoundTrip(n: nat)
    ensures ParseDigits(NatToString(n)) == n
    decreases n
  {
    if n >= 10 {
      NatToStringRoundTrip(n / 10);
      var s := NatToString(n);
      assert s[..|s| - 1] == NatToString(n / 10);
    }
  }

  /** Different line numbers are rendered differently. */
  lemma NatToStringInjective(m: nat, n: nat)
    requires NatToString(m) == NatToString(n)
    ensures m == n
  {
    NatToStringRoundTrip(m);
    NatToStringRoundTrip(n);
  }
}
