/**
 * The PHP string functions the codecs use: `implode`, `explode` with a
 * one-character separator, the trims, and ASCII `strtolower`.
 */
module Text {

  /** `implode`: the parts with the separator between consecutive ones. */
  function Join(parts: seq<string>, sep: char): string
  {
    if |parts| == 0 then ""
    else if |parts| == 1 then parts[0]
    else parts[0] + [sep] + Join(parts[1..], sep)
  }

  /**
   * `explode` on a one-character separator: never empty, no part holds the
   * separator, and joining the parts again gives back the string.
   */
  function Split(s: string, sep: char): (r: seq<string>)
    ensures |r| >= 1
    ensures forall i :: 0 <= i < |r| ==> sep !in r[i]
    ensures Join(r, sep) == s
  {
    if |s| == 0 then [""]
    else if s[0] == sep then
      var rest := Split(s[1..], sep);
      assert s == [sep] + s[1..];
      [""] + rest
    else
      var rest := Split(s[1..], sep);
      assert s == [s[0]] + s[1..];
      assert |rest| > 1 ==> Join(rest, sep) == rest[0] + [sep] + Join(rest[1..], sep);
      [[s[0]] + rest[0]] + rest[1..]
  }

  /** Splitting a separator-free part followed by the separator peels it off. */
  lemma {:induction false} SplitPeel(a: string, rest: string, sep: char)
    requires sep !in a
    ensures Split(a + [sep] + rest, sep) == [a] + Split(rest, sep)
    decreases |a|
  {
    if |a| == 0 {
      assert a + [sep] + rest == [sep] + rest;
      assert ([sep] + rest)[1..] == rest;
    } else {
      var s := a + [sep] + rest;
      assert s[0] == a[0] && s[0] != sep;
      assert s[1..] == a[1..] + [sep] + rest;
      SplitPeel(a[1..], rest, sep);
      var tail := Split(s[1..], sep);
      assert tail[0] == a[1..] && tail[1..] == Split(rest, sep);
      assert [a[0]] + a[1..] == a;
      assert Split(s, sep) == [[s[0]] + tail[0]] + tail[1..];
    }
  }

  /** A string without the separator splits into itself. */
  lemma {:induction false} SplitWhole(a: string, sep: char)
    requires sep !in a
    ensures Split(a, sep) == [a]
    decreases |a|
  {
    if |a| > 0 {
      SplitWhole(a[1..], sep);
      assert [a[0]] + a[1..] == a;
    }
  }

  /** `explode` undoes `implode` when no part contains the separator. */
  lemma {:induction false} SplitJoin(parts: seq<string>, sep: char)
    requires |parts| >= 1
    requires forall i :: 0 <= i < |parts| ==> sep !in parts[i]
    ensures Split(Join(parts, sep), sep) == parts
    decreases |parts|
  {
    if |parts| == 1 {
      SplitWhole(parts[0], sep);
    } else {
      SplitJoin(parts[1..], sep);
      SplitPeel(parts[0], Join(parts[1..], sep), sep);
      assert [parts[0]] + parts[1..] == parts;
    }
  }

  /** Remove trailing characters from the set (`rtrim`). */
  function RTrim(s: string, chars: set<char>): (r: string)
    ensures r <= s
    ensures |r| > 0 ==> r[|r| - 1] !in chars
    ensures forall i :: |r| <= i < |s| ==> s[i] in chars
  {
    if |s| > 0 && s[|s| - 1] in chars then RTrim(s[..|s| - 1], chars) else s
  }

  /** Trailing characters of the set come off, and the rest stays when it ends outside the set. */
  lemma {:induction false} RTrimSuffix(core: string, tail: string, chars: set<char>)
    requires |core| > 0 && core[|core| - 1] !in chars
    requires forall i :: 0 <= i < |tail| ==> tail[i] in chars
    ensures RTrim(core + tail, chars) == core
    decreases |tail|
  {
    if |tail| == 0 {
      assert core + tail == core;
    } else {
      var s := core + tail;
      assert s[..|s| - 1] == core + tail[..|tail| - 1];
      RTrimSuffix(core, tail[..|tail| - 1], chars);
    }
  }

  /** Leading characters of the set come off, and the rest stays when it starts outside the set. */
  lemma {:induction false} LTrimPrefix(lead: string, rest: string, chars: set<char>)
    requires |rest| > 0 && rest[0] !in chars
    requires forall i :: 0 <= i < |lead| ==> lead[i] in chars
    ensures LTrim(lead + rest, chars) == rest
    decreases |lead|
  {
    if |lead| == 0 {
      assert lead + rest == rest;
    } else {
      assert (lead + rest)[1..] == lead[1..] + rest;
      LTrimPrefix(lead[1..], rest, chars);
    }
  }

  /** Stripping a string surrounded by characters of the set leaves the part between them. */
  lemma StripAround(lead: string, core: string, tail: string, chars: set<char>)
    requires |core| > 0 && core[0] !in chars && core[|core| - 1] !in chars
    requires forall i :: 0 <= i < |lead| ==> lead[i] in chars
    requires forall i :: 0 <= i < |tail| ==> tail[i] in chars
    ensures Strip(lead + core + tail, chars) == core
  {
    assert lead + core + tail == lead + (core + tail);
    LTrimPrefix(lead, core + tail, chars);
    RTrimSuffix(core, tail, chars);
  }

  /** Remove leading characters from the set (`ltrim`). */
  function LTrim(s: string, chars: set<char>): (r: string)
    ensures |r| <= |s| && r == s[|s| - |r|..]
    ensures |r| > 0 ==> r[0] !in chars
    ensures forall i :: 0 <= i < |s| - |r| ==> s[i] in chars
  {
    if |s| > 0 && s[0] in chars then LTrim(s[1..], chars) else s
  }

  /** Remove characters of the set from both ends. */
  function Strip(s: string, chars: set<char>): (r: string)
    ensures |r| > 0 ==> r[0] !in chars && r[|r| - 1] !in chars
  {
    RTrim(LTrim(s, chars), chars)
  }

  /** A character the string lacks is lacking after stripping too. */
  lemma StripWithout(s: string, chars: set<char>, c: char)
    requires c !in s
    ensures c !in Strip(s, chars)
  {
    var l := LTrim(s, chars);
    assert forall k :: 0 <= k < |l| ==> l[k] == s[|s| - |l| + k];
    var r := RTrim(l, chars);
    assert forall k :: 0 <= k < |r| ==> r[k] == l[k];
  }

  /** The characters PHP's `trim` removes by default. */
  const TrimChars: set<char> := {' ', '\t', '\n', '\r', '\0', '\U{B}'}

  /** The characters a PCRE `\s` matches. */
  const RegexSpace: set<char> := {' ', '\t', '\n', '\U{B}', '\U{C}', '\r'}

  /** PHP `trim` with its default character set. */
  function Trim(s: string): string
  {
    Strip(s, TrimChars)
  }

  /** ASCII `strtolower`: A-Z become a-z, every other character stays. */
  function Lower(s: string): (r: string)
    ensures |r| == |s|
    ensures forall i :: 0 <= i < |s| ==>
      r[i] == if 'A' <= s[i] <= 'Z' then (s[i] as int + 32) as char else s[i]
    ensures forall i :: 0 <= i < |r| ==> !('A' <= r[i] <= 'Z')
    ensures r == s <==> forall i :: 0 <= i < |s| ==> !('A' <= s[i] <= 'Z')
  {
    seq(|s|, i requires 0 <= i < |s| =>
      if 'A' <= s[i] <= 'Z' then (s[i] as int + 32) as char else s[i])
  }

  /** A string without upper-case letters is its own lower case. */
  lemma LowerPlain(s: string)
    requires forall i :: 0 <= i < |s| ==> !('A' <= s[i] <= 'Z')
    ensures Lower(s) == s
  {
  }

  /** Lower-casing twice is lower-casing once. */
  lemma LowerIdempotent(s: string)
    ensures Lower(Lower(s)) == Lower(s)
  {
    LowerPlain(Lower(s));
  }
}
