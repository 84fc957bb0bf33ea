/**
 * The cell codec of the tab- and pipe-separated formats: `strtr` with the
 * escape map that `getDSVOptions` returns, read for decoding and flipped for
 * encoding.
 *
 * In the map literal the backslash entry is written `'\\'=>"\\"`; inside
 * single quotes `'\\'` is ONE backslash, so the entry maps a backslash to
 * itself, and a literal backslash is never escaped. `AsWritten` is that map;
 * `Corrected` is the map with the two-character escape `\\` the format
 * evidently intends.
 */
module Escapes {

  datatype Format = Tsv | Psv

  /** Which backslash entry the escape map carries. */
  datatype Escaping = AsWritten | Corrected

  /** The separator of each format. */
  function Separator(f: Format): char
  {
    match f
    case Tsv => '\t'
    case Psv => '|'
  }

  /** The characters that are written as a backslash and a letter. */
  function Special(f: Format): set<char>
  {
    {'\n', '\r', Separator(f)}
  }

  /** The letters that follow a backslash in an escape sequence. */
  function Letters(f: Format): set<char>
  {
    match f
    case Tsv => {'n', 'r', 't'}
    case Psv => {'n', 'r', 'p'}
  }

  /** The escape map as the ordered pairs of its PHP array literal. */
  function Pairs(f: Format, e: Escaping): seq<(string, string)>
  {
    var backslash := match e
      case AsWritten => ("\\", "\\")
      case Corrected => ("\\\\", "\\");
    match f
    case Tsv => [("\\n", "\n"), ("\\r", "\r"), backslash, ("\\t", "\t")]
    case Psv => [("\\n", "\n"), ("\\r", "\r"), backslash, ("\\p", "|")]
  }

  /** A PHP array built from ordered pairs: a later key overwrites an earlier one. */
  function ToMap(pairs: seq<(string, string)>): map<string, string>
  {
    if |pairs| == 0 then map[]
    else ToMap(pairs[..|pairs| - 1])[pairs[|pairs| - 1].0 := pairs[|pairs| - 1].1]
  }

  /** `array_flip` on ordered pairs: values become keys and keys values. */
  function Flip(pairs: seq<(string, string)>): seq<(string, string)>
  {
    seq(|pairs|, i requires 0 <= i < |pairs| => (pairs[i].1, pairs[i].0))
  }

  /** `getDSVOptions`: the separator and the escape map, flipped for encoding. */
  function Options(f: Format, e: Escaping, encode: bool): (char, map<string, string>)
  {
    (Separator(f), if encode then ToMap(Flip(Pairs(f, e))) else ToMap(Pairs(f, e)))
  }

  /** The decoding map, written out. */
  function DecodeMap(f: Format, e: Escaping): map<string, string>
  {
    match (f, e)
    case (Tsv, AsWritten) => map["\\n" := "\n", "\\r" := "\r", "\\" := "\\", "\\t" := "\t"]
    case (Psv, AsWritten) => map["\\n" := "\n", "\\r" := "\r", "\\" := "\\", "\\p" := "|"]
    case (Tsv, Corrected) => map["\\n" := "\n", "\\r" := "\r", "\\\\" := "\\", "\\t" := "\t"]
    case (Psv, Corrected) => map["\\n" := "\n", "\\r" := "\r", "\\\\" := "\\", "\\p" := "|"]
  }

  /** The encoding map, written out. */
  function EncodeMap(f: Format, e: Escaping): map<string, string>
  {
    match (f, e)
    case (Tsv, AsWritten) => map["\n" := "\\n", "\r" := "\\r", "\\" := "\\", "\t" := "\\t"]
    case (Psv, AsWritten) => map["\n" := "\\n", "\r" := "\\r", "\\" := "\\", "|" := "\\p"]
    case (Tsv, Corrected) => map["\n" := "\\n", "\r" := "\\r", "\\" := "\\\\", "\t" := "\\t"]
    case (Psv, Corrected) => map["\n" := "\\n", "\r" := "\\r", "\\" := "\\\\", "|" := "\\p"]
  }

  /** The map a four-entry PHP array literal builds. */
  lemma ToMapFour(p: seq<(string, string)>)
    requires |p| == 4
    ensures ToMap(p) == map[][p[0].0 := p[0].1][p[1].0 := p[1].1][p[2].0 := p[2].1][p[3].0 := p[3].1]
  {
    assert ToMap(p) == ToMap(p[..3])[p[3].0 := p[3].1];
    assert p[..3][..2] == p[..2] && p[..3][2] == p[2];
    assert ToMap(p[..3]) == ToMap(p[..2])[p[2].0 := p[2].1];
    assert p[..2][..1] == p[..1] && p[..2][1] == p[1];
    assert ToMap(p[..2]) == ToMap(p[..1])[p[1].0 := p[1].1];
    assert p[..1][..0] == [] && p[..1][0] == p[0];
    assert ToMap(p[..1]) == map[][p[0].0 := p[0].1];
  }

  /** The maps `getDSVOptions` builds are the ones written out above. */
  lemma OptionsMaps(f: Format, e: Escaping)
    ensures Options(f, e, false).0 == Separator(f)
    ensures Options(f, e, false).1 == DecodeMap(f, e)
    ensures Options(f, e, true).1 == EncodeMap(f, e)
  {
    ToMapFour(Pairs(f, e));
    ToMapFour(Flip(Pairs(f, e)));
  }

  /** The escape letter of a special character. */
  function LetterOf(f: Format, c: char): char
  {
    if c == '\n' then 'n' else if c == '\r' then 'r' else if f == Tsv then 't' else 'p'
  }

  /** Every decoding key is a backslash and at most one letter. */
  lemma DecodeMapKeys(f: Format, e: Escaping)
    ensures forall key :: key in DecodeMap(f, e) ==> 1 <= |key| <= 2 && key[0] == '\\'
    ensures forall c :: ['\\', c] in DecodeMap(f, e) ==> c in Letters(f) || (e == Corrected && c == '\\')
  {
  }

  /** The escape letters map back to their characters. */
  lemma DecodeMapValues(f: Format, e: Escaping)
    ensures forall c :: c in Special(f) ==>
      ['\\', LetterOf(f, c)] in DecodeMap(f, e) && DecodeMap(f, e)[['\\', LetterOf(f, c)]] == [c]
    ensures forall l :: l in Letters(f) ==>
      ['\\', l] in DecodeMap(f, e) && DecodeMap(f, e)[['\\', l]] == [Unescaped(f, l)]
    ensures e == AsWritten ==> "\\" in DecodeMap(f, e) && DecodeMap(f, e)["\\"] == "\\"
    ensures e == Corrected ==> "\\\\" in DecodeMap(f, e) && DecodeMap(f, e)["\\\\"] == "\\"
  {
  }

  /** Every decoding key starts with a backslash; the letters map back to their characters. */
  lemma DecodeMapFacts(f: Format, e: Escaping)
    ensures forall key :: key in DecodeMap(f, e) ==> 1 <= |key| <= 2 && key[0] == '\\'
    ensures forall c :: ['\\', c] in DecodeMap(f, e) ==> c in Letters(f) || (e == Corrected && c == '\\')
    ensures forall c :: c in Special(f) ==>
      ['\\', LetterOf(f, c)] in DecodeMap(f, e) && DecodeMap(f, e)[['\\', LetterOf(f, c)]] == [c]
    ensures forall l :: l in Letters(f) ==>
      ['\\', l] in DecodeMap(f, e) && DecodeMap(f, e)[['\\', l]] == [Unescaped(f, l)]
    ensures e == AsWritten ==> "\\" in DecodeMap(f, e) && DecodeMap(f, e)["\\"] == "\\"
    ensures e == Corrected ==> "\\\\" in DecodeMap(f, e) && DecodeMap(f, e)["\\\\"] == "\\"
  {
    DecodeMapKeys(f, e);
    DecodeMapValues(f, e);
  }

  /** Every encoding key is one character: the special ones and the backslash. */
  lemma EncodeMapFacts(f: Format, e: Escaping)
    ensures forall key :: key in EncodeMap(f, e) ==> |key| == 1
    ensures forall c :: [c] in EncodeMap(f, e) <==> c in Special(f) || c == '\\'
    ensures forall c :: c in Special(f) ==> EncodeMap(f, e)[[c]] == ['\\', LetterOf(f, c)]
    ensures EncodeMap(f, e)["\\"] == if e == AsWritten then "\\" else "\\\\"
  {
  }

  /**
   * The length of the longest key of `m` that is a prefix of `s`, trying
   * lengths from `n` down; 0 when none is.
   */
  function LongestKey(s: string, m: map<string, string>, n: nat): (k: nat)
    requires n <= |s|
    ensures k <= n
    ensures k > 0 ==> s[..k] in m
    ensures forall j :: k < j <= n ==> s[..j] !in m
  {
    if n == 0 then 0 else if s[..n] in m then n else LongestKey(s, m, n - 1)
  }

  /**
   * `strtr` with an array: at each position the longest matching key is
   * replaced and the scan resumes after it; replaced text is not rescanned.
   */
  function StrTr(s: string, m: map<string, string>): string
    decreases |s|
  {
    if |s| == 0 then ""
    else
      var k := LongestKey(s, m, |s|);
      if k == 0 then [s[0]] + StrTr(s[1..], m) else m[s[..k]] + StrTr(s[k..], m)
  }

  /** One step of `strtr` when every key has one or two characters. */
  lemma StrTrStep(s: string, m: map<string, string>)
    requires |s| > 0
    requires forall key :: key in m ==> 1 <= |key| <= 2
    ensures StrTr(s, m) ==
      if |s| >= 2 && s[..2] in m then m[s[..2]] + StrTr(s[2..], m)
      else if s[..1] in m then m[s[..1]] + StrTr(s[1..], m)
      else [s[0]] + StrTr(s[1..], m)
  {
    LongestShortKey(s, m);
    assert s[..1] == [s[0]];
  }

  /** With keys of one or two characters, the longest match is two, one or no characters long. */
  lemma LongestShortKey(s: string, m: map<string, string>)
    requires |s| > 0
    requires forall key :: key in m ==> 1 <= |key| <= 2
    ensures LongestKey(s, m, |s|) ==
      if |s| >= 2 && s[..2] in m then 2 else if s[..1] in m then 1 else 0
  {
    var k := LongestKey(s, m, |s|);
    if k > 0 {
      assert |s[..k]| == k;
    }
  }

  /** Decode one cell of a tab- or pipe-separated line. */
  function DecodeCell(f: Format, e: Escaping, s: string): string
  {
    StrTr(s, Options(f, e, false).1)
  }

  /** Encode one cell for a tab- or pipe-separated line. */
  function EncodeCell(f: Format, e: Escaping, s: string): string
  {
    StrTr(s, Options(f, e, true).1)
  }

  /** What encoding makes of one character. */
  function EncodeChar(f: Format, e: Escaping, c: char): (r: string)
    ensures 1 <= |r| <= 2
  {
    if c in Special(f) then ['\\', LetterOf(f, c)]
    else if c == '\\' then (if e == AsWritten then "\\" else "\\\\")
    else [c]
  }

  /** The control character an escape letter stands for. */
  function Unescaped(f: Format, l: char): char
  {
    if l == 'n' then '\n' else if l == 'r' then '\r' else Separator(f)
  }

  /** No backslash in the cell is directly followed by an escape letter. */
  ghost predicate NoLiteralEscape(f: Format, s: string)
  {
    forall i :: 0 <= i < |s| - 1 && s[i] == '\\' ==> s[i + 1] !in Letters(f)
  }

  /** Encoding works character by character. */
  lemma EncodeCons(f: Format, e: Escaping, s: string)
    requires |s| > 0
    ensures EncodeCell(f, e, s) == EncodeChar(f, e, s[0]) + EncodeCell(f, e, s[1..])
  {
    OptionsMaps(f, e);
    EncodeMapFacts(f, e);
    StrTrStep(s, EncodeMap(f, e));
    assert s[..1] == [s[0]];
    assert |s| >= 2 ==> s[..2] !in EncodeMap(f, e) by {
      if |s| >= 2 {
        assert |s[..2]| == 2;
      }
    }
  }

  /** The empty cell encodes and decodes to itself. */
  lemma EmptyCell(f: Format, e: Escaping)
    ensures EncodeCell(f, e, "") == ""
    ensures DecodeCell(f, e, "") == ""
  {
  }

  /**
   * Every encoded cell is free of line breaks and of the separator, and it
   * begins with a backslash or with the cell's own first character.
   */
  lemma {:induction false} EncodeClean(f: Format, e: Escaping, s: string)
    ensures forall i :: 0 <= i < |EncodeCell(f, e, s)| ==> EncodeCell(f, e, s)[i] !in Special(f)
    ensures |s| > 0 ==> |EncodeCell(f, e, s)| > 0
    ensures |s| > 0 ==> EncodeCell(f, e, s)[0] in {'\\', s[0]}
    ensures |s| > 0 && s[0] in Letters(f) ==> EncodeCell(f, e, s)[0] == s[0]
    decreases |s|
  {
    if |s| > 0 {
      EncodeCons(f, e, s);
      EncodeClean(f, e, s[1..]);
      var c := EncodeChar(f, e, s[0]);
      assert forall i :: 0 <= i < |c| ==> c[i] !in Special(f);
      var r := EncodeCell(f, e, s);
      forall i | 0 <= i < |r| ensures r[i] !in Special(f) {
        if i >= |c| {
          assert r[i] == EncodeCell(f, e, s[1..])[i - |c|];
        }
      }
    } else {
      EmptyCell(f, e);
    }
  }

  /**
   * Decoding an encoded character followed by anything gives the character
   * back, unless the character is a backslash that the as-written map leaves
   * bare and an escape letter follows it.
   */
  lemma DecodeCons(f: Format, e: Escaping, c: char, y: string)
    requires e == Corrected || c != '\\' || |y| == 0 || y[0] !in Letters(f)
    ensures DecodeCell(f, e, EncodeChar(f, e, c) + y) == [c] + DecodeCell(f, e, y)
  {
    OptionsMaps(f, e);
    DecodeMapFacts(f, e);
    var m := DecodeMap(f, e);
    var x := EncodeChar(f, e, c);
    var s := x + y;
    StrTrStep(s, m);
    assert s[..|x|] == x;
    assert s[|x|..] == y;
    if c in Special(f) {
      assert s[..2] == ['\\', LetterOf(f, c)];
    } else if c == '\\' && e == Corrected {
      assert s[..2] == "\\\\";
    } else if c == '\\' {
      assert s[..1] == "\\";
      assert |s| >= 2 ==> s[..2] == ['\\', y[0]];
    } else {
      assert x == [c];
      assert s[..1] == [c];
      assert |s| >= 2 ==> s[..2][0] == c;
    }
  }

  /** The condition holds of a cell when it holds of its tail and the head is harmless. */
  lemma NoLiteralEscapeTail(f: Format, s: string)
    requires |s| > 0
    requires s[0] != '\\' || |s| == 1 || s[1] !in Letters(f)
    ensures NoLiteralEscape(f, s) <==> NoLiteralEscape(f, s[1..])
  {
    if NoLiteralEscape(f, s[1..]) {
      forall i | 0 <= i < |s| - 1 && s[i] == '\\' ensures s[i + 1] !in Letters(f) {
        if i > 0 {
          assert s[1..][i - 1] == s[i];
        }
      }
    }
    if NoLiteralEscape(f, s) {
      forall i | 0 <= i < |s[1..]| - 1 && s[1..][i] == '\\' ensures s[1..][i + 1] !in Letters(f) {
        assert s[1..][i] == s[i + 1];
      }
    }
  }

  /** Under the as-written map a leading backslash and escape letter decode as one character. */
  lemma BareBackslashEscapes(f: Format, s: string)
    requires |s| > 1 && s[0] == '\\' && s[1] in Letters(f)
    ensures DecodeCell(f, AsWritten, EncodeCell(f, AsWritten, s)) != s
  {
    var t := EncodeCell(f, AsWritten, s);
    EncodeBareBackslash(f, s);
    DecodeEscapeFirst(f, t, s[1]);
    assert DecodeCell(f, AsWritten, t)[0] != s[0];
  }

  /** Under the as-written map a backslash before an escape letter is encoded as the same two characters. */
  lemma EncodeBareBackslash(f: Format, s: string)
    requires |s| > 1 && s[0] == '\\' && s[1] in Letters(f)
    ensures |EncodeCell(f, AsWritten, s)| >= 2 && EncodeCell(f, AsWritten, s)[..2] == ['\\', s[1]]
  {
    EncodeCons(f, AsWritten, s);
    var y := EncodeCell(f, AsWritten, s[1..]);
    EncodeClean(f, AsWritten, s[1..]);
    assert EncodeChar(f, AsWritten, s[0]) == "\\" && y[0] == s[1];
    PairPrefix('\\', y);
  }

  /** A backslash and an escape letter at the front decode to the control character. */
  lemma DecodeEscapeFirst(f: Format, t: string, l: char)
    requires |t| >= 2 && t[..2] == ['\\', l] && l in Letters(f)
    ensures |DecodeCell(f, AsWritten, t)| > 0 && DecodeCell(f, AsWritten, t)[0] == Unescaped(f, l)
  {
    OptionsMaps(f, AsWritten);
    DecodeMapFacts(f, AsWritten);
    var m := DecodeMap(f, AsWritten);
    assert t[..2] in m && m[t[..2]] == [Unescaped(f, l)];
    StrTrStep(t, m);
  }

  /** A character put before a non-empty string starts a pair with the string's first character. */
  lemma PairPrefix(a: char, y: string)
    requires |y| > 0
    ensures ([a] + y)[..2] == [a, y[0]]
  {
  }

  /**
   * Cells round-trip under the corrected map; under the as-written map they
   * round-trip exactly when no backslash is followed by an escape letter.
   */
  lemma {:induction false} CellRoundTrip(f: Format, e: Escaping, s: string)
    ensures DecodeCell(f, e, EncodeCell(f, e, s)) == s <==> (e == Corrected || NoLiteralEscape(f, s))
    decreases |s|
  {
    if |s| == 0 {
      EmptyCell(f, e);
    } else if e == AsWritten && s[0] == '\\' && |s| > 1 && s[1] in Letters(f) {
      BareBackslashEscapes(f, s);
    } else {
      CellRoundTrip(f, e, s[1..]);
      RoundTripCons(f, e, s);
    }
  }

  /** The round trip of a cell whose head is harmless succeeds exactly when its tail's does. */
  lemma RoundTripCons(f: Format, e: Escaping, s: string)
    requires |s| > 0 && (e == Corrected || s[0] != '\\' || |s| == 1 || s[1] !in Letters(f))
    requires DecodeCell(f, e, EncodeCell(f, e, s[1..])) == s[1..] <==> (e == Corrected || NoLiteralEscape(f, s[1..]))
    ensures DecodeCell(f, e, EncodeCell(f, e, s)) == s <==> (e == Corrected || NoLiteralEscape(f, s))
  {
    EncodeCons(f, e, s);
    var y := EncodeCell(f, e, s[1..]);
    HarmlessHead(f, e, s);
    DecodeCons(f, e, s[0], y);
    HeadAndTail(s);
    if e == AsWritten {
      NoLiteralEscapeTail(f, s);
    }
  }

  /** A harmless head stays harmless once the tail is encoded. */
  lemma HarmlessHead(f: Format, e: Escaping, s: string)
    requires |s| > 0 && (e == Corrected || s[0] != '\\' || |s| == 1 || s[1] !in Letters(f))
    ensures var y := EncodeCell(f, e, s[1..]);
      e == Corrected || s[0] != '\\' || |y| == 0 || y[0] !in Letters(f)
  {
    EncodeClean(f, e, s[1..]);
    if |s| == 1 {
      assert s[1..] == "";
      EmptyCell(f, e);
    }
  }

  /** A non-empty cell is its first character followed by the rest. */
  lemma HeadAndTail(s: string)
    requires |s| > 0
    ensures s == [s[0]] + s[1..]
  {
  }

  /** A cell holding a backslash and the letter n comes back as a line break. */
  lemma LiteralEscapeChanges()
    ensures EncodeCell(Tsv, AsWritten, "\\n") == "\\n"
    ensures DecodeCell(Tsv, AsWritten, "\\n") == "\n"
  {
    LiteralEscapeKept();
    LiteralEscapeRead();
  }

  /** The as-written map encodes a backslash and the letter n as they are. */
  lemma LiteralEscapeKept()
    ensures EncodeCell(Tsv, AsWritten, "\\n") == "\\n"
  {
    EncodeCons(Tsv, AsWritten, "\\n");
    EncodeCons(Tsv, AsWritten, "n");
    assert "\\n"[1..] == "n";
    assert "n"[1..] == "";
    EmptyCell(Tsv, AsWritten);
  }

  /** Decoding reads a backslash and the letter n as a line break. */
  lemma LiteralEscapeRead()
    ensures DecodeCell(Tsv, AsWritten, "\\n") == "\n"
  {
    EmptyCell(Tsv, AsWritten);
    OptionsMaps(Tsv, AsWritten);
    StrTrStep("\\n", DecodeMap(Tsv, AsWritten));
    assert "\\n"[..2] == "\\n";
    assert "\\n"[2..] == "";
  }
}
