/**
 * The parts of reading a comma-separated table that are not the CSV field
 * parser itself: the Excel-style `sep=` first line that names another
 * separator, and the trimming of every field.
 */
module Csv {
  import opened Tables
  import opened Text
  import opened Dsv

  /** The letters that `stripcslashes` turns into one control character. */
  const SimpleEscapes: map<char, char> := map[
    'n' := '\n', 'r' := '\r', 'a' := '\U{7}', 't' := '\t',
    'v' := '\U{B}', 'b' := '\U{8}', 'f' := '\U{C}', '\\' := '\\']

  predicate IsOctal(c: char)
  {
    '0' <= c <= '7'
  }

  predicate IsHex(c: char)
  {
    '0' <= c <= '9' || 'a' <= c <= 'f' || 'A' <= c <= 'F'
  }

  function HexValue(c: char): nat
    requires IsHex(c)
  {
    if '0' <= c <= '9' then c as nat - '0' as nat
    else if 'a' <= c <= 'f' then c as nat - 'a' as nat + 10
    else c as nat - 'A' as nat + 10
  }

  /** How many octal digits, at most three, start the string. */
  function OctalRun(s: string): (n: nat)
    ensures n <= 3 && n <= |s|
    ensures forall i :: 0 <= i < n ==> IsOctal(s[i])
    ensures n < 3 && n < |s| ==> !IsOctal(s[n])
  {
    if |s| > 0 && IsOctal(s[0]) then
      if |s| > 1 && IsOctal(s[1]) then
        if |s| > 2 && IsOctal(s[2]) then 3 else 2
      else 1
    else 0
  }

  /** The value of a run of octal digits, most significant first. */
  function OctalValue(s: string): nat
    requires forall i :: 0 <= i < |s| ==> IsOctal(s[i])
  {
    if |s| == 0 then 0
    else
      assert IsOctal(s[|s| - 1]);
      OctalValue(s[..|s| - 1]) * 8 + (s[|s| - 1] as nat - '0' as nat)
  }

  /**
   * `stripcslashes`: a backslash followed by one of `n r a t v b f \`
   * becomes that control character, `\x` with one or two hexadecimal digits
   * and `\` with one to three octal digits become the byte they denote
   * (modulo 256), a backslash before any other character is dropped, and a
   * backslash that ends the string stays.
   */
  function StripCSlashes(s: string): (r: string)
    ensures |r| <= |s|
    ensures |s| > 0 && s[0] != '\\' ==> |r| > 0 && r[0] == s[0]
    decreases |s|
  {
    if |s| == 0 then ""
    else if s[0] != '\\' || |s| == 1 then [s[0]] + StripCSlashes(s[1..])
    else if s[1] in SimpleEscapes then [SimpleEscapes[s[1]]] + StripCSlashes(s[2..])
    else if s[1] == 'x' && |s| > 2 && IsHex(s[2]) then
      if |s| > 3 && IsHex(s[3]) then
        [(HexValue(s[2]) * 16 + HexValue(s[3])) as char] + StripCSlashes(s[4..])
      else [HexValue(s[2]) as char] + StripCSlashes(s[3..])
    else
      var n := OctalRun(s[1..]);
      if n == 0 then [s[1]] + StripCSlashes(s[2..])
      else [(OctalValue(s[1..1 + n]) % 256) as char] + StripCSlashes(s[1 + n..])
  }

  /** A string without backslashes is left as it is. */
  lemma {:induction false} StripCSlashesPlain(s: string)
    requires '\\' !in s
    ensures StripCSlashes(s) == s
    decreases |s|
  {
    if |s| > 0 {
      StripCSlashesPlain(s[1..]);
      assert s == [s[0]] + s[1..];
    }
  }

  /**
   * The separator an Excel-style first line names: the line, trimmed and
   * unescaped, is `sep=` (in any letter case) followed by exactly one
   * character, which is the separator.
   */
  function SepHint(line: string): Option<char>
  {
    var hint := StripCSlashes(Trim(line));
    if |hint| == 5 && Lower(hint[..4]) == "sep=" then Some(hint[4]) else None
  }

  /** A hint whose unescaped, trimmed text is `sep=` and one character names that character. */
  lemma SepHintOf(line: string, prefix: string, c: char)
    requires StripCSlashes(Trim(line)) == prefix + [c]
    requires |prefix| == 4 && Lower(prefix) == "sep="
    ensures SepHint(line) == Some(c)
  {
    assert (prefix + [c])[..4] == prefix;
  }

  /** The first letter of a `sep=` prefix is not trimmed. */
  lemma SepPrefixStart(prefix: string)
    requires |prefix| == 4 && Lower(prefix) == "sep="
    ensures prefix[0] !in TrimChars && prefix[0] != '\\'
    ensures '\\' !in prefix
  {
    assert Lower(prefix)[0] == 's' && Lower(prefix)[1] == 'e' && Lower(prefix)[2] == 'p' && Lower(prefix)[3] == '=';
  }

  /** A plain `sep=` line names its character, whatever the letter case of `sep`. */
  lemma SepHintNames(prefix: string, c: char, lineEnd: string)
    requires |prefix| == 4 && Lower(prefix) == "sep="
    requires c !in TrimChars && c != '\\'
    requires forall i :: 0 <= i < |lineEnd| ==> lineEnd[i] in TrimChars
    ensures SepHint(prefix + [c] + lineEnd) == Some(c)
  {
    var core := prefix + [c];
    SepPrefixStart(prefix);
    StripAround("", core, lineEnd, TrimChars);
    assert "" + core + lineEnd == core + lineEnd;
    assert '\\' !in core;
    StripCSlashesPlain(core);
    SepHintOf(core + lineEnd, prefix, c);
  }

  /** A prefix without backslashes passes through unchanged. */
  lemma {:induction false} StripCSlashesPrefix(p: string, s: string)
    requires '\\' !in p
    ensures StripCSlashes(p + s) == p + StripCSlashes(s)
    decreases |p|
  {
    if |p| > 0 {
      StripCSlashesPrefix(p[1..], s);
      HeadAndTail(p, s);
      HeadAndTail(p, StripCSlashes(s));
      StripCSlashesPlainHead(p[0], p[1..] + s);
    } else {
      assert p + s == s;
    }
  }

  /** A non-empty prefix is its first character followed by the rest. */
  lemma HeadAndTail(p: string, s: string)
    requires |p| > 0
    ensures p + s == [p[0]] + (p[1..] + s)
  {
  }

  /** A first character other than a backslash is kept as it is. */
  lemma StripCSlashesPlainHead(c: char, s: string)
    requires c != '\\'
    ensures StripCSlashes([c] + s) == [c] + StripCSlashes(s)
  {
    assert ([c] + s)[1..] == s;
  }

  /** One simple escape becomes its control character. */
  lemma StripCSlashesEscape(letter: char)
    requires letter in SimpleEscapes
    ensures StripCSlashes(['\\', letter]) == [SimpleEscapes[letter]]
  {
    assert ['\\', letter][2..] == [];
  }

  /** `\x` and two hexadecimal digits become the character they denote; the rest follows unescaped. */
  lemma StripCSlashesHex(h1: char, h2: char, rest: string)
    requires IsHex(h1) && IsHex(h2)
    ensures StripCSlashes(['\\', 'x', h1, h2] + rest) ==
      [(16 * HexValue(h1) + HexValue(h2)) as char] + StripCSlashes(rest)
  {
    var s := ['\\', 'x', h1, h2] + rest;
    assert s[0] == '\\' && s[1] == 'x' && s[2] == h1 && s[3] == h2 && s[4..] == rest;
    StripCSlashesHexStep(s);
  }

  /** The unescaping step for a backslash, `x` and two hexadecimal digits. */
  lemma StripCSlashesHexStep(s: string)
    requires |s| > 3 && s[0] == '\\' && s[1] == 'x' && IsHex(s[2]) && IsHex(s[3])
    ensures StripCSlashes(s) == [(HexValue(s[2]) * 16 + HexValue(s[3])) as char] + StripCSlashes(s[4..])
  {
    assert 'x' !in SimpleEscapes;
  }

  /** The unescaping step for a backslash and a run of octal digits. */
  lemma StripCSlashesOctalStep(s: string, n: nat)
    requires |s| > 1 && s[0] == '\\' && s[1] != 'x' && s[1] !in SimpleEscapes
    requires n == OctalRun(s[1..]) && n > 0
    ensures StripCSlashes(s) == [(OctalValue(s[1..1 + n]) % 256) as char] + StripCSlashes(s[1 + n..])
  {
  }

  /** A backslash and three octal digits become the character of that value modulo 256. */
  lemma StripCSlashesOctal(o1: char, o2: char, o3: char, rest: string)
    requires IsOctal(o1) && IsOctal(o2) && IsOctal(o3)
    ensures StripCSlashes(['\\', o1, o2, o3] + rest) ==
      [((64 * (o1 as nat - '0' as nat) + 8 * (o2 as nat - '0' as nat) + (o3 as nat - '0' as nat)) % 256) as char] +
      StripCSlashes(rest)
  {
    var s := ['\\', o1, o2, o3] + rest;
    assert s[1..][..3] == [o1, o2, o3];
    assert OctalRun(s[1..]) == 3;
    assert s[0] == '\\' && s[1] == o1 && o1 !in SimpleEscapes && o1 != 'x';
    StripCSlashesOctalStep(s, 3);
    var digits := s[1..4];
    assert digits == [o1, o2, o3];
    assert OctalValue([o1]) == o1 as nat - '0' as nat by {
      assert [o1][..0] == [];
    }
    assert OctalValue([o1, o2]) == OctalValue([o1]) * 8 + (o2 as nat - '0' as nat) by {
      assert [o1, o2][..1] == [o1];
    }
    assert OctalValue(digits) == OctalValue([o1, o2]) * 8 + (o3 as nat - '0' as nat) by {
      assert digits[..2] == [o1, o2];
    }
    assert s[4..] == rest;
  }

  /**
   * A `sep=` line whose character is written as a backslash escape, such as
   * `sep=\t`, names the control character the escape stands for.
   */
  lemma SepHintEscaped(prefix: string, letter: char, lineEnd: string)
    requires |prefix| == 4 && Lower(prefix) == "sep="
    requires letter in SimpleEscapes
    requires forall i :: 0 <= i < |lineEnd| ==> lineEnd[i] in TrimChars
    ensures SepHint(prefix + ['\\', letter] + lineEnd) == Some(SimpleEscapes[letter])
  {
    var core := prefix + ['\\', letter];
    SepPrefixStart(prefix);
    StripAround("", core, lineEnd, TrimChars);
    assert "" + core + lineEnd == core + lineEnd;
    StripCSlashesPrefix(prefix, ['\\', letter]);
    StripCSlashesEscape(letter);
    SepHintOf(core + lineEnd, prefix, SimpleEscapes[letter]);
  }

  /**
   * The separator and the lines left for the field parser: a hint line
   * sets the separator and is consumed, otherwise the separator is the comma
   * and the first line is read again as data.
   */
  function Preamble(lines: seq<string>): (char, seq<string>)
  {
    if |lines| > 0 && SepHint(lines[0]).Some? then (SepHint(lines[0]).value, lines[1..])
    else (',', lines)
  }

  /** Every field of every record trimmed. */
  function TrimRecords(records: seq<seq<string>>): (r: seq<seq<string>>)
    ensures |r| == |records|
    ensures forall i :: 0 <= i < |records| ==>
      |r[i]| == |records[i]| && forall j :: 0 <= j < |records[i]| ==> r[i][j] == Trim(records[i][j])
  {
    seq(|records|, i requires 0 <= i < |records| =>
      seq(|records[i]|, j requires 0 <= j < |records[i]| => Trim(records[i][j])))
  }

  /** Trimming one more record appends that record, trimmed. */
  lemma TrimRecordsStep(records: seq<seq<string>>, i: nat)
    requires i < |records|
    ensures TrimRecords(records[..i + 1]) ==
      TrimRecords(records[..i]) + [seq(|records[i]|, j requires 0 <= j < |records[i]| => Trim(records[i][j]))]
  {
    assert records[..i + 1][..i] == records[..i];
  }

  /**
   * `getDSV` for the comma-separated format. The CSV field parser is the
   * parameter `parse`: it turns the lines after the preamble into records
   * of fields using the separator it is given.
   */
  method GetCsv(lines: seq<string>, parse: (seq<string>, char) -> seq<seq<string>>) returns (t: Table)
    ensures t == FromRows(TrimRecords(parse(Preamble(lines).1, Preamble(lines).0)))
  {
    var separator := ',';
    var rest := lines;
    if |lines| > 0 {
      var hint := SepHint(lines[0]);
      if hint.Some? {
        separator := hint.value;
        rest := lines[1..];
      }
    }
    var records := parse(rest, separator);
    var rows: seq<seq<string>> := [];
    var i := 0;
    while i < |records|
      invariant 0 <= i <= |records|
      invariant rows == TrimRecords(records[..i])
    {
      TrimRecordsStep(records, i);
      rows := rows + [seq(|records[i]|, j requires 0 <= j < |records[i]| => Trim(records[i][j]))];
      i := i + 1;
    }
    assert records[..i] == records;
    t := ShiftHeader(rows);
  }
}
