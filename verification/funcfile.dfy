/**
 * The reader of `.func` files (`getFunctionFile` without the file handling):
 * every `Key: Value` line is recorded under its lower-cased key, a later
 * line overriding an earlier one, and the definition of the virtual table
 * is read from the keys `function`, `fixedarguments`, `arguments` and
 * `values`, the last three as comma-separated lists.
 */
module FuncFile {
  import opened Tables
  import opened Text

  /** The position of the first occurrence of a character. */
  function FirstOf(s: string, c: char): (r: Option<nat>)
    ensures r.None? <==> c !in s
    ensures r.Some? ==> r.value < |s| && s[r.value] == c && c !in s[..r.value]
  {
    if |s| == 0 then None
    else if s[0] == c then Some(0)
    else
      match FirstOf(s[1..], c)
      case None => None
      case Some(i) => assert s[..i + 1] == [s[0]] + s[1..][..i]; Some(i + 1)
  }

  /** The first occurrence is the one with none before it. */
  lemma {:induction false} FirstOfAt(s: string, c: char, i: nat)
    requires i < |s| && s[i] == c && c !in s[..i]
    ensures FirstOf(s, c) == Some(i)
  {
    if i > 0 {
      assert s[0] == s[..i][0];
      assert s[1..][..i - 1] == s[..i][1..];
      FirstOfAt(s[1..], c, i - 1);
    }
  }

  /** Neither end of the string is regex whitespace. */
  predicate Stripped(s: string)
  {
    |s| == 0 || (s[0] !in RegexSpace && s[|s| - 1] !in RegexSpace)
  }

  /** A stripped string is its own strip. */
  lemma StripStripped(s: string)
    requires Stripped(s)
    ensures Strip(s, RegexSpace) == s
  {
  }

  /**
   * One line of a `.func` file: the key is the text before the first colon
   * and the value the text after it, both without surrounding whitespace;
   * the key is lower-cased. A line without a colon, or whose value is
   * empty, records nothing.
   */
  function ParseLine(line: string): Option<(string, string)>
  {
    match FirstOf(line, ':')
    case None => None
    case Some(i) =>
      var value := Strip(line[i + 1..], RegexSpace);
      if value == "" then None else Some((Lower(Strip(line[..i], RegexSpace)), value))
  }

  /**
   * A recorded line holds a colon; its key holds none and no upper-case
   * letter; its value is not empty and has no surrounding whitespace.
   */
  lemma ParseLineFacts(line: string)
    ensures ParseLine(line).Some? ==> ':' in line
    ensures ParseLine(line).Some? ==> ':' !in ParseLine(line).value.0
    ensures ParseLine(line).Some? ==> forall k :: 0 <= k < |ParseLine(line).value.0| ==>
      !('A' <= ParseLine(line).value.0[k] <= 'Z')
    ensures ParseLine(line).Some? ==> ParseLine(line).value.1 != "" && Stripped(ParseLine(line).value.1)
  {
    var colon := FirstOf(line, ':');
    if colon.Some? {
      var i := colon.value;
      var key := Strip(line[..i], RegexSpace);
      StripWithout(line[..i], RegexSpace, ':');
      var lower := Lower(key);
      forall k | 0 <= k < |lower| ensures lower[k] != ':' && !('A' <= lower[k] <= 'Z') {
        assert key[k] != ':';
      }
    }
  }

  /** A line whose first colon and stripped halves are known parses to them. */
  lemma ParseLineOf(line: string, i: nat, key: string, value: string)
    requires FirstOf(line, ':') == Some(i)
    requires Strip(line[..i], RegexSpace) == key
    requires Strip(line[i + 1..], RegexSpace) == value && value != ""
    ensures ParseLine(line) == Some((Lower(key), value))
  {
  }

  /** The first colon of a written `Key: Value` line ends the key. */
  lemma WrittenColon(key: string, rest: string)
    requires ':' !in key
    ensures FirstOf(key + ":" + rest, ':') == Some(|key|)
    ensures (key + ":" + rest)[..|key|] == key
    ensures (key + ":" + rest)[|key| + 1..] == rest
  {
    var line := key + ":" + rest;
    assert line[..|key|] == key;
    FirstOfAt(line, ':', |key|);
  }

  /** The text after the colon of a written line strips to the value. */
  lemma WrittenValue(value: string)
    requires value != "" && Stripped(value)
    ensures Strip(" " + value + "\n", RegexSpace) == value
  {
    StripAround(" ", value, "\n", RegexSpace);
  }

  /** A key and a value written as `Key: Value` are read back, the key lower-cased. */
  lemma ParseWritten(key: string, value: string)
    requires ':' !in key && Stripped(key)
    requires value != "" && Stripped(value)
    ensures ParseLine(key + ": " + value + "\n") == Some((Lower(key), value))
  {
    var rest := " " + value + "\n";
    var line := key + ":" + rest;
    assert key + ": " + value + "\n" == line;
    WrittenColon(key, rest);
    assert line[..|key|] == key && line[|key| + 1..] == rest;
    StripStripped(key);
    WrittenValue(value);
    ParseLineOf(line, |key|, key, value);
  }

  /** The outcome of parsing every line. */
  function ParsedLines(lines: seq<string>): (r: seq<Option<(string, string)>>)
    ensures |r| == |lines|
    ensures forall i :: 0 <= i < |lines| ==> r[i] == ParseLine(lines[i])
  {
    seq(|lines|, i requires 0 <= i < |lines| => ParseLine(lines[i]))
  }

  /** Parsed lines recorded in order: a later key overrides an earlier one. */
  function Record(parsed: seq<Option<(string, string)>>): map<string, string>
  {
    if |parsed| == 0 then map[]
    else
      var earlier := Record(parsed[..|parsed| - 1]);
      match parsed[|parsed| - 1]
      case None => earlier
      case Some((k, v)) => earlier[k := v]
  }

  /** The entries of a file: every recorded key with the value of its last line. */
  function Entries(lines: seq<string>): map<string, string>
  {
    Record(ParsedLines(lines))
  }

  /** The parsed line `i` records the key `k`. */
  predicate Records(parsed: seq<Option<(string, string)>>, i: int, k: string)
  {
    0 <= i < |parsed| && parsed[i].Some? && parsed[i].value.0 == k
  }

  /**
   * A key is present exactly when some line records it, and its value is
   * the one on the last line that records it.
   */
  lemma {:induction false} RecordLastWins(parsed: seq<Option<(string, string)>>, k: string)
    ensures k in Record(parsed) <==> exists i :: Records(parsed, i, k)
    ensures k in Record(parsed) ==> exists i :: (Records(parsed, i, k) &&
      parsed[i].value.1 == Record(parsed)[k] &&
      forall j :: i < j < |parsed| ==> !Records(parsed, j, k))
    decreases |parsed|
  {
    if |parsed| > 0 {
      var init := parsed[..|parsed| - 1];
      var n := |parsed| - 1;
      RecordLastWins(init, k);
      RecordStep(parsed);
      forall i | 0 <= i < n ensures Records(parsed, i, k) == Records(init, i, k) {
        assert parsed[i] == init[i];
      }
      if Records(parsed, n, k) {
        assert Records(parsed, n, k) && parsed[n].value.1 == Record(parsed)[k] &&
          forall j :: n < j < |parsed| ==> !Records(parsed, j, k);
      } else if k in Record(init) {
        assert k in Record(parsed) && Record(parsed)[k] == Record(init)[k];
        var i :| Records(init, i, k) && init[i].value.1 == Record(init)[k] &&
          forall j :: i < j < |init| ==> !Records(init, j, k);
        assert Records(parsed, i, k) && parsed[i].value.1 == Record(parsed)[k] &&
          forall j :: i < j < |parsed| ==> !Records(parsed, j, k);
      } else {
        assert k !in Record(parsed);
        forall i | 0 <= i < |parsed| ensures !Records(parsed, i, k) {
          if i < n {
            assert !Records(init, i, k);
          }
        }
      }
    }
  }

  /** Recording one more line updates the map by that line's entry, if any. */
  lemma RecordStep(parsed: seq<Option<(string, string)>>)
    requires |parsed| > 0
    ensures var last := parsed[|parsed| - 1];
      Record(parsed) == if last.Some? then Record(parsed[..|parsed| - 1])[last.value.0 := last.value.1]
        else Record(parsed[..|parsed| - 1])
  {
  }

  /** A comma-separated list: the parts between commas, without surrounding whitespace. */
  function ParseList(v: string): (r: seq<string>)
    ensures |r| >= 1
    ensures forall i :: 0 <= i < |r| ==> ',' !in r[i]
  {
    var parts := Split(v, ',');
    seq(|parts|, i requires 0 <= i < |parts| =>
      StripWithout(parts[i], RegexSpace, ',');
      Strip(parts[i], RegexSpace))
  }

  /** Names without commas and surrounding whitespace are read back from their list. */
  lemma ListRoundTrip(names: seq<string>)
    requires |names| >= 1
    requires forall i :: 0 <= i < |names| ==> ',' !in names[i] && Stripped(names[i])
    ensures ParseList(Join(names, ',')) == names
  {
    SplitJoin(names, ',');
    forall i | 0 <= i < |names| ensures Strip(names[i], RegexSpace) == names[i] {
      StripStripped(names[i]);
    }
  }

  /** The list under a key, or nothing when the key is absent. */
  function ListOf(entries: map<string, string>, key: string): seq<string>
  {
    if key in entries then ParseList(entries[key]) else []
  }

  /**
   * The definition the entries describe: the function name under
   * `function` (absent when missing), and the lists under
   * `fixedarguments`, `arguments` and `values` (empty when missing).
   */
  function DefinitionOf(entries: map<string, string>): (d: Definition)
    ensures d.functionName.Some? <==> "function" in entries
    ensures d.functionName.Some? ==> d.functionName.value == entries["function"]
    ensures "values" !in entries ==> d.columns == []
    ensures "values" in entries ==> |d.columns| >= 1
  {
    Definition(
      if "function" in entries then Some(entries["function"]) else None,
      ListOf(entries, "fixedarguments"),
      ListOf(entries, "arguments"),
      ListOf(entries, "values"))
  }

  /**
   * `getFunctionFile` from the lines of the file: nothing when the class of
   * registry functions is not loaded, otherwise the definition the lines
   * describe, built by recording every line in turn.
   */
  method GetFunctionFile(functionsLoaded: bool, lines: seq<string>) returns (r: Option<Definition>)
    ensures !functionsLoaded ==> r.None?
    ensures functionsLoaded ==> r == Some(DefinitionOf(Entries(lines)))
  {
    if !functionsLoaded {
      return None;
    }
    var data: map<string, string> := map[];
    var i := 0;
    while i < |lines|
      invariant 0 <= i <= |lines|
      invariant data == Record(ParsedLines(lines)[..i])
    {
      assert ParsedLines(lines)[..i + 1][..i] == ParsedLines(lines)[..i];
      var parsed := ParseLine(lines[i]);
      if parsed.Some? {
        data := data[parsed.value.0 := parsed.value.1];
      }
      i := i + 1;
    }
    assert ParsedLines(lines)[..i] == ParsedLines(lines);
    r := Some(DefinitionOf(data));
  }
}
