/**
 * `italianFiscalCode`: birth date, sex and birthplace code read from an
 * Italian fiscal code. Letters that replace digits to avoid collisions are
 * turned back into digits first; the two-digit year is placed in the
 * century that makes the owner at least `minimumAge` and less than
 * `minimumAge + 100` years old on the given day. The string conversions
 * follow PHP 8: an offset past the end reads "", `strpos` of "" finds
 * position 0, writing past the end pads with spaces, `(int)` reads the
 * leading integer, and `%` on a string with no leading number throws.
 */
module FiscalCode {
  import opened Tables

  /** A calendar day as `getdate()` reports it, or a decoded birth date. */
  datatype Date = Date(year: int, mon: int, mday: int)

  /** The fields read from a code, before the century is chosen. */
  datatype Fields = Fields(year: int, month: int, day: int, sex: string, place: string)

  /** Array comparison of `[year, month, day]` lists: the first unequal entry decides. */
  predicate Earlier(a: Date, b: Date)
  {
    a.year < b.year || (a.year == b.year && (a.mon < b.mon || (a.mon == b.mon && a.mday < b.mday)))
  }

  /** PHP's `%`: the remainder takes the sign of the dividend. */
  function TruncMod(a: int, b: int): (r: int)
    requires b > 0
    ensures a >= 0 ==> 0 <= r < b && r == a % b
    ensures a < 0 ==> -b < r <= 0 && -r == (-a) % b
  {
    if a >= 0 then a % b else -((-a) % b)
  }

  // ---------------------------------------------------------------------
  // String primitives

  /** `hay` reads `needle` from position `j`. */
  predicate OccursAt(hay: string, needle: string, j: nat)
  {
    j + |needle| <= |hay| && hay[j..j + |needle|] == needle
  }

  /** `strpos` from position `i` on: the first position where `needle` occurs. */
  function StrPosFrom(hay: string, needle: string, i: nat): (r: Option<nat>)
    requires i <= |hay|
    ensures r.Some? ==> i <= r.value && OccursAt(hay, needle, r.value)
    ensures r.Some? ==> forall j :: i <= j < r.value ==> !OccursAt(hay, needle, j)
    ensures r.None? ==> forall j :: i <= j ==> !OccursAt(hay, needle, j)
    decreases |hay| - i
  {
    if i + |needle| > |hay| then None
    else if hay[i..i + |needle|] == needle then Some(i)
    else StrPosFrom(hay, needle, i + 1)
  }

  /** `strpos`: the first position where `needle` occurs; "" occurs at 0. */
  function StrPos(hay: string, needle: string): Option<nat>
  {
    StrPosFrom(hay, needle, 0)
  }

  /** A single character is found exactly when the string holds it, at its first occurrence. */
  lemma StrPosChar(hay: string, c: char)
    ensures StrPos(hay, [c]).Some? <==> c in hay
    ensures StrPos(hay, [c]).Some? ==>
      StrPos(hay, [c]).value < |hay| && hay[StrPos(hay, [c]).value] == c &&
      c !in hay[..StrPos(hay, [c]).value]
  {
    var r := StrPos(hay, [c]);
    if c in hay {
      var j :| 0 <= j < |hay| && hay[j] == c;
      assert hay[j..j + 1] == [c];
      assert OccursAt(hay, [c], j);
    }
    if r.Some? {
      assert hay[r.value..r.value + 1][0] == c;
      forall j | 0 <= j < r.value ensures hay[j] != c {
        assert !OccursAt(hay, [c], j);
        assert hay[j..j + 1] == [hay[j]];
      }
    }
  }

  /** The empty string is found at position 0. */
  lemma StrPosEmpty(hay: string)
    ensures StrPos(hay, "") == Some(0)
  {
    assert hay[0..0] == "";
  }

  /** Reading the character at `pos`: past the end, the empty string. */
  function CharAt(s: string, pos: nat): (r: string)
    ensures |r| <= 1
  {
    if pos < |s| then [s[pos]] else ""
  }

  /** Writing one character at `pos`: past the end, the string is first padded with spaces. */
  function WriteAt(s: string, pos: nat, c: char): (r: string)
    ensures |r| == if pos < |s| then |s| else pos + 1
    ensures r[pos] == c
    ensures forall i :: 0 <= i < |r| && i != pos ==> r[i] == if i < |s| then s[i] else ' '
  {
    if pos < |s| then s[pos := c] else s + seq(pos - |s|, _ => ' ') + [c]
  }

  predicate IsDigit(c: char)
  {
    '0' <= c <= '9'
  }

  function DigitChar(n: nat): (c: char)
    requires n < 10
    ensures IsDigit(c) && c as int - '0' as int == n
  {
    (('0' as int) + n) as char
  }

  function DigitOf(c: char): (n: nat)
    requires IsDigit(c)
    ensures n < 10 && DigitChar(n) == c && c as int - '0' as int == n
  {
    (c as int) - ('0' as int)
  }

  /** A string made of decimal digits only. */
  predicate AllDigits(s: string)
  {
    forall i :: 0 <= i < |s| ==> IsDigit(s[i])
  }

  /** The characters PHP skips around a number. */
  predicate IsSpace(c: char)
  {
    c == ' ' || c == '\t' || c == '\n' || c == '\r' || c == '\U{000B}' || c == '\U{000C}'
  }

  /** The value of a string of digits. */
  function DecimalValue(s: string): nat
    requires forall i :: 0 <= i < |s| ==> IsDigit(s[i])
  {
    if |s| == 0 then 0 else DecimalValue(s[..|s| - 1]) * 10 + DigitOf(s[|s| - 1])
  }

  /** How many digits `s` starts with. */
  function DigitRun(s: string): (n: nat)
    ensures n <= |s|
    ensures forall i :: 0 <= i < n ==> IsDigit(s[i])
    ensures n < |s| ==> !IsDigit(s[n])
  {
    if |s| == 0 || !IsDigit(s[0]) then 0 else 1 + DigitRun(s[1..])
  }

  /** `s` without its leading white space. */
  function SkipSpace(s: string): string
  {
    if |s| > 0 && IsSpace(s[0]) then SkipSpace(s[1..]) else s
  }

  /** After white space: whether a minus sign follows, and the rest after any sign. */
  function Signed(s: string): (bool, string)
  {
    var t := SkipSpace(s);
    if |t| > 0 && (t[0] == '+' || t[0] == '-') then (t[0] == '-', t[1..]) else (false, t)
  }

  /** The string starts with a number: digits, or a point and digits, after white space and a sign. */
  predicate LeadingNumeric(s: string)
  {
    var t := Signed(s).1;
    DigitRun(t) > 0 || (|t| >= 2 && t[0] == '.' && IsDigit(t[1]))
  }

  /** Length of the number `t` starts with: digits, a fraction, an exponent. */
  function NumberLength(t: string): (m: nat)
    ensures m <= |t|
  {
    var whole := DigitRun(t);
    var m := if whole < |t| && t[whole] == '.' then whole + 1 + DigitRun(t[whole + 1..]) else whole;
    if m < |t| && (t[m] == 'e' || t[m] == 'E') then
      var u := t[m + 1..];
      var k := if |u| > 0 && (u[0] == '+' || u[0] == '-') then 1 else 0;
      if DigitRun(u[k..]) > 0 then m + 1 + k + DigitRun(u[k..]) else m
    else m
  }

  /** A numeric string: a number with nothing but white space around it. */
  predicate Numeric(s: string)
  {
    var t := Signed(s).1;
    LeadingNumeric(s) && forall i :: NumberLength(t) <= i < |t| ==> IsSpace(t[i])
  }

  /** `(int)` of a string: the sign and the leading digits, 0 when there are none. */
  function IntPrefix(s: string): int
  {
    var (negative, t) := Signed(s);
    var v: int := DecimalValue(t[..DigitRun(t)]);
    if negative then -v else v
  }

  /** Byte-wise string order, a proper prefix coming first. */
  predicate StrLess(a: string, b: string)
  {
    if |a| == 0 then |b| > 0
    else if |b| == 0 then false
    else a[0] < b[0] || (a[0] == b[0] && StrLess(a[1..], b[1..]))
  }

  // ---------------------------------------------------------------------
  // Normalisation

  /** The letters standing for the digits 0 to 9. */
  const Substitutes: string := "LMNPQRSTUV"

  /** The positions of the code that hold digits. */
  const DigitPositions: seq<nat> := [6, 7, 9, 10, 12, 13, 14]

  /** One position normalised: a substitute letter (or nothing, past the end) becomes its digit. */
  function NormaliseAt(s: string, pos: nat): string
  {
    match StrPos(Substitutes, CharAt(s, pos))
    case None => s
    case Some(n) => WriteAt(s, pos, DigitChar(n))
  }

  /** The positions in `ps` normalised in turn. */
  function NormaliseAll(s: string, ps: seq<nat>): string
  {
    if |ps| == 0 then s else NormaliseAt(NormaliseAll(s, ps[..|ps| - 1]), ps[|ps| - 1])
  }

  function Normalised(code: string): string
  {
    NormaliseAll(code, DigitPositions)
  }

  /** A digit is never a substitute letter. */
  lemma DigitNotSubstitute(c: char)
    requires IsDigit(c)
    ensures c !in Substitutes
  {
  }

  /** Normalising one position: what it writes, and that nothing else changes but padding. */
  lemma NormaliseAtEffect(s: string, pos: nat)
    ensures var r := NormaliseAt(s, pos);
      |r| == if pos < |s| then |s| else pos + 1
    ensures var r := NormaliseAt(s, pos);
      pos < |s| && s[pos] !in Substitutes ==> r == s
    ensures var r := NormaliseAt(s, pos);
      r[pos] !in Substitutes && ((pos < |s| && s[pos] in Substitutes) || pos >= |s| ==> IsDigit(r[pos]))
    ensures var r := NormaliseAt(s, pos);
      pos >= |s| ==> r[pos] == '0'
    ensures var r := NormaliseAt(s, pos);
      forall i :: 0 <= i < |r| && i != pos ==> r[i] == if i < |s| then s[i] else ' '
  {
    var r := NormaliseAt(s, pos);
    if pos < |s| {
      StrPosChar(Substitutes, s[pos]);
      assert CharAt(s, pos) == [s[pos]];
      if s[pos] in Substitutes {
        DigitNotSubstitute(r[pos]);
      }
    } else {
      StrPosEmpty(Substitutes);
      DigitNotSubstitute(r[pos]);
    }
  }

  /** Positions listed in increasing order. */
  predicate Increasing(ps: seq<nat>)
  {
    forall j, k :: 0 <= j < k < |ps| ==> ps[j] < ps[k]
  }

  /** The last of increasing positions is not among the earlier ones. */
  lemma LastIsNew(ps: seq<nat>)
    requires Increasing(ps) && |ps| > 0
    ensures ps[|ps| - 1] !in ps[..|ps| - 1]
  {
    var init := ps[..|ps| - 1];
    forall k | 0 <= k < |init| ensures init[k] != ps[|ps| - 1] {
      assert init[k] == ps[k];
    }
  }

  /** The digit positions are increasing. */
  lemma PositionsIncrease()
    ensures Increasing(DigitPositions)
  {
  }

  /** The length of a code after the positions `ps` are normalised: padded up to the last one. */
  lemma {:induction false} NormaliseAllLength(code: string, ps: seq<nat>)
    requires Increasing(ps)
    ensures |NormaliseAll(code, ps)| ==
      if |ps| == 0 || |code| > ps[|ps| - 1] then |code| else ps[|ps| - 1] + 1
    decreases |ps|
  {
    if |ps| > 0 {
      var init := ps[..|ps| - 1];
      NormaliseAllLength(code, init);
      NormaliseAtEffect(NormaliseAll(code, init), ps[|ps| - 1]);
    }
  }

  /** Normalising one position leaves a character elsewhere in the string alone. */
  lemma NormaliseAtKeepsOthers(s: string, pos: nat, i: nat)
    requires i < |s| && i != pos
    ensures i < |NormaliseAt(s, pos)| && NormaliseAt(s, pos)[i] == s[i]
  {
    NormaliseAtEffect(s, pos);
  }

  /** Normalising one position leaves no substitute letter there. */
  lemma NormaliseAtClears(s: string, pos: nat)
    ensures pos < |NormaliseAt(s, pos)| && NormaliseAt(s, pos)[pos] !in Substitutes
  {
    NormaliseAtEffect(s, pos);
  }

  /** After the positions `ps` are normalised, the `j`-th of them no longer holds a substitute letter. */
  lemma {:induction false} NormaliseAllClearsAt(code: string, ps: seq<nat>, j: nat)
    requires Increasing(ps) && j < |ps|
    ensures ps[j] < |NormaliseAll(code, ps)| && NormaliseAll(code, ps)[ps[j]] !in Substitutes
    decreases |ps|
  {
    var n := |ps|;
    var init := ps[..n - 1];
    var pos := ps[n - 1];
    var before := NormaliseAll(code, init);
    assert NormaliseAll(code, ps) == NormaliseAt(before, pos);
    if j == n - 1 {
      NormaliseAtClears(before, pos);
    } else {
      assert init[j] == ps[j] && ps[j] < pos;
      NormaliseAllClearsAt(code, init, j);
      NormaliseAtKeepsOthers(before, pos, ps[j]);
    }
  }

  /** No position normalised is left holding a substitute letter. */
  lemma NormaliseAllClears(code: string, ps: seq<nat>)
    requires Increasing(ps)
    ensures forall j :: 0 <= j < |ps| ==>
      ps[j] < |NormaliseAll(code, ps)| && NormaliseAll(code, ps)[ps[j]] !in Substitutes
  {
    forall j | 0 <= j < |ps|
      ensures ps[j] < |NormaliseAll(code, ps)| && NormaliseAll(code, ps)[ps[j]] !in Substitutes
    {
      NormaliseAllClearsAt(code, ps, j);
    }
  }

  /**
   * Normalising the positions `ps` keeps every character of the code that
   * is not at one of them, and every one that is not a substitute letter.
   */
  lemma {:induction false} NormaliseAllKeeps(code: string, ps: seq<nat>)
    requires Increasing(ps)
    ensures forall i :: 0 <= i < |code| && (i !in ps || code[i] !in Substitutes) ==>
      i < |NormaliseAll(code, ps)| && NormaliseAll(code, ps)[i] == code[i]
    decreases |ps|
  {
    if |ps| > 0 {
      var init := ps[..|ps| - 1];
      NormaliseAllKeeps(code, init);
      NormaliseAtEffect(NormaliseAll(code, init), ps[|ps| - 1]);
      assert forall x :: x in init ==> x in ps;
    }
  }

  /**
   * A normalised code is at least 15 characters long, holds no substitute
   * letter at a digit position, and keeps every character of the code that
   * is not a substitute letter at a digit position.
   */
  lemma NormalisedShape(code: string)
    ensures |Normalised(code)| == if |code| < 15 then 15 else |code|
    ensures forall k :: 0 <= k < |DigitPositions| ==> Normalised(code)[DigitPositions[k]] !in Substitutes
    ensures forall i :: 0 <= i < |code| && (i !in DigitPositions || code[i] !in Substitutes) ==>
      Normalised(code)[i] == code[i]
  {
    PositionsIncrease();
    NormaliseAllLength(code, DigitPositions);
    NormaliseAllClears(code, DigitPositions);
    NormaliseAllKeeps(code, DigitPositions);
  }

  /** A normalised code is long enough for every field to be read whole. */
  lemma NormalisedLength(code: string)
    ensures |Normalised(code)| >= 15
  {
    PositionsIncrease();
    NormaliseAllLength(code, DigitPositions);
  }

  /** A substitute letter at a digit position becomes the digit it stands for. */
  lemma NormaliseAtSubstitutes(s: string, pos: nat, v: nat)
    requires pos < |s| && v < |Substitutes| && s[pos] == Substitutes[v]
    ensures NormaliseAt(s, pos) == s[pos := DigitChar(v)]
  {
    StrPosChar(Substitutes, s[pos]);
    assert CharAt(s, pos) == [s[pos]];
    SubstitutesDistinct();
    var w := StrPos(Substitutes, [s[pos]]).value;
    assert Substitutes[w] == Substitutes[v];
  }

  /** Each substitute letter stands for one digit. */
  lemma SubstitutesDistinct()
    ensures Distinct(Substitutes)
  {
  }

  /** The last of the positions, untouched by those before it, gets the digit of its letter. */
  lemma SubstitutesAtLast(code: string, ps: seq<nat>, v: nat)
    requires Increasing(ps) && |ps| > 0 && ps[|ps| - 1] < |code| && v < |Substitutes|
    requires code[ps[|ps| - 1]] == Substitutes[v]
    ensures var pos := ps[|ps| - 1];
      pos < |NormaliseAll(code, ps)| && NormaliseAll(code, ps)[pos] == DigitChar(v)
  {
    var init := ps[..|ps| - 1];
    var pos := ps[|ps| - 1];
    var before := NormaliseAll(code, init);
    NormaliseAllKeeps(code, init);
    LastIsNew(ps);
    assert before[pos] == code[pos];
    NormaliseAtSubstitutes(before, pos, v);
  }

  /**
   * After the positions `ps` are normalised, the `j`-th of them, if it held
   * the substitute letter for `v`, holds the digit `v`.
   */
  lemma {:induction false} NormaliseAllSubstitutesAt(code: string, ps: seq<nat>, j: nat, v: nat)
    requires Increasing(ps) && j < |ps| && ps[j] < |code| && v < |Substitutes| && code[ps[j]] == Substitutes[v]
    ensures ps[j] < |NormaliseAll(code, ps)| && NormaliseAll(code, ps)[ps[j]] == DigitChar(v)
    decreases |ps|
  {
    var n := |ps|;
    var init := ps[..n - 1];
    var pos := ps[n - 1];
    var before := NormaliseAll(code, init);
    assert NormaliseAll(code, ps) == NormaliseAt(before, pos);
    if j == n - 1 {
      SubstitutesAtLast(code, ps, v);
    } else {
      assert init[j] == ps[j] && ps[j] < pos;
      NormaliseAllSubstitutesAt(code, init, j, v);
      NormaliseAtKeepsOthers(before, pos, ps[j]);
    }
  }

  // ---------------------------------------------------------------------
  // Fields

  /** The letters standing for the months January to December. */
  const MonthLetters: string := "ABCDEHLMPRST"

  /**
   * The fields of a code: the year's last two figures, the month, the day
   * of the month (40 is added for women) and sex, and the birthplace code.
   * `None` when the day field holds no number, where the `%` throws.
   */
  function ReadFields(code: string): Option<Fields>
  {
    NormalisedLength(code);
    FieldsFrom(Normalised(code))
  }

  /** The fields read from a normalised code. */
  function FieldsFrom(n: string): Option<Fields>
    requires |n| >= 15
  {
    var year := IntPrefix(n[6..8]);
    var month := match StrPos(MonthLetters, n[8..9]) case Some(i) => i + 1 case None => 1;
    var dayField := n[9..11];
    if !LeadingNumeric(dayField) then None
    else
      var day := TruncMod(IntPrefix(dayField), 40);
      var female := if Numeric(dayField) then IntPrefix(dayField) > 40 else StrLess("40", dayField);
      Some(Fields(year, month, day, if female then "F" else "M", n[11..15]))
  }

  // ---------------------------------------------------------------------
  // Century

  /**
   * The year of birth as written: this century when `[year, month, day]`
   * is earlier than `[now.year % 100 - minimumAge, now.mon, now.mday]`,
   * the previous century otherwise.
   */
  function AsWrittenYear(year: int, month: int, day: int, minimumAge: int, now: Date): int
  {
    var century := now.year / 100;
    if Earlier(Date(year, month, day), Date(TruncMod(now.year, 100) - minimumAge, now.mon, now.mday))
    then year + century * 100
    else year + (century - 1) * 100
  }

  /**
   * The year of birth: the year ending in the two given figures that makes
   * the owner at least `minimumAge` years old on `now` and less than
   * `minimumAge + 100`.
   */
  function BirthYear(year: int, month: int, day: int, minimumAge: int, now: Date): int
  {
    var latest := now.year - minimumAge;
    var candidate := latest - (latest - year) % 100;
    if Earlier(Date(candidate, month, day), Date(latest, now.mon, now.mday)) then candidate else candidate - 100
  }

  /**
   * The birth date falls on or after the day `minimumAge + 100` years
   * before `now` and before the day `minimumAge` years before it, and its
   * year ends in the two figures of the code.
   */
  lemma BirthYearWindow(year: int, month: int, day: int, minimumAge: int, now: Date)
    ensures var y := BirthYear(year, month, day, minimumAge, now);
      Earlier(Date(y, month, day), Date(now.year - minimumAge, now.mon, now.mday)) &&
      !Earlier(Date(y, month, day), Date(now.year - minimumAge - 100, now.mon, now.mday)) &&
      (y - year) % 100 == 0
  {
  }

  /** No other year ending in those figures falls in that window. */
  lemma BirthYearUnique(year: int, month: int, day: int, minimumAge: int, now: Date, other: int)
    requires (other - year) % 100 == 0
    requires Earlier(Date(other, month, day), Date(now.year - minimumAge, now.mon, now.mday))
    requires !Earlier(Date(other, month, day), Date(now.year - minimumAge - 100, now.mon, now.mday))
    ensures other == BirthYear(year, month, day, minimumAge, now)
  {
    var latest := now.year - minimumAge;
    var candidate := latest - (latest - year) % 100;
    var y := BirthYear(year, month, day, minimumAge, now);
    BirthYearWindow(year, month, day, minimumAge, now);
    assert (other - y) % 100 == 0;
    assert latest - 100 <= other <= latest && latest - 100 <= y <= latest;
  }

  /**
   * While `minimumAge` is at most the current year's last two figures the
   * rule as written agrees with the window.
   */
  lemma AsWrittenAgrees(year: int, month: int, day: int, minimumAge: int, now: Date)
    requires now.year >= 0 && 0 <= minimumAge <= now.year % 100 && 0 <= year < 100
    ensures AsWrittenYear(year, month, day, minimumAge, now) == BirthYear(year, month, day, minimumAge, now)
  {
    var century := now.year / 100;
    var rest := now.year % 100 - minimumAge;
    assert now.year - minimumAge == century * 100 + rest;
    if year <= rest {
      assert (rest - year) % 100 == rest - year;
    } else {
      assert (rest - year + 100) % 100 == rest - year + 100;
    }
  }

  /**
   * With a minimum age above the current year's last two figures the rule
   * as written can make the owner younger than that age: on 11 October
   * 2026, with a minimum age of 30, a code for 1 January '97 gives 1997
   * (age 29), where the window gives 1897.
   */
  lemma AsWrittenTooYoung()
    ensures AsWrittenYear(97, 1, 1, 30, Date(2026, 10, 11)) == 1997
    ensures BirthYear(97, 1, 1, 30, Date(2026, 10, 11)) == 1897
    ensures Earlier(Date(1996, 10, 11), Date(1997, 1, 1))
  {
  }

  // ---------------------------------------------------------------------
  // Date formatting

  function Pow10(w: nat): (r: nat)
    ensures r >= 1
  {
    if w == 0 then 1 else 10 * Pow10(w - 1)
  }

  /** The decimal digits of a number, without leading zeros. */
  function Digits(n: nat): (r: string)
    ensures |r| >= 1 && forall i :: 0 <= i < |r| ==> IsDigit(r[i])
    ensures DecimalValue(r) == n
    decreases n
  {
    if n < 10 then
      var r := [DigitChar(n)];
      assert r[..0] == [];
      r
    else
      var r := Digits(n / 10) + [DigitChar(n % 10)];
      assert r[..|r| - 1] == Digits(n / 10);
      r
  }

  /** A number below 10 to the `w` has at most `w` digits. */
  lemma {:induction false} DigitsFit(n: nat, w: nat)
    requires 1 <= w && n < Pow10(w)
    ensures |Digits(n)| <= w
    decreases w
  {
    if n >= 10 {
      DigitsFit(n / 10, w - 1);
    }
  }

  /** Zeros in front up to width `w`. */
  function ZeroPad(s: string, w: nat): (r: string)
    ensures |r| == if |s| >= w then |s| else w
    ensures r[|r| - |s|..] == s
    ensures forall i :: 0 <= i < |r| - |s| ==> r[i] == '0'
  {
    if |s| >= w then s else seq(w - |s|, _ => '0') + s
  }

  /** Leading zeros do not change the value of a string of digits. */
  lemma {:induction false} LeadingZeros(z: string, s: string)
    requires forall i :: 0 <= i < |z| ==> z[i] == '0'
    requires forall i :: 0 <= i < |s| ==> IsDigit(s[i])
    ensures forall i :: 0 <= i < |z + s| ==> IsDigit((z + s)[i])
    ensures DecimalValue(z + s) == DecimalValue(s)
    decreases |z| + |s|
  {
    if |s| > 0 {
      assert (z + s)[..|z + s| - 1] == z + s[..|s| - 1];
      LeadingZeros(z, s[..|s| - 1]);
    } else if |z| > 0 {
      assert z + s == z;
      assert z[..|z| - 1] + [] == z[..|z| - 1];
      LeadingZeros(z[..|z| - 1], s);
    }
  }

  /** `sprintf("%0wd", n)`: zero-padded to width `w`, a minus sign counting towards it. */
  function Sprintf(n: int, w: nat): string
  {
    if n < 0 then "-" + ZeroPad(Digits(-n), if w > 0 then w - 1 else 0) else ZeroPad(Digits(n), w)
  }

  /** A number that fits in `w` figures is printed as exactly `w` digits that read back as the number. */
  lemma PadRoundTrip(n: nat, w: nat)
    requires 1 <= w && n < Pow10(w)
    ensures |Sprintf(n, w)| == w
    ensures forall i :: 0 <= i < w ==> IsDigit(Sprintf(n, w)[i])
    ensures DecimalValue(Sprintf(n, w)) == n
  {
    DigitsFit(n, w);
    var d := Digits(n);
    var r := ZeroPad(d, w);
    var z := r[..w - |d|];
    assert r == z + d;
    LeadingZeros(z, d);
  }

  /** `sprintf("%04d-%02d-%02d", ...)`. */
  function DateText(d: Date): string
  {
    Sprintf(d.year, 4) + "-" + Sprintf(d.mon, 2) + "-" + Sprintf(d.mday, 2)
  }

  /** The parts of a text made of a four-, a two- and a two-character part joined by dashes. */
  lemma DashedParts(a: string, b: string, c: string)
    requires |a| == 4 && |b| == 2 && |c| == 2
    ensures var t := a + "-" + b + "-" + c;
      |t| == 10 && t[4] == '-' && t[7] == '-' && t[..4] == a && t[5..7] == b && t[8..] == c
  {
  }

  /** A date with a four-figure year reads back from its text. */
  lemma DateTextRoundTrip(d: Date)
    requires 0 <= d.year < 10000 && 0 <= d.mon < 100 && 0 <= d.mday < 100
    ensures var t := DateText(d);
      |t| == 10 && t[4] == '-' && t[7] == '-' &&
      AllDigits(t[..4]) && AllDigits(t[5..7]) && AllDigits(t[8..]) &&
      DecimalValue(t[..4]) == d.year && DecimalValue(t[5..7]) == d.mon && DecimalValue(t[8..]) == d.mday
  {
    var a, b, c := Sprintf(d.year, 4), Sprintf(d.mon, 2), Sprintf(d.mday, 2);
    assert Pow10(1) == 10;
    assert Pow10(2) == 100;
    assert Pow10(3) == 1000;
    assert Pow10(4) == 10000;
    PadRoundTrip(d.year, 4);
    PadRoundTrip(d.mon, 2);
    PadRoundTrip(d.mday, 2);
    DashedParts(a, b, c);
    var t := DateText(d);
    assert t == a + "-" + b + "-" + c;
  }

  // ---------------------------------------------------------------------
  // The function

  /**
   * `italianFiscalCode`: `[birth date, sex, birthplace code]`, or `None`
   * where PHP throws.
   */
  function Decode(minimumAge: int, code: string, now: Date): Option<Value>
  {
    match ReadFields(code)
    case None => None
    case Some(f) => Some(Reported(f, minimumAge, now))
  }

  /** The list returned for the fields read: the date with its century chosen, the sex, the birthplace. */
  function Reported(f: Fields, minimumAge: int, now: Date): Value
  {
    var year := BirthYear(f.year, f.month, f.day, minimumAge, now);
    List([Str(DateText(Date(year, f.month, f.day))), Str(f.sex), Str(f.place)])
  }

  /** `italianFiscalCode` with the century chosen by the rule as written. */
  function DecodeAsWritten(minimumAge: int, code: string, now: Date): Option<Value>
  {
    match ReadFields(code)
    case None => None
    case Some(f) =>
      var year := AsWrittenYear(f.year, f.month, f.day, minimumAge, now);
      Some(List([Str(DateText(Date(year, f.month, f.day))), Str(f.sex), Str(f.place)]))
  }

  /** A character that stands for a digit: the digit itself or its substitute letter. */
  predicate CodeDigit(c: char)
  {
    IsDigit(c) || c in Substitutes
  }

  /** The digit such a character stands for. */
  function DigitValue(c: char): (n: nat)
    requires CodeDigit(c)
    ensures n < 10
  {
    if IsDigit(c) then DigitOf(c) else FirstIndex(Substitutes, c).value
  }

  /** A digit position holding a digit or a substitute letter is normalised to the digit it stands for. */
  lemma NormalisedDigit(code: string, k: nat)
    requires k < |DigitPositions| && DigitPositions[k] < |code| && CodeDigit(code[DigitPositions[k]])
    ensures Normalised(code)[DigitPositions[k]] == DigitChar(DigitValue(code[DigitPositions[k]]))
  {
    var c := code[DigitPositions[k]];
    PositionsIncrease();
    NormalisedLength(code);
    if IsDigit(c) {
      DigitNotSubstitute(c);
      NormaliseAllKeeps(code, DigitPositions);
    } else {
      NormaliseAllSubstitutesAt(code, DigitPositions, k, DigitValue(c));
      assert Substitutes[DigitValue(c)] == c;
    }
  }

  /** A string starting with a digit has no white space or sign to skip. */
  lemma SignedDigit(s: string)
    requires |s| > 0 && IsDigit(s[0])
    ensures Signed(s) == (false, s)
  {
    assert !IsSpace(s[0]);
  }

  /** Two digits make a run of two. */
  lemma DigitRunTwo(s: string)
    requires |s| == 2 && IsDigit(s[0]) && IsDigit(s[1])
    ensures DigitRun(s) == 2
  {
    assert s[1..][1..] == [];
  }

  /** The value of two digits. */
  lemma DecimalTwo(s: string)
    requires |s| == 2 && IsDigit(s[0]) && IsDigit(s[1])
    ensures DecimalValue(s) == 10 * DigitOf(s[0]) + DigitOf(s[1])
  {
    var first := s[..1];
    assert first == [s[0]] && first[..0] == [];
    assert DecimalValue(first) == DigitOf(s[0]);
    assert s[..|s| - 1] == first;
  }

  /** Two digits read as a number, both by `(int)` and by arithmetic. */
  lemma TwoDigits(s: string)
    requires |s| == 2 && IsDigit(s[0]) && IsDigit(s[1])
    ensures LeadingNumeric(s) && Numeric(s)
    ensures IntPrefix(s) == 10 * DigitOf(s[0]) + DigitOf(s[1])
  {
    SignedDigit(s);
    DigitRunTwo(s);
    DecimalTwo(s);
    assert s[..2] == s;
    assert NumberLength(s) == 2;
  }

  /** Two first occurrences of a character are one. */
  lemma FirstPlaceUnique(hay: string, c: char, i: nat, j: nat)
    requires i < |hay| && j < |hay| && hay[i] == c && hay[j] == c
    requires c !in hay[..i] && c !in hay[..j]
    ensures i == j
  {
  }

  /** The month a month letter names: 1 plus its place among the month letters. */
  function MonthOf(c: char): (m: nat)
    requires c in MonthLetters
    ensures 1 <= m <= 12 && MonthLetters[m - 1] == c
  {
    FirstIndex(MonthLetters, c).value + 1
  }

  /** `strpos` finds a month letter at the place that names its month. */
  lemma MonthFound(c: char)
    requires c in MonthLetters
    ensures StrPos(MonthLetters, [c]).Some? && StrPos(MonthLetters, [c]).value + 1 == MonthOf(c)
  {
    StrPosChar(MonthLetters, c);
    FirstPlaceUnique(MonthLetters, c, StrPos(MonthLetters, [c]).value, FirstIndex(MonthLetters, c).value);
  }

  /** The day of the month two day digits stand for, 40 having been added for women. */
  function DayNumber(tens: nat, units: nat): (r: nat)
    ensures r < 40
  {
    (10 * tens + units) % 40
  }

  /** The day number is the two-figure day field taken modulo 40 as PHP does. */
  lemma DayNumberOf(tens: nat, units: nat)
    ensures TruncMod(10 * tens + units, 40) == DayNumber(tens, units)
  {
  }

  /** The fields of a normalised code whose digit positions hold digits and whose month letter is valid. */
  lemma FieldsFromDigits(n: string, y1: nat, y2: nat, d1: nat, d2: nat)
    requires |n| >= 15 && n[8] in MonthLetters
    requires y1 < 10 && y2 < 10 && d1 < 10 && d2 < 10
    requires n[6] == DigitChar(y1) && n[7] == DigitChar(y2) && n[9] == DigitChar(d1) && n[10] == DigitChar(d2)
    ensures FieldsFrom(n).Some?
    ensures var f := FieldsFrom(n).value;
      f.year == 10 * y1 + y2 && f.month == MonthOf(n[8]) &&
      f.day == DayNumber(d1, d2) &&
      f.sex == (if 10 * d1 + d2 > 40 then "F" else "M") &&
      f.place == n[11..15]
  {
    var yearField, dayField := n[6..8], n[9..11];
    assert yearField[0] == n[6] && yearField[1] == n[7];
    assert dayField[0] == n[9] && dayField[1] == n[10];
    TwoDigits(yearField);
    TwoDigits(dayField);
    var yy := IntPrefix(yearField);
    assert yy == 10 * y1 + y2;
    var dd := IntPrefix(dayField);
    assert dd == 10 * d1 + d2;
    DayNumberOf(d1, d2);
    assert n[8..9] == [n[8]];
    MonthFound(n[8]);
    assert FieldsFrom(n) == Some(Fields(yy, MonthOf(n[8]), DayNumber(d1, d2), if dd > 40 then "F" else "M", n[11..15]));
  }

  /** The birth date and sex a well-formed code yields, letters standing for digits read as those digits. */
  lemma ReadValidCode(code: string)
    requires |code| >= 15 && code[8] in MonthLetters
    requires CodeDigit(code[6]) && CodeDigit(code[7]) && CodeDigit(code[9]) && CodeDigit(code[10])
    requires CodeDigit(code[12]) && CodeDigit(code[13]) && CodeDigit(code[14])
    ensures ReadFields(code).Some?
    ensures var f := ReadFields(code).value;
      f.year == 10 * DigitValue(code[6]) + DigitValue(code[7]) && f.month == MonthOf(code[8]) &&
      f.day == DayNumber(DigitValue(code[9]), DigitValue(code[10])) &&
      f.sex == (if 10 * DigitValue(code[9]) + DigitValue(code[10]) > 40 then "F" else "M")
  {
    NormalisedValid(code);
    DateOfDigits(code, Normalised(code));
  }

  /** The date fields read from `n`, a code whose digit positions hold the digits `code` stands for. */
  lemma DateOfDigits(code: string, n: string)
    requires |code| >= 15 && code[8] in MonthLetters
    requires CodeDigit(code[6]) && CodeDigit(code[7]) && CodeDigit(code[9]) && CodeDigit(code[10])
    requires |n| >= 15 && n[8] == code[8]
    requires n[6] == DigitChar(DigitValue(code[6])) && n[7] == DigitChar(DigitValue(code[7]))
    requires n[9] == DigitChar(DigitValue(code[9])) && n[10] == DigitChar(DigitValue(code[10]))
    ensures FieldsFrom(n).Some?
    ensures var f := FieldsFrom(n).value;
      f.year == 10 * DigitValue(code[6]) + DigitValue(code[7]) && f.month == MonthOf(code[8]) &&
      f.day == DayNumber(DigitValue(code[9]), DigitValue(code[10])) &&
      f.sex == (if 10 * DigitValue(code[9]) + DigitValue(code[10]) > 40 then "F" else "M")
  {
    FieldsFromDigits(n, DigitValue(code[6]), DigitValue(code[7]), DigitValue(code[9]), DigitValue(code[10]));
  }

  /** The birthplace a well-formed code yields: its letter, then its three digits with letters read as digits. */
  lemma ReadValidPlace(code: string)
    requires |code| >= 15 && code[8] in MonthLetters
    requires CodeDigit(code[6]) && CodeDigit(code[7]) && CodeDigit(code[9]) && CodeDigit(code[10])
    requires CodeDigit(code[12]) && CodeDigit(code[13]) && CodeDigit(code[14])
    ensures ReadFields(code).Some?
    ensures ReadFields(code).value.place ==
      [code[11], DigitChar(DigitValue(code[12])), DigitChar(DigitValue(code[13])), DigitChar(DigitValue(code[14]))]
  {
    NormalisedValid(code);
    var n := Normalised(code);
    FieldsFromDigits(n, DigitValue(code[6]), DigitValue(code[7]), DigitValue(code[9]), DigitValue(code[10]));
    PlaceChars(n);
  }

  /** The birthplace field of a code, character by character. */
  lemma PlaceChars(n: string)
    requires |n| >= 15
    ensures n[11..15] == [n[11], n[12], n[13], n[14]]
  {
  }

  /**
   * The fields of any code: read exactly when the day field starts with a
   * number; the month is 1 plus the place of the month letter, 1 when there
   * is none; the day lies strictly between -40 and 40; the birthplace is the
   * four characters from position 11 of the normalised code.
   */
  lemma ReadFieldsShape(code: string)
    ensures |Normalised(code)| >= 15
    ensures ReadFields(code).Some? <==> LeadingNumeric(Normalised(code)[9..11])
    ensures ReadFields(code).Some? ==>
      var n, f := Normalised(code), ReadFields(code).value;
      1 <= f.month <= 12 &&
      (n[8] in MonthLetters ==> MonthLetters[f.month - 1] == n[8]) &&
      (n[8] !in MonthLetters ==> f.month == 1) &&
      -40 < f.day < 40 && (f.sex == "F" || f.sex == "M") &&
      f.place == n[11..15] && |f.place| == 4
  {
    NormalisedLength(code);
    var n := Normalised(code);
    assert n[8..9] == [n[8]];
    StrPosChar(MonthLetters, n[8]);
  }

  /** What normalisation makes of a well-formed code, character by character. */
  lemma NormalisedValid(code: string)
    requires |code| >= 15
    requires CodeDigit(code[6]) && CodeDigit(code[7]) && CodeDigit(code[9]) && CodeDigit(code[10])
    requires CodeDigit(code[12]) && CodeDigit(code[13]) && CodeDigit(code[14])
    ensures var n := Normalised(code);
      |n| >= 15 && n[8] == code[8] && n[11] == code[11] &&
      n[6] == DigitChar(DigitValue(code[6])) && n[7] == DigitChar(DigitValue(code[7])) &&
      n[9] == DigitChar(DigitValue(code[9])) && n[10] == DigitChar(DigitValue(code[10])) &&
      n[12] == DigitChar(DigitValue(code[12])) && n[13] == DigitChar(DigitValue(code[13])) &&
      n[14] == DigitChar(DigitValue(code[14]))
  {
    NormalisedLength(code);
    NormalisedKeeps(code);
    NormalisedDigit(code, 0);
    NormalisedDigit(code, 1);
    NormalisedDigit(code, 2);
    NormalisedDigit(code, 3);
    NormalisedDigit(code, 4);
    NormalisedDigit(code, 5);
    NormalisedDigit(code, 6);
  }

  /** The month letter and the birthplace letter are not at digit positions and survive normalisation. */
  lemma NormalisedKeeps(code: string)
    requires |code| >= 15
    ensures Normalised(code)[8] == code[8] && Normalised(code)[11] == code[11]
  {
    PositionsIncrease();
    NormaliseAllKeeps(code, DigitPositions);
    assert 8 !in DigitPositions && 11 !in DigitPositions;
  }

  /** A well-formed code: digits or substitute letters at the digit positions, a month letter at position 8. */
  predicate WellFormedCode(code: string)
  {
    |code| >= 15 && code[8] in MonthLetters &&
    CodeDigit(code[6]) && CodeDigit(code[7]) && CodeDigit(code[9]) && CodeDigit(code[10]) &&
    CodeDigit(code[12]) && CodeDigit(code[13]) && CodeDigit(code[14])
  }

  /**
   * The result for a well-formed code read straight off it, with no
   * normalisation and no string conversion: the date formatted from the
   * year the century window gives, the month the month letter names and
   * the day field less any 40 added for women; then the sex; then the
   * birthplace letter and its three digits.
   */
  function ReadOff(minimumAge: int, code: string, now: Date): Value
    requires WellFormedCode(code)
  {
    Reported(FieldsOff(code), minimumAge, now)
  }

  /** The fields of a well-formed code read straight off its characters. */
  function FieldsOff(code: string): Fields
    requires WellFormedCode(code)
  {
    var dd := 10 * DigitValue(code[9]) + DigitValue(code[10]);
    Fields(10 * DigitValue(code[6]) + DigitValue(code[7]), MonthOf(code[8]),
           DayNumber(DigitValue(code[9]), DigitValue(code[10])),
           if dd > 40 then "F" else "M",
           [code[11], DigitChar(DigitValue(code[12])), DigitChar(DigitValue(code[13])), DigitChar(DigitValue(code[14]))])
  }

  /** `italianFiscalCode` agrees with the direct reading on every well-formed code. */
  lemma DecodeValid(minimumAge: int, code: string, now: Date)
    requires WellFormedCode(code)
    ensures Decode(minimumAge, code, now) == Some(ReadOff(minimumAge, code, now))
  {
    ReadFieldsOff(code);
  }

  /** A well-formed code's fields are read, and are those read straight off it. */
  lemma ReadFieldsOff(code: string)
    requires WellFormedCode(code)
    ensures ReadFields(code) == Some(FieldsOff(code))
  {
    ReadValidCode(code);
    ReadValidPlace(code);
    var f := ReadFields(code).value;
    var g := FieldsOff(code);
    assert f.year == g.year && f.month == g.month && f.day == g.day;
    assert f.sex == g.sex && f.place == g.place;
  }

  /**
   * While `minimumAge` is at most the current year's last two figures,
   * the decoder as written and the windowed decoder agree on every
   * well-formed code.
   */
  lemma DecodeAsWrittenAgrees(minimumAge: int, code: string, now: Date)
    requires now.year >= 0 && 0 <= minimumAge <= now.year % 100 && WellFormedCode(code)
    ensures DecodeAsWritten(minimumAge, code, now) == Decode(minimumAge, code, now)
    ensures Decode(minimumAge, code, now) == Some(ReadOff(minimumAge, code, now))
  {
    DecodeValid(minimumAge, code, now);
    ReadValidCode(code);
    var f := ReadFields(code).value;
    AsWrittenAgrees(f.year, f.month, f.day, minimumAge, now);
  }

  /** The digit positions normalised one after the other. */
  method Normalise(code: string) returns (s: string)
    ensures s == Normalised(code)
  {
    s := code;
    var k := 0;
    while k < |DigitPositions|
      invariant 0 <= k <= |DigitPositions|
      invariant s == NormaliseAll(code, DigitPositions[..k])
    {
      var pos := DigitPositions[k];
      var numeric := StrPos(Substitutes, CharAt(s, pos));
      if numeric.Some? {
        s := WriteAt(s, pos, DigitChar(numeric.value));
      }
      assert DigitPositions[..k + 1][..k] == DigitPositions[..k];
      k := k + 1;
    }
    assert DigitPositions[..k] == DigitPositions;
  }

  /**
   * `italianFiscalCode`: the code normalised, its fields read, the century
   * chosen and the date formatted.
   */
  method ItalianFiscalCode(minimumAge: int, code: string, now: Date) returns (r: Option<Value>)
    ensures r == Decode(minimumAge, code, now)
  {
    var s := Normalise(code);
    NormalisedLength(code);
    var fields := FieldsFrom(s);
    if fields.None? {
      return None;
    }
    var f := fields.value;
    var birthYear := BirthYear(f.year, f.month, f.day, minimumAge, now);
    r := Some(List([Str(DateText(Date(birthYear, f.month, f.day))), Str(f.sex), Str(f.place)]));
  }
}
