/**
 * The input schemas of the administration forms and API procedures
 * (`src/lib/schema/admin.ts`) as predicates on the submitted values, and
 * the JavaScript `parseInt` they and the routers rely on.
 *
 * `JSON.parse` is not modelled: a schema that parses JSON takes the parse
 * function as a parameter, returning `None` where `JSON.parse` throws.
 */
module Validators {
  import opened Wrappers

  // ---------------------------------------------------------------------
  // Character classes.
  // ---------------------------------------------------------------------

  /** `\d` in a JavaScript regular expression without the `u` flag: ASCII 0-9. */
  predicate IsDigit(c: char) {
    '0' <= c <= '9'
  }

  /** A hexadecimal digit. */
  predicate IsHexDigit(c: char) {
    IsDigit(c) || 'a' <= c <= 'f' || 'A' <= c <= 'F'
  }

  /** The value of a decimal or hexadecimal digit. */
  function DigitValue(c: char): (v: int)
    requires IsHexDigit(c)
    ensures 0 <= v < 16
    ensures IsDigit(c) <==> v < 10
  {
    if IsDigit(c) then c as int - '0' as int
    else if 'a' <= c <= 'f' then c as int - 'a' as int + 10
    else c as int - 'A' as int + 10
  }

  /** A digit of the given radix (10 or 16). */
  predicate IsRadixDigit(c: char, radix: int) {
    if radix == 16 then IsHexDigit(c) else IsDigit(c)
  }

  /**
   * The white space and line terminators `parseInt` skips: tab, line feed,
   * vertical tab, form feed, carriage return, space, no-break space, the
   * byte order mark, the line and paragraph separators and every other
   * space separator.
   */
  predicate IsJsWhitespace(c: char) {
    || c == '\t' || c == '\n' || c == '\U{000B}' || c == '\U{000C}' || c == '\r'
    || c == ' ' || c == '\U{00A0}' || c == '\U{1680}'
    || ('\U{2000}' <= c <= '\U{200A}')
    || c == '\U{2028}' || c == '\U{2029}' || c == '\U{202F}' || c == '\U{205F}'
    || c == '\U{3000}' || c == '\U{FEFF}'
  }

  // ---------------------------------------------------------------------
  // parseInt(string) with no radix argument.
  // ---------------------------------------------------------------------

  /** The string without its leading white space. */
  function TrimStart(s: string): (r: string)
    ensures |r| <= |s| && r == s[|s| - |r|..]
    ensures r == [] || !IsJsWhitespace(r[0])
  {
    if s != [] && IsJsWhitespace(s[0]) then TrimStart(s[1..]) else s
  }

  /** The length of the longest prefix of `s` made of digits of `radix`. */
  function DigitRun(s: string, radix: int): (n: nat)
    ensures n <= |s|
    ensures forall i :: 0 <= i < n ==> IsRadixDigit(s[i], radix)
    ensures n < |s| ==> !IsRadixDigit(s[n], radix)
  {
    if s == [] || !IsRadixDigit(s[0], radix) then 0 else 1 + DigitRun(s[1..], radix)
  }

  /** The number a string of digits of `radix` denotes. */
  function DigitsValue(ds: string, radix: int): nat
    requires radix == 10 || radix == 16
    requires forall i :: 0 <= i < |ds| ==> IsRadixDigit(ds[i], radix)
    decreases |ds|
  {
    if ds == [] then 0
    else
      var c := ds[|ds| - 1];
      assert IsRadixDigit(c, radix);
      var high := DigitsValue(ds[..|ds| - 1], radix);
      (if radix == 16 then high * 16 else high * 10) + DigitValue(c)
  }

  /** An optional sign: whether it is '-', and the text after it. */
  function SignSplit(t: string): (bool, string) {
    if t != [] && (t[0] == '-' || t[0] == '+') then (t[0] == '-', t[1..]) else (false, t)
  }

  /** The radix: a leading `0x` or `0X` selects 16 and is dropped; otherwise 10. */
  function RadixSplit(u: string): (r: (int, string))
    ensures r.0 == 10 || r.0 == 16
  {
    if |u| >= 2 && u[0] == '0' && (u[1] == 'x' || u[1] == 'X') then (16, u[2..]) else (10, u)
  }

  /** The value of the longest run of digits at the start, or `None` if there is none. */
  function ReadDigits(v: string, radix: int): Option<nat>
    requires radix == 10 || radix == 16
  {
    var n := DigitRun(v, radix);
    if n == 0 then None else Some(DigitsValue(v[..n], radix))
  }

  /**
   * `parseInt(s)`: skip leading white space, take an optional sign, read
   * `0x`/`0X` as a switch to base 16, then read the longest run of digits
   * and ignore the rest. `None` stands for `NaN` (no digit at all). The
   * value is the exact integer; a negative zero is plain 0.
   */
  function ParseInt(s: string): Option<int> {
    ParseTrimmed(TrimStart(s))
  }

  /** `parseInt` of a string that does not start with white space. */
  function ParseTrimmed(t: string): Option<int> {
    var sign := SignSplit(t);
    var digits := RadixSplit(sign.1);
    match ReadDigits(digits.1, digits.0)
    case None => None
    case Some(m) => Some(if sign.0 then 0 - m else m)
  }

  /** The decimal numeral of a natural number, as `String(n)` writes it. */
  function DecimalString(n: nat): (s: string)
    ensures |s| >= 1 && forall i :: 0 <= i < |s| ==> IsDigit(s[i])
    ensures s[0] == '0' ==> n == 0
  {
    if n < 10 then ['0' + n as char]
    else DecimalString(n / 10) + ['0' + (n % 10) as char]
  }

  /** Reading back a numeral gives the number. */
  lemma {:induction false} DecimalValue(n: nat)
    ensures DigitsValue(DecimalString(n), 10) == n
  {
    var s := DecimalString(n);
    if n >= 10 {
      DecimalValue(n / 10);
      assert s[..|s| - 1] == DecimalString(n / 10);
    }
  }

  /** The digit run of a numeral followed by a non-digit stops at the end of the numeral. */
  lemma {:induction false} DigitRunOfNumeral(ds: string, rest: string)
    requires forall i :: 0 <= i < |ds| ==> IsDigit(ds[i])
    requires rest == [] || !IsDigit(rest[0])
    ensures DigitRun(ds + rest, 10) == |ds|
    decreases |ds|
  {
    if ds != [] {
      assert (ds + rest)[1..] == ds[1..] + rest;
      DigitRunOfNumeral(ds[1..], rest);
    } else {
      assert ds + rest == rest;
    }
  }

  /** An unsigned numeral followed by text that does not continue it reads back as its value. */
  lemma UnsignedNumeral(a: nat, rest: string)
    requires rest == [] || (!IsDigit(rest[0]) && rest[0] != 'x' && rest[0] != 'X')
    ensures var u := DecimalString(a) + rest;
      u != [] && IsDigit(u[0]) && ParseTrimmed(u) == Some(a)
  {
    var ds := DecimalString(a);
    var u := ds + rest;
    assert u[0] == ds[0];
    assert SignSplit(u) == (false, u);
    assert RadixSplit(u) == (10, u) by {
      if |ds| >= 2 { assert u[1] == ds[1]; }
      else if |u| >= 2 { assert u[1] == rest[0]; }
    }
    DigitRunOfNumeral(ds, rest);
    assert u[..|ds|] == ds;
    DecimalValue(a);
  }

  /** A leading '-' negates what follows it. */
  lemma MinusSign(u: string)
    requires u != [] && IsDigit(u[0])
    ensures ParseTrimmed("-" + u)
         == match ParseTrimmed(u) case None => None case Some(m) => Some(0 - m)
  {
    var s := "-" + u;
    assert s[0] == '-' && s[1..] == u;
    assert SignSplit(s) == (true, u);
    assert SignSplit(u) == (false, u);
  }

  /** Text that starts with something other than white space is not trimmed. */
  lemma NothingToTrim(s: string)
    requires s != [] && !IsJsWhitespace(s[0])
    ensures ParseInt(s) == ParseTrimmed(s)
  {
  }

  /** `parseInt` of a string that starts with a digit is what the digits read as. */
  lemma UnsignedParse(s: string, u: string)
    requires s == "" + u && u != [] && IsDigit(u[0])
    ensures ParseInt(s) == ParseTrimmed(u)
  {
    assert s == u;
    NothingToTrim(s);
  }

  /** The numeral of a negative number reads back as that number. */
  lemma NegativeNumeral(a: nat, rest: string)
    requires rest == [] || (!IsDigit(rest[0]) && rest[0] != 'x' && rest[0] != 'X')
    ensures ParseInt("-" + DecimalString(a) + rest) == Some(0 - a)
  {
    var u := DecimalString(a) + rest;
    UnsignedNumeral(a, rest);
    Regroup("-", DecimalString(a), rest);
    SignedParse("-" + DecimalString(a) + rest, u);
  }

  /** Concatenation is associative. */
  lemma Regroup(a: string, b: string, c: string)
    ensures a + b + c == a + (b + c)
  {
  }

  /** `parseInt` of '-' followed by digits negates what the digits read as. */
  lemma SignedParse(s: string, u: string)
    requires s == "-" + u && u != [] && IsDigit(u[0])
    ensures ParseInt(s) == match ParseTrimmed(u) case None => None case Some(m) => Some(0 - m)
  {
    assert s[0] == '-';
    NothingToTrim(s);
    MinusSign(u);
  }

  /**
   * `parseInt` reads back the numeral of any integer, also when text that
   * does not continue the number follows it (so "7天" reads as 7).
   */
  lemma ParseIntOfNumeral(n: int, rest: string)
    requires rest == [] || (!IsDigit(rest[0]) && rest[0] != 'x' && rest[0] != 'X')
    ensures ParseInt((if n < 0 then "-" else "") + DecimalString(if n < 0 then -n else n) + rest) == Some(n)
  {
    var sign, a := if n < 0 then "-" else "", if n < 0 then -n else n;
    if n < 0 {
      assert sign == "-" && a == -n;
      NegativeNumeral(a, rest);
    } else {
      assert sign == "" && a == n;
      UnsignedNumeral(a, rest);
      UnsignedParse(sign + DecimalString(a) + rest, DecimalString(a) + rest);
    }
  }

  /** White space before the number changes nothing. */
  lemma ParseIntSkipsWhitespace(ws: string, s: string)
    requires forall i :: 0 <= i < |ws| ==> IsJsWhitespace(ws[i])
    ensures ParseInt(ws + s) == ParseInt(s)
  {
    TrimAll(ws, s);
  }

  lemma {:induction false} TrimAll(ws: string, s: string)
    requires forall i :: 0 <= i < |ws| ==> IsJsWhitespace(ws[i])
    ensures TrimStart(ws + s) == TrimStart(s)
    decreases |ws|
  {
    if ws == [] {
      assert ws + s == s;
    } else {
      assert (ws + s)[0] == ws[0] && (ws + s)[1..] == ws[1..] + s;
      TrimAll(ws[1..], s);
    }
  }

  // ---------------------------------------------------------------------
  // Field rules.
  // ---------------------------------------------------------------------

  /** `z.string().min(1)`. */
  predicate NonEmpty(s: string) {
    |s| >= 1
  }

  /** `/^\d{4}-\d{2}-\d{2}$/`: four digits, '-', two digits, '-', two digits, nothing else. */
  predicate DateShapeOk(s: string) {
    && |s| == 10
    && IsDigit(s[0]) && IsDigit(s[1]) && IsDigit(s[2]) && IsDigit(s[3])
    && s[4] == '-'
    && IsDigit(s[5]) && IsDigit(s[6])
    && s[7] == '-'
    && IsDigit(s[8]) && IsDigit(s[9])
  }

  /** `z.string().min(1, ...).regex(/^\d{4}-\d{2}-\d{2}$/, ...)`: the date field of a report and of the home query. */
  predicate DateFieldOk(s: string) {
    NonEmpty(s) && DateShapeOk(s)
  }

  /**
   * The date rule accepts exactly the strings of the shape: the minimum
   * length adds nothing, and the calendar is not consulted (month 13 and
   * day 00 pass).
   */
  lemma DateFieldIsShape(s: string)
    ensures DateFieldOk(s) <==> DateShapeOk(s)
    ensures DateFieldOk("2024-13-00")
    ensures !DateFieldOk("2024-6-01") && !DateFieldOk("2024/06/01") && !DateFieldOk("")
  {
    assert "2024-6-01"[4] == '-' && !IsDigit("2024-6-01"[6]);
  }

  /** The `repeated` refinement: `parseInt(val)` is a number from 1 to 30. */
  predicate RepeatedOk(s: string) {
    match ParseInt(s)
    case None => false
    case Some(n) => 1 <= n <= 30
  }

  /** The numerals of 1 to 30 are accepted, with or without trailing text; their neighbours are not. */
  lemma RepeatedRange(n: int, rest: string)
    requires rest == [] || (!IsDigit(rest[0]) && rest[0] != 'x' && rest[0] != 'X')
    ensures RepeatedOk((if n < 0 then "-" else "") + DecimalString(if n < 0 then -n else n) + rest)
        <==> 1 <= n <= 30
  {
    ParseIntOfNumeral(n, rest);
  }

  /** Trailing text after the number is ignored: "7天" is 7. */
  lemma RepeatedTrailingText()
    ensures RepeatedOk("7天")
  {
    NothingToTrim("7天");
    var u := "7天";
    assert SignSplit(u) == (false, u);
    assert RadixSplit(u) == (10, u);
    assert DigitRun(u, 10) == 1;
    assert u[..1] == "7";
    assert DigitsValue(u[..1], 10) == 7;
  }

  /** Leading white space and leading zeros are skipped: " 07" is 7. */
  lemma RepeatedLeadingSpace()
    ensures RepeatedOk(" 07")
  {
    var s, u := " 07", "07";
    assert s[1..] == u;
    NothingToTrim(u);
    assert TrimStart(s) == u;
    assert SignSplit(u) == (false, u);
    assert RadixSplit(u) == (10, u);
    assert DigitRun(u, 10) == 2;
    assert u[..2] == u && u[..1] == "0";
    assert DigitsValue(u, 10) == 7;
  }

  lemma LeadingZero()
    ensures ParseInt("07") == Some(7)
  {
    NothingToTrim("07");
    var u := "07";
    assert SignSplit(u) == (false, u);
    assert RadixSplit(u) == (10, u);
    assert DigitRun(u, 10) == 2;
    assert u[..2] == u && u[..1] == "0";
    assert DigitsValue(u, 10) == 7;
  }

  /** A `0x` prefix switches to base 16: "0x1E" is 30 and passes. */
  lemma RepeatedHexAccepted()
    ensures RepeatedOk("0x1E")
  {
    var h := "0x1E";
    NothingToTrim(h);
    assert SignSplit(h) == (false, h);
    assert RadixSplit(h) == (16, "1E");
    var v := "1E";
    assert DigitRun(v, 16) == 2;
    assert v[..2] == v && v[..1] == "1";
    assert DigitsValue(v, 16) == 30;
  }

  /** "0x1F" is 31 and is refused. */
  lemma RepeatedHexRefused()
    ensures !RepeatedOk("0x1F")
  {
    var h := "0x1F";
    NothingToTrim(h);
    assert SignSplit(h) == (false, h);
    assert RadixSplit(h) == (16, "1F");
    var v := "1F";
    assert DigitRun(v, 16) == 2;
    assert v[..2] == v && v[..1] == "1";
    assert DigitsValue(v, 16) == 31;
  }

  /** Text with no digits is refused. */
  lemma RepeatedNoDigits()
    ensures !RepeatedOk("abc") && !RepeatedOk("")
  {
    NothingToTrim("abc");
    assert SignSplit("abc") == (false, "abc");
    assert RadixSplit("abc") == (10, "abc");
    assert DigitRun("abc", 10) == 0;
  }

  // ---------------------------------------------------------------------
  // The JSON shape of the evidence field.
  // ---------------------------------------------------------------------

  /** A JSON value; numbers are kept as integers (their value is never inspected here). */
  datatype Json =
    | JNull
    | JBool(b: bool)
    | JNumber(n: int)
    | JString(s: string)
    | JArray(items: seq<Json>)
    | JObject(fields: seq<(string, Json)>)

  /** An array every item of which is a string. */
  predicate IsStringArray(j: Json) {
    j.JArray? && forall i :: 0 <= i < |j.items| ==> j.items[i].JString?
  }

  /**
   * The `evidence` refinement, given what `JSON.parse` made of the field:
   * an issue is raised only for a successful parse that is not an array of
   * strings; a value `JSON.parse` rejects (`None`) passes.
   */
  predicate EvidenceOk(parsed: Option<Json>) {
    match parsed
    case None => true
    case Some(j) => IsStringArray(j)
  }

  /** The storage paths an array of strings holds. */
  function Paths(j: Json): (ps: seq<string>)
    requires IsStringArray(j)
    ensures |ps| == |j.items|
    ensures forall i :: 0 <= i < |ps| ==> j.items[i] == JString(ps[i])
  {
    seq(|j.items|, i requires 0 <= i < |j.items| => j.items[i].s)
  }

  /** The JSON array of a list of storage paths, as the upload form serialises it. */
  function PathArray(ps: seq<string>): (j: Json)
    ensures IsStringArray(j)
  {
    JArray(seq(|ps|, i requires 0 <= i < |ps| => JString(ps[i])))
  }

  /**
   * Evidence is refused exactly when it parses to something other than
   * an array of strings; every list of paths is accepted and read back
   * unchanged.
   */
  lemma EvidenceRule(parsed: Option<Json>, ps: seq<string>)
    ensures !EvidenceOk(parsed) <==> parsed.Some? && !IsStringArray(parsed.value)
    ensures EvidenceOk(Some(PathArray(ps))) && Paths(PathArray(ps)) == ps
    ensures EvidenceOk(None)
    ensures !EvidenceOk(Some(JNull)) && !EvidenceOk(Some(JString("a.png")))
    ensures !EvidenceOk(Some(JArray([JString("a.png"), JNumber(1)])))
  {
    var bad := JArray([JString("a.png"), JNumber(1)]);
    assert !bad.items[1].JString?;
  }

  // ---------------------------------------------------------------------
  // The schemas.
  // ---------------------------------------------------------------------

  /** `classCreateSchema`. */
  predicate ClassCreateOk(name: string) {
    NonEmpty(name)
  }

  /** `areaCreateSchema`: the class arrives as the text of its id. */
  predicate AreaCreateOk(name: string, classId: string) {
    NonEmpty(name) && NonEmpty(classId)
  }

  /** `areaUpdateSchema`: an integer id, a name and an integer class id of at least 1. */
  predicate AreaUpdateOk(name: string, classId: int) {
    NonEmpty(name) && classId >= 1
  }

  /** `defaultCreateSchema`. */
  predicate DefaultCreateOk(shorthand: string, text: string) {
    NonEmpty(shorthand) && NonEmpty(text)
  }

  /** The fields of a report submission. */
  datatype ReportForm = ReportForm(
    date: string,
    text: string,
    repeated: string,
    areaId: int,
    evidence: string,
    comment: Option<string>)

  /** `evaluateReportSchema`, with `JSON.parse` as a parameter. */
  predicate EvaluateReportOk(f: ReportForm, jsonParse: string -> Option<Json>) {
    && DateFieldOk(f.date)
    && NonEmpty(f.text)
    && RepeatedOk(f.repeated)
    && f.areaId >= 1
    && EvidenceOk(jsonParse(f.evidence))
  }

  /**
   * An accepted submission has a date of the right shape, a text, an area
   * id of at least 1, and a `repeated` count that `parseInt` reads as a
   * number from 1 to 30; the comment may be absent.
   */
  lemma AcceptedReport(f: ReportForm, jsonParse: string -> Option<Json>)
    requires EvaluateReportOk(f, jsonParse)
    ensures DateShapeOk(f.date) && |f.text| >= 1 && f.areaId >= 1
    ensures ParseInt(f.repeated).Some? && 1 <= ParseInt(f.repeated).value <= 30
    ensures EvaluateReportOk(f.(comment := None), jsonParse)
  {
  }
}
