/**
 * The line-oriented `key = value` configuration parser of
 * xbeachmi/parsers.py (class ConfigParser): the value classifier
 * `parse_config_value` and the line loop of `parse_config_file`, taken
 * over the lines of a file rather than the file itself.
 */
module Parsers {
  import opened Wrappers

  // ---------------------------------------------------------------------
  // Characters and stripping

  /** The characters Python 2's `str.strip()` and the regex class `\s` treat as whitespace. */
  predicate IsSpace(c: char) {
    c == ' ' || c == '\t' || c == '\n' || c == '\r' || c as int == 11 || c as int == 12
  }

  predicate IsDigit(c: char) {
    '0' <= c <= '9'
  }

  /** The first index at or after `i` holding `c`, or `|s|`. */
  function IndexFrom(s: string, c: char, i: nat): (k: nat)
    requires i <= |s|
    ensures i <= k <= |s|
    ensures k < |s| ==> s[k] == c
    ensures forall j :: i <= j < k ==> s[j] != c
    decreases |s| - i
  {
    if i == |s| || s[i] == c then i else IndexFrom(s, c, i + 1)
  }

  function IndexOf(s: string, c: char): (k: nat)
    ensures k <= |s|
    ensures k < |s| <==> c in s
    ensures k < |s| ==> s[k] == c
    ensures forall j :: 0 <= j < k ==> s[j] != c
  {
    IndexFrom(s, c, 0)
  }

  /** The first index at or after `i` holding whitespace, or `|s|`. */
  function SpaceFrom(s: string, i: nat): (k: nat)
    requires i <= |s|
    ensures i <= k <= |s|
    ensures k < |s| ==> IsSpace(s[k])
    ensures forall j :: i <= j < k ==> !IsSpace(s[j])
    decreases |s| - i
  {
    if i == |s| || IsSpace(s[i]) then i else SpaceFrom(s, i + 1)
  }

  predicate HasSpace(s: string) {
    SpaceFrom(s, 0) < |s|
  }

  /** The first index at or after `i` holding no whitespace, or `|s|`. */
  function SkipSpaces(s: string, i: nat): (k: nat)
    requires i <= |s|
    ensures i <= k <= |s|
    ensures k < |s| ==> !IsSpace(s[k])
    ensures forall j :: i <= j < k ==> IsSpace(s[j])
    decreases |s| - i
  {
    if i < |s| && IsSpace(s[i]) then SkipSpaces(s, i + 1) else i
  }

  /** The end of `s[..j]` once its trailing whitespace is dropped. */
  function TextEnd(s: string, j: nat): (k: nat)
    requires j <= |s|
    ensures k <= j
    ensures k > 0 ==> !IsSpace(s[k - 1])
    ensures forall i :: k <= i < j ==> IsSpace(s[i])
  {
    if j > 0 && IsSpace(s[j - 1]) then TextEnd(s, j - 1) else j
  }

  predicate AllSpace(s: string) {
    forall i :: 0 <= i < |s| ==> IsSpace(s[i])
  }

  predicate Stripped(s: string) {
    s != [] ==> !IsSpace(s[0]) && !IsSpace(s[|s| - 1])
  }

  /** Python's `str.strip()`. */
  function Strip(s: string): (r: string)
    ensures Stripped(r)
  {
    var a := SkipSpaces(s, 0);
    var b := TextEnd(s, |s|);
    if a < b then s[a..b] else []
  }

  /** `s` without its leading whitespace (what the regex `\s*` after `=` absorbs). */
  function TrimStart(s: string): (r: string)
  {
    s[SkipSpaces(s, 0)..]
  }

  /** `s` without its trailing whitespace (what the regex `\s*` before `=` absorbs). */
  function TrimEnd(s: string): (r: string)
  {
    s[..TextEnd(s, |s|)]
  }

  /** Stripping removes exactly the whitespace around the text. */
  lemma StripOf(p: string, m: string, q: string)
    requires AllSpace(p) && AllSpace(q) && Stripped(m)
    ensures Strip(p + m + q) == m
  {
    var s := p + m + q;
    var a := SkipSpaces(s, 0);
    var b := TextEnd(s, |s|);
    if m == [] {
      assert AllSpace(s) by {
        forall i | 0 <= i < |s| ensures IsSpace(s[i]) {
          if i < |p| { assert s[i] == p[i]; } else { assert s[i] == q[i - |p|]; }
        }
      }
      assert a == |s|;
    } else {
      assert s[|p|] == m[0];
      assert s[|p| + |m| - 1] == m[|m| - 1];
      assert forall i :: 0 <= i < |p| ==> s[i] == p[i];
      assert a == |p|;
      assert forall i :: |p| + |m| <= i < |s| ==> s[i] == q[i - |p| - |m|];
      assert b == |p| + |m|;
      assert s[a..b] == m;
    }
  }

  lemma StrippedFixed(s: string)
    requires Stripped(s)
    ensures Strip(s) == s
  {
    StripOf([], s, []);
    assert [] + s + [] == s;
  }

  /** Stripping twice is stripping once. */
  lemma StripIdempotent(s: string)
    ensures Strip(Strip(s)) == Strip(s)
  {
    StrippedFixed(Strip(s));
  }

  /** `s` is its stripped core with whitespace on either side. */
  lemma StripSplits(s: string) returns (p: string, q: string)
    ensures AllSpace(p) && AllSpace(q) && s == p + Strip(s) + q
  {
    var a := SkipSpaces(s, 0);
    var b := TextEnd(s, |s|);
    if a < b {
      p, q := s[..a], s[b..];
      assert s == s[..a] + s[a..b] + s[b..];
    } else {
      p, q := s, [];
      assert AllSpace(s) by {
        forall i | 0 <= i < |s| ensures IsSpace(s[i]) {
          if i >= b { } else { assert i < a; }
        }
      }
    }
  }

  // ---------------------------------------------------------------------
  // Numbers

  predicate AllDigits(d: string) {
    forall i :: 0 <= i < |d| ==> IsDigit(d[i])
  }

  /** The decimal number a digit string denotes. */
  function DigitsValue(d: string): (n: nat)
    requires AllDigits(d)
  {
    if d == [] then 0 else 10 * DigitsValue(d[..|d| - 1]) + (d[|d| - 1] as int - '0' as int)
  }

  function Pow10(k: nat): (p: nat)
    ensures p >= 1
  {
    if k == 0 then 1 else 10 * Pow10(k - 1)
  }

  /** The text matches `[\-0-9]+$`. */
  predicate MatchesIntPattern(v: string) {
    |v| > 0 && forall i :: 0 <= i < |v| ==> IsDigit(v[i]) || v[i] == '-'
  }

  /** The text matches `[\-0-9\.]+$`. */
  predicate MatchesFloatPattern(v: string) {
    |v| > 0 && forall i :: 0 <= i < |v| ==> IsDigit(v[i]) || v[i] == '-' || v[i] == '.'
  }

  /** The text with one leading minus sign removed. */
  function Unsigned(v: string): (u: string)
  {
    if |v| > 0 && v[0] == '-' then v[1..] else v
  }

  /** What Python's `int()` accepts among texts made of digits and minus signs: an optional sign and digits. */
  predicate IntLiteral(v: string) {
    var u := Unsigned(v);
    |u| > 0 && AllDigits(u)
  }

  function IntOf(v: string): (n: int)
    requires IntLiteral(v)
  {
    if v[0] == '-' then -(DigitsValue(v[1..]) as int) else DigitsValue(v)
  }

  /**
   * What Python's `float()` accepts among texts made of digits, minus
   * signs and dots: an optional sign, one dot, and at least one digit.
   */
  predicate FloatLiteral(v: string) {
    var u := Unsigned(v);
    var k := IndexOf(u, '.');
    k < |u| && |u| >= 2 && AllDigits(u[..k]) && AllDigits(u[k + 1..])
  }

  /** The exact value of a float literal (rounding to a double is not modelled). */
  function FloatOf(v: string): (x: real)
    requires FloatLiteral(v)
  {
    var u := Unsigned(v);
    var k := IndexOf(u, '.');
    var m := DigitsValue(u[..k]) as real + DigitsValue(u[k + 1..]) as real / Pow10(|u| - k - 1) as real;
    if |v| > 0 && v[0] == '-' then -m else m
  }

  // ---------------------------------------------------------------------
  // Values

  datatype ConfigValue =
    | Bool(b: bool)
    | Int(i: int)
    | Float(x: real)
    | Str(s: string)
    | List(items: seq<ConfigValue>)

  /** The Python exceptions the parser can raise. */
  datatype ParseError = NameError | ValueError

  /** The scalar tests of `parse_config_value`, in their order, on text without whitespace. */
  function ParseScalar(v: string): (r: Result<ConfigValue, ParseError>)
    ensures r.Ok? ==> !r.value.List?
    ensures r.Ok? && r.value.Str? ==> r.value.s == v
    ensures r.Err? ==> r.error == ValueError
  {
    if v == "F" || v == "T" then Ok(Bool(v == "T"))
    else if MatchesIntPattern(v) then
      if IntLiteral(v) then Ok(Int(IntOf(v))) else Err(ValueError)
    else if MatchesFloatPattern(v) then
      if FloatLiteral(v) then Ok(Float(FloatOf(v))) else Err(ValueError)
    else Ok(Str(v))
  }

  /**
   * `parse_config_value` as written. The whitespace branch builds its list
   * with `self.parse_config_value`, but the method is a `@staticmethod`,
   * so `self` is unbound there and the branch raises `NameError`.
   */
  function ParseConfigValue(value: string, forceList: bool := false): (r: Result<ConfigValue, ParseError>)
    ensures (HasSpace(Strip(value)) || forceList) <==> r == Err(NameError)
  {
    var v := Strip(value);
    if HasSpace(v) || forceList then Err(NameError) else ParseScalar(v)
  }

  /** `re.split('\s+', v)` on a stripped text. */
  function Tokens(v: string): (ts: seq<string>)
    requires Stripped(v)
    ensures |ts| >= 1
    ensures v != [] ==> forall j :: 0 <= j < |ts| ==> ts[j] != [] && !HasSpace(ts[j])
    decreases |v|
  {
    var k := SpaceFrom(v, 0);
    if k == |v| then [v]
    else
      var rest := TrimStart(v[k..]);
      assert rest != [] && rest[|rest| - 1] == v[|v| - 1];
      assert !HasSpace(v[..k]) by {
        assert forall j :: 0 <= j < k ==> v[..k][j] == v[j];
      }
      [v[..k]] + Tokens(rest)
  }

  /** Parses every token; the first failing one raises for the whole list. */
  function ParseItems(ts: seq<string>): (r: Result<seq<ConfigValue>, ParseError>)
    ensures r.Ok? ==> |r.value| == |ts| && forall j :: 0 <= j < |ts| ==> Ok(r.value[j]) == ParseScalar(ts[j])
  {
    if ts == [] then Ok([])
    else
      match ParseScalar(ts[0])
      case Err(e) => Err(e)
      case Ok(x) =>
        match ParseItems(ts[1..])
        case Err(e) => Err(e)
        case Ok(xs) => Ok([x] + xs)
  }

  /** `parse_config_value` as evidently intended: the whitespace branch yields the list of parsed items. */
  function ParseConfigValueFixed(value: string, forceList: bool := false): (r: Result<ConfigValue, ParseError>)
  {
    var v := Strip(value);
    if HasSpace(v) || forceList then
      match ParseItems(Tokens(v))
      case Err(e) => Err(e)
      case Ok(xs) => Ok(List(xs))
    else ParseScalar(v)
  }

  // ---------------------------------------------------------------------
  // Properties of the value classifier

  /** The value is stripped before any test is made. */
  lemma ParseStripsFirst(value: string, forceList: bool)
    ensures ParseConfigValue(value, forceList) == ParseConfigValue(Strip(value), forceList)
    ensures ParseConfigValueFixed(value, forceList) == ParseConfigValueFixed(Strip(value), forceList)
  {
    StripIdempotent(value);
  }

  /** Exactly `T` gives True and exactly `F` gives False. */
  lemma BoolExactly(value: string)
    ensures ParseConfigValue(value) == Ok(Bool(true)) <==> Strip(value) == "T"
    ensures ParseConfigValue(value) == Ok(Bool(false)) <==> Strip(value) == "F"
  {
    var v := Strip(value);
    if v == "T" || v == "F" {
      assert SpaceFrom(v, 0) == 1;
    }
  }

  /** Text made of digits and minus signs takes the integer branch: never a float, a string or a boolean. */
  lemma IntPatternBeforeFloat(value: string)
    requires !HasSpace(Strip(value)) && MatchesIntPattern(Strip(value))
    ensures ParseConfigValue(value) == (if IntLiteral(Strip(value)) then Ok(Int(IntOf(Strip(value)))) else Err(ValueError))
  {
    var v := Strip(value);
    assert !IsDigit(v[0]) ==> v[0] == '-';
  }

  /** With a dot among digits and minus signs, the float branch is taken. */
  lemma FloatPatternWithDot(value: string)
    requires !HasSpace(Strip(value)) && MatchesFloatPattern(Strip(value)) && '.' in Strip(value)
    ensures ParseConfigValue(value) == (if FloatLiteral(Strip(value)) then Ok(Float(FloatOf(Strip(value)))) else Err(ValueError))
  {
    var v := Strip(value);
    var k := IndexOf(v, '.');
    assert !MatchesIntPattern(v) by { assert !IsDigit(v[k]); }
    assert !IsDigit(v[0]) ==> v[0] == '-' || v[0] == '.';
  }

  /** Anything else, the empty text included, comes back as the stripped text. */
  lemma OtherTextIsString(value: string)
    requires !HasSpace(Strip(value)) && !MatchesFloatPattern(Strip(value))
    requires Strip(value) != "T" && Strip(value) != "F"
    ensures ParseConfigValue(value) == Ok(Str(Strip(value)))
  {
  }

  /** Regex matches that are not literals raise ValueError. */
  lemma NotALiteral()
    ensures ParseConfigValue("-") == Err(ValueError)
    ensures ParseConfigValue("1.2.3") == Err(ValueError)
  {
    StrippedFixed("-");
    assert SpaceFrom("-", 0) == 1;
    var w := "1.2.3";
    StrippedFixed(w);
    assert SpaceFrom(w, 0) == 5;
    assert !MatchesIntPattern(w) by { assert !IsDigit(w[1]); }
    assert IndexOf(w, '.') == 1;
    assert !AllDigits(w[2..]) by { assert w[2..][1] == '.'; }
  }

  /** A float literal and its exact value. */
  lemma FloatExample()
    ensures ParseConfigValue("0.5") == Ok(Float(0.5))
  {
    var a := "0.5";
    StrippedFixed(a);
    assert SpaceFrom(a, 0) == 3;
    assert !MatchesIntPattern(a) by { assert !IsDigit(a[1]); }
    assert Unsigned(a) == a;
    assert IndexOf(a, '.') == 1;
    assert a[..1] == "0" && a[2..] == "5";
    assert DigitsValue("0") == 0 && DigitsValue("5") == 5;
    assert FloatLiteral(a);
    assert FloatOf(a) == 0.5;
  }

  /** A signed float literal without integer digits. */
  lemma SignedFloatExample()
    ensures ParseConfigValue("-.25") == Ok(Float(-0.25))
  {
    var b := "-.25";
    StrippedFixed(b);
    assert SpaceFrom(b, 0) == 4;
    assert !MatchesIntPattern(b) by { assert !IsDigit(b[1]); }
    var u := Unsigned(b);
    assert u == ".25";
    assert IndexOf(u, '.') == 0;
    assert u[1..] == "25" && u[..0] == "";
    assert DigitsValue("25") == 25 by { assert "25"[..1] == "2"; }
    assert Pow10(2) == 100;
    assert FloatLiteral(b);
    assert FloatOf(b) == -0.25;
  }

  lemma EmptyIsString()
    ensures ParseConfigValue("") == Ok(Str(""))
    ensures ParseConfigValue(" \t\n") == Ok(Str(""))
  {
    StripOf(" \t\n", "", "");
    assert " \t\n" + "" + "" == " \t\n";
  }

  /** The decimal rendering of a natural number. */
  function ShowNat(n: nat): (d: string)
    ensures |d| >= 1 && AllDigits(d)
  {
    if n < 10 then [('0' as int + n) as char] else ShowNat(n / 10) + [('0' as int + n % 10) as char]
  }

  /** The decimal rendering of an integer, as Python's `str()` gives it. */
  function ShowInt(n: int): (d: string)
  {
    if n < 0 then "-" + ShowNat(-n) else ShowNat(n)
  }

  lemma {:induction false} ShowNatValue(n: nat)
    ensures DigitsValue(ShowNat(n)) == n
  {
    if n >= 10 {
      ShowNatValue(n / 10);
      var d := ShowNat(n);
      assert d[..|d| - 1] == ShowNat(n / 10);
    }
  }

  /** Rendering an integer in decimal and parsing it back gives the integer. */
  lemma IntRoundTrip(n: int)
    ensures ParseConfigValue(ShowInt(n)) == Ok(Int(n))
  {
    var d := ShowInt(n);
    var m: nat := if n < 0 then -n else n;
    ShowNatValue(m);
    assert forall i :: 0 <= i < |d| ==> IsDigit(d[i]) || d[i] == '-';
    assert Stripped(d) by {
      assert !IsSpace(d[0]) && !IsSpace(d[|d| - 1]);
    }
    StrippedFixed(d);
    assert !HasSpace(d);
    assert d != "F" && d != "T" by {
      assert IsDigit(d[0]) || d[0] == '-';
    }
    if n < 0 {
      assert Unsigned(d) == ShowNat(m);
    } else {
      assert Unsigned(d) == d;
    }
  }

  /** As written, any value with inner whitespace makes the parser raise NameError. */
  lemma ListBranchRaises()
    ensures ParseConfigValue("1 2") == Err(NameError)
  {
    StrippedFixed("1 2");
    assert SpaceFrom("1 2", 0) == 1;
  }

  /** As intended, a value with inner whitespace is the list of its parsed tokens. */
  lemma FixedListBranch()
    ensures ParseConfigValueFixed("1 2") == Ok(List([Int(1), Int(2)]))
  {
    var v := "1 2";
    StrippedFixed(v);
    assert SpaceFrom(v, 0) == 1;
    assert v[1..] == " 2" && SkipSpaces(" 2", 0) == 1;
    assert TrimStart(v[1..]) == "2";
    assert SpaceFrom("2", 0) == 1;
    assert Tokens("2") == ["2"];
    assert v[..1] == "1";
    assert Tokens(v) == ["1", "2"];
    assert ParseScalar("1") == Ok(Int(1)) by {
      assert "1" == ShowInt(1);
      IntRoundTrip(1);
      StrippedFixed("1");
    }
    assert ParseScalar("2") == Ok(Int(2)) by {
      assert "2" == ShowInt(2);
      IntRoundTrip(2);
      StrippedFixed("2");
    }
    assert ["1", "2"][1..] == ["2"] && ["2"][1..] == [];
    assert ParseItems([]) == Ok([]);
    assert [Int(2)] + [] == [Int(2)];
    assert ParseItems(["2"]) == Ok([Int(2)]);
    assert [Int(1)] + [Int(2)] == [Int(1), Int(2)];
    assert ParseItems(["1", "2"]) == Ok([Int(1), Int(2)]);
  }

  /** In the intended parser each list item is what the written parser gives its token. */
  lemma FixedItemsAreParsedTokens(value: string)
    requires HasSpace(Strip(value))
    ensures var r := ParseConfigValueFixed(value);
      var ts := Tokens(Strip(value));
      r.Ok? ==> (r.value.List? && |r.value.items| == |ts| &&
                 forall j :: 0 <= j < |ts| ==> Ok(r.value.items[j]) == ParseConfigValue(ts[j]))
  {
    var v := Strip(value);
    var ts := Tokens(v);
    forall j | 0 <= j < |ts|
      ensures ParseConfigValue(ts[j]) == ParseScalar(ts[j])
    {
      var t := ts[j];
      assert t != [] && !HasSpace(t);
      assert Stripped(t) by {
        assert !IsSpace(t[0]) && !IsSpace(t[|t| - 1]);
      }
      StrippedFixed(t);
    }
  }

  /** The intended parser agrees with the written one wherever the written one does not raise NameError. */
  lemma FixedAgreesOutsideListBranch(value: string, forceList: bool)
    requires ParseConfigValue(value, forceList) != Err(NameError)
    ensures ParseConfigValueFixed(value, forceList) == ParseConfigValue(value, forceList)
  {
  }

  // ---------------------------------------------------------------------
  // The file loop

  /** The key of a line: the text before the first `=`, less the whitespace the split absorbs, stripped. */
  function KeyOf(line: string): (k: string)
    requires '=' in line
  {
    Strip(TrimEnd(line[..IndexOf(line, '=')]))
  }

  /** The value text of a line: what follows the first `=` and the whitespace after it. */
  function RawValueOf(line: string): (v: string)
    requires '=' in line
  {
    TrimStart(line[IndexOf(line, '=') + 1..])
  }

  lemma AllSpaceOfParts(s: string, p: string, q: string)
    requires AllSpace(p) && AllSpace(q) && s == p + [] + q
    ensures AllSpace(s)
  {
    forall i | 0 <= i < |s| ensures IsSpace(s[i]) {
      if i < |p| { assert s[i] == p[i]; } else { assert s[i] == q[i - |p|]; }
    }
  }

  lemma TrimEndThenStrip(s: string)
    ensures Strip(TrimEnd(s)) == Strip(s)
  {
    var p, q := StripSplits(s);
    var m := Strip(s);
    var e := TextEnd(s, |s|);
    if m == [] {
      AllSpaceOfParts(s, p, q);
      assert s[..e] == [];
    } else {
      assert s[|p| + |m| - 1] == m[|m| - 1];
      assert forall i :: |p| + |m| <= i < |s| ==> s[i] == q[i - |p| - |m|];
      assert e == |p| + |m|;
      assert s[..e] == p + m + [];
      StripOf(p, m, []);
    }
  }

  lemma TrimStartThenStrip(s: string)
    ensures Strip(TrimStart(s)) == Strip(s)
  {
    var p, q := StripSplits(s);
    var m := Strip(s);
    var a := SkipSpaces(s, 0);
    if m == [] {
      AllSpaceOfParts(s, p, q);
      assert s[a..] == [];
    } else {
      assert s[|p|] == m[0];
      assert forall i :: 0 <= i < |p| ==> s[i] == p[i];
      assert a == |p|;
      assert s[a..] == [] + m + q;
      StripOf([], m, q);
    }
  }

  /** Absorbing the whitespace around `=` changes neither the key nor the parsed value. */
  lemma SplitAtFirstEquals(line: string)
    requires '=' in line
    ensures KeyOf(line) == Strip(line[..IndexOf(line, '=')])
    ensures '=' !in line[..IndexOf(line, '=')]
    ensures ParseConfigValueFixed(RawValueOf(line)) == ParseConfigValueFixed(line[IndexOf(line, '=') + 1..])
  {
    var k := IndexOf(line, '=');
    TrimEndThenStrip(line[..k]);
    var after := line[k + 1..];
    TrimStartThenStrip(after);
    ParseStripsFirst(RawValueOf(line), false);
    ParseStripsFirst(after, false);
  }

  /** The value parser `parse_config_file` applies to each value text. */
  function ParseValue(v: string): (r: Result<ConfigValue, ParseError>)
  {
    ParseConfigValueFixed(v)
  }

  /** One line's effect on the dictionary built so far. */
  function AddLine(parse: string -> Result<ConfigValue, ParseError>, config: map<string, ConfigValue>, line: string)
    : (r: Result<map<string, ConfigValue>, ParseError>)
  {
    if '=' !in line then Ok(config)
    else
      match parse(RawValueOf(line))
      case Err(e) => Err(e)
      case Ok(v) => Ok(config[KeyOf(line) := v])
  }

  /** The dictionary the line loop builds with a given value parser, or the exception it raises. */
  function ConfigWith(parse: string -> Result<ConfigValue, ParseError>, lines: seq<string>)
    : (r: Result<map<string, ConfigValue>, ParseError>)
    decreases |lines|
  {
    if lines == [] then Ok(map[])
    else
      match ConfigWith(parse, lines[..|lines| - 1])
      case Err(e) => Err(e)
      case Ok(m) => AddLine(parse, m, lines[|lines| - 1])
  }

  /** What `parse_config_file` returns for the lines of a file. */
  function ConfigOf(lines: seq<string>): (r: Result<map<string, ConfigValue>, ParseError>)
  {
    ConfigWith(ParseValue, lines)
  }

  predicate DefinesKey(line: string, key: string) {
    '=' in line && KeyOf(line) == key
  }

  /** The first exception raised by a line ends the parse. */
  lemma {:induction false} ErrorAborts(parse: string -> Result<ConfigValue, ParseError>, lines: seq<string>, n: nat)
    requires n <= |lines| && ConfigWith(parse, lines[..n]).Err?
    ensures ConfigWith(parse, lines) == ConfigWith(parse, lines[..n])
    decreases |lines| - n
  {
    if n < |lines| {
      assert lines[..n + 1][..n] == lines[..n];
      ErrorAborts(parse, lines, n + 1);
    } else {
      assert lines[..n] == lines;
    }
  }

  /** The parse raises exactly when some line with `=` has a value that raises. */
  lemma {:induction false} FailsIffSomeValueFails(parse: string -> Result<ConfigValue, ParseError>, lines: seq<string>)
    ensures ConfigWith(parse, lines).Err? <==>
      exists i :: 0 <= i < |lines| && '=' in lines[i] && parse(RawValueOf(lines[i])).Err?
    decreases |lines|
  {
    if lines != [] {
      var init := lines[..|lines| - 1];
      FailsIffSomeValueFails(parse, init);
      assert forall i :: 0 <= i < |init| ==> init[i] == lines[i];
    }
  }

  /** The keys of the result are exactly the keys of the lines that contain `=`. */
  lemma {:induction false} ConfigKeys(parse: string -> Result<ConfigValue, ParseError>, lines: seq<string>, key: string)
    requires ConfigWith(parse, lines).Ok?
    ensures key in ConfigWith(parse, lines).value <==> exists i :: 0 <= i < |lines| && DefinesKey(lines[i], key)
    decreases |lines|
  {
    if lines != [] {
      var init := lines[..|lines| - 1];
      ConfigKeys(parse, init, key);
      assert forall i :: 0 <= i < |init| ==> init[i] == lines[i];
    }
  }

  /** A key holds the value of the last line that defines it: later lines overwrite earlier ones. */
  lemma {:induction false} LastDefinitionWins(parse: string -> Result<ConfigValue, ParseError>, lines: seq<string>, i: nat)
    requires ConfigWith(parse, lines).Ok? && i < |lines| && '=' in lines[i]
    requires forall j :: i < j < |lines| ==> !DefinesKey(lines[j], KeyOf(lines[i]))
    ensures parse(RawValueOf(lines[i])).Ok?
    ensures KeyOf(lines[i]) in ConfigWith(parse, lines).value
    ensures ConfigWith(parse, lines).value[KeyOf(lines[i])] == parse(RawValueOf(lines[i])).value
    decreases |lines|
  {
    var init := lines[..|lines| - 1];
    if i < |lines| - 1 {
      assert init[i] == lines[i];
      forall j | i < j < |init| ensures !DefinesKey(init[j], KeyOf(init[i])) {
        assert init[j] == lines[j];
      }
      LastDefinitionWins(parse, init, i);
    }
  }

  /** Lines without `=` are ignored wherever they stand. */
  lemma {:induction false} LineWithoutEqualsIgnored(parse: string -> Result<ConfigValue, ParseError>, a: seq<string>, l: string, b: seq<string>)
    requires '=' !in l
    ensures ConfigWith(parse, a + [l] + b) == ConfigWith(parse, a + b)
    decreases |b|
  {
    if b == [] {
      assert (a + [l] + b)[..|a|] == a;
      assert a + b == a;
    } else {
      var b' := b[..|b| - 1];
      LineWithoutEqualsIgnored(parse, a, l, b');
      assert (a + [l] + b)[..|a + [l] + b| - 1] == a + [l] + b';
      assert (a + b)[..|a + b| - 1] == a + b';
    }
  }

  /** `parse_config_file` over the lines of a file. */
  method ParseConfigFile(lines: seq<string>) returns (r: Result<map<string, ConfigValue>, ParseError>)
    ensures r == ConfigOf(lines)
  {
    var config: map<string, ConfigValue> := map[];
    var i := 0;
    while i < |lines|
      invariant 0 <= i <= |lines|
      invariant ConfigWith(ParseValue, lines[..i]) == Ok(config)
    {
      var line := lines[i];
      assert lines[..i + 1][..i] == lines[..i];
      if '=' in line {
        var key := KeyOf(line);
        var value := ParseConfigValueFixed(RawValueOf(line));
        if value.Err? {
          ErrorAborts(ParseValue, lines, i + 1);
          return Err(value.error);
        }
        config := config[key := value.value];
      }
      i := i + 1;
    }
    assert lines[..i] == lines;
    r := Ok(config);
  }
}
