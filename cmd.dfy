/**
 * The command-line helper `logleveltonumber` of xbeachmi/cmd.py: a total,
 * case-insensitive map from a level name to the numeric level of Python's
 * `logging` module.
 */
module Cmd {

  const NOTSET: int := 0
  const DEBUG: int := 10
  const INFO: int := 20
  const WARNING: int := 30
  const ERROR: int := 40
  const CRITICAL: int := 50

  /** The numbers `logging` defines as levels. */
  predicate IsLevel(n: int) {
    n == NOTSET || n == DEBUG || n == INFO || n == WARNING || n == ERROR || n == CRITICAL
  }

  /** `str.upper()` of Python 2 on a byte string: only ASCII letters change. */
  function UpperChar(c: char): (u: char)
    ensures 'a' <= c <= 'z' ==> 'A' <= u <= 'Z'
    ensures !('a' <= c <= 'z') ==> u == c
  {
    if 'a' <= c <= 'z' then (c as int - 32) as char else c
  }

  function Upper(s: string): (u: string)
    ensures |u| == |s|
    ensures forall i :: 0 <= i < |s| ==> u[i] == UpperChar(s[i])
  {
    if s == [] then [] else [UpperChar(s[0])] + Upper(s[1..])
  }

  function LogLevelToNumber(s1: string): (n: int)
  {
    var s := Upper(s1);
    if s == "INFO" then INFO
    else if s == "DEBUG" then DEBUG
    else if s == "WARNING" then WARNING
    else if s == "ERROR" then ERROR
    else if s == "CRITICAL" then CRITICAL
    else NOTSET
  }

  /** `logging.getLevelName` restricted to the six standard levels. */
  function LevelName(n: int): (s: string)
    requires IsLevel(n)
  {
    if n == DEBUG then "DEBUG"
    else if n == INFO then "INFO"
    else if n == WARNING then "WARNING"
    else if n == ERROR then "ERROR"
    else if n == CRITICAL then "CRITICAL"
    else "NOTSET"
  }

  /** Every string names some level: the map is total. */
  lemma LevelIsStandard(s: string)
    ensures IsLevel(LogLevelToNumber(s))
  {
  }

  /** The five recognised names, in any case, give their levels; everything else gives NOTSET. */
  lemma LevelOfName(s: string)
    ensures LogLevelToNumber(s) == INFO <==> Upper(s) == "INFO"
    ensures LogLevelToNumber(s) == DEBUG <==> Upper(s) == "DEBUG"
    ensures LogLevelToNumber(s) == WARNING <==> Upper(s) == "WARNING"
    ensures LogLevelToNumber(s) == ERROR <==> Upper(s) == "ERROR"
    ensures LogLevelToNumber(s) == CRITICAL <==> Upper(s) == "CRITICAL"
    ensures LogLevelToNumber(s) == NOTSET <==>
      Upper(s) !in {"INFO", "DEBUG", "WARNING", "ERROR", "CRITICAL"}
  {
  }

  lemma {:induction false} UpperIdempotent(s: string)
    ensures Upper(Upper(s)) == Upper(s)
  {
    if s != [] {
      UpperIdempotent(s[1..]);
    }
  }

  /** Matching ignores case: a name and its upper-case form give the same level. */
  lemma CaseInsensitive(s: string)
    ensures LogLevelToNumber(s) == LogLevelToNumber(Upper(s))
  {
    UpperIdempotent(s);
  }

  /** Lower-case spellings of the recognised names are accepted. */
  lemma LowerCaseInfo()
    ensures LogLevelToNumber("info") == INFO
  {
    UpperOf("info", "INFO");
  }

  lemma LowerCaseDebug()
    ensures LogLevelToNumber("Debug") == DEBUG
  {
    UpperOf("Debug", "DEBUG");
  }

  /** A pointwise upper-case image is the result of `Upper`. */
  lemma UpperOf(s: string, t: string)
    requires |s| == |t| && forall i :: 0 <= i < |s| ==> UpperChar(s[i]) == t[i]
    ensures Upper(s) == t
  {
  }

  /** The level names of `logging` map back to their levels. */
  lemma NameRoundTrip(n: int)
    requires IsLevel(n)
    ensures LogLevelToNumber(LevelName(n)) == n
  {
    var s := LevelName(n);
    UpperIdempotentOnUpper(s);
  }

  lemma UpperIdempotentOnUpper(s: string)
    requires forall i :: 0 <= i < |s| ==> 'A' <= s[i] <= 'Z'
    ensures Upper(s) == s
  {
  }
}
