/**
 * The pure parts of `XBeachMI.load_configfile` (xbeachmi/model.py): which
 * instances are provisioned and in what order, which one runs first, the
 * hidden working directory of each instance and the files left out when it
 * is filled, and the line put in front of every rendered params.txt.
 */
module Provision {
  import Parsers
  import opened Wrappers

  /** A scenario entry `[time, instance]`: from `time` on, `instance` should run. */
  datatype Entry = Entry(time: real, name: string)

  // ---------------------------------------------------------------------
  // The order numpy's `unique` sorts names in

  /** Lexicographic order on character codes. */
  predicate StrLess(a: string, b: string)
    decreases |a|
  {
    if a == [] then b != []
    else b != [] && (a[0] < b[0] || (a[0] == b[0] && StrLess(a[1..], b[1..])))
  }

  lemma StrLessIrreflexive(a: string)
    ensures !StrLess(a, a)
  {
  }

  lemma {:induction false} StrLessTransitive(a: string, b: string, c: string)
    requires StrLess(a, b) && StrLess(b, c)
    ensures StrLess(a, c)
    decreases |a|
  {
    if a != [] && a[0] == b[0] && b[0] == c[0] {
      StrLessTransitive(a[1..], b[1..], c[1..]);
    }
  }

  lemma {:induction false} StrLessTotal(a: string, b: string)
    requires a != b
    ensures StrLess(a, b) || StrLess(b, a)
    decreases |a|
  {
    if a != [] && b != [] && a[0] == b[0] {
      assert a == [a[0]] + a[1..] && b == [b[0]] + b[1..];
      StrLessTotal(a[1..], b[1..]);
    }
  }

  predicate StrictlySorted(s: seq<string>) {
    forall i, j :: 0 <= i < j < |s| ==> StrLess(s[i], s[j])
  }

  /** Put a name into a strictly sorted list, unless it is already there. */
  function Insert(s: seq<string>, x: string): (r: seq<string>)
    requires StrictlySorted(s)
    ensures StrictlySorted(r)
    ensures forall y :: y in r <==> y in s || y == x
    decreases |s|
  {
    if s == [] then [x]
    else if x == s[0] then s
    else if StrLess(x, s[0]) then
      InsertFront(s, x);
      [x] + s
    else
      var rest := Insert(s[1..], x);
      StrLessTotal(x, s[0]);
      assert forall y :: y in rest ==> StrLess(s[0], y);
      [s[0]] + rest
  }

  lemma InsertFront(s: seq<string>, x: string)
    requires StrictlySorted(s) && s != [] && StrLess(x, s[0])
    ensures StrictlySorted([x] + s)
  {
    forall j | 0 < j < |s| ensures StrLess(x, s[j]) {
      StrLessTransitive(x, s[0], s[j]);
    }
  }

  /** `np.unique`: the distinct names, sorted. */
  function SortedUnique(xs: seq<string>): (r: seq<string>)
    ensures StrictlySorted(r)
    ensures forall y :: y in r <==> y in xs
    decreases |xs|
  {
    if xs == [] then []
    else Insert(SortedUnique(xs[..|xs| - 1]), xs[|xs| - 1])
  }

  /** The names of the scenario entries, in order. */
  function ScenarioNames(scenario: seq<Entry>): (r: seq<string>)
    ensures |r| == |scenario| && forall i :: 0 <= i < |scenario| ==> r[i] == scenario[i].name
  {
    seq(|scenario|, i requires 0 <= i < |scenario| => scenario[i].name)
  }

  /** The provisioned instances: the listed instances and the scenario's, de-duplicated and sorted. */
  function Provisioned(listed: seq<string>, scenario: seq<Entry>): (r: seq<string>)
  {
    SortedUnique(listed + ScenarioNames(scenario))
  }

  /** The first name that is not empty; `""` stands for Python's `None` and is falsy as well. */
  function FirstNamed(names: seq<string>): string
    decreases |names|
  {
    if names == [] then ""
    else
      var rest := FirstNamed(names[..|names| - 1]);
      if rest == "" then names[|names| - 1] else rest
  }

  /** The initial running instance: the one given to the constructor, or else the first provisioned one. */
  function InitialInstance(given: string, provisioned: seq<string>): string {
    if given != "" then given else FirstNamed(provisioned)
  }

  /** Two strictly sorted lists of the same names are the same list. */
  lemma {:induction false} SortedListingIsUnique(a: seq<string>, b: seq<string>)
    requires StrictlySorted(a) && StrictlySorted(b)
    requires forall y :: y in a <==> y in b
    ensures a == b
    decreases |a|
  {
    if a != [] {
      assert b != [] by { assert a[0] in b; }
      if a[0] != b[0] {
        assert b[0] in a && a[0] in b;
        var i :| 0 <= i < |a| && a[i] == b[0];
        var j :| 0 <= j < |b| && b[j] == a[0];
        assert i > 0 && j > 0;
        StrLessTransitive(a[0], b[0], a[0]);
        StrLessIrreflexive(a[0]);
        assert false;
      }
      forall y ensures y in a[1..] <==> y in b[1..] {
        if y in a[1..] {
          var i :| 0 < i < |a| && a[i] == y;
          assert StrLess(a[0], y);
          if y == b[0] { StrLessIrreflexive(y); }
          assert y in b;
        }
        if y in b[1..] {
          var j :| 0 < j < |b| && b[j] == y;
          assert StrLess(b[0], y);
          if y == a[0] { StrLessIrreflexive(y); }
          assert y in a;
        }
      }
      SortedListingIsUnique(a[1..], b[1..]);
      assert a == [a[0]] + a[1..] && b == [b[0]] + b[1..];
    } else {
      NonEmptyListing(a, b);
    }
  }

  lemma NonEmptyListing(a: seq<string>, b: seq<string>)
    requires forall y :: y in b ==> y in a
    ensures b != [] ==> a != []
  {
    if b != [] {
      assert b[0] in a;
    }
  }

  /**
   * The provisioned list is THE sorted listing of the names mentioned in
   * `instances` and in the scenario: every name once, in order.
   */
  lemma ProvisionedIsSortedListing(listed: seq<string>, scenario: seq<Entry>, s: seq<string>)
    requires StrictlySorted(s)
    requires forall y :: y in s <==> y in listed || exists i :: 0 <= i < |scenario| && scenario[i].name == y
    ensures Provisioned(listed, scenario) == s
  {
    var p := Provisioned(listed, scenario);
    var names := ScenarioNames(scenario);
    forall y ensures y in p <==> y in s {
      if exists i :: 0 <= i < |scenario| && scenario[i].name == y {
        var i :| 0 <= i < |scenario| && scenario[i].name == y;
        assert names[i] == y;
      }
    }
    SortedListingIsUnique(p, s);
  }

  /** Every scenario instance is provisioned. */
  lemma ScenarioProvisioned(listed: seq<string>, scenario: seq<Entry>, i: nat)
    requires i < |scenario|
    ensures scenario[i].name in Provisioned(listed, scenario)
  {
    assert ScenarioNames(scenario)[i] == scenario[i].name;
    assert (listed + ScenarioNames(scenario))[|listed| + i] == scenario[i].name;
  }

  /** Without a given instance, the first one to run is the least provisioned name that is not empty. */
  lemma {:induction false} InitialIsLeast(provisioned: seq<string>)
    requires StrictlySorted(provisioned) && |provisioned| > 0 && provisioned[0] != ""
    ensures InitialInstance("", provisioned) == provisioned[0]
    ensures forall y :: y in provisioned && y != provisioned[0] ==> StrLess(provisioned[0], y)
  {
    FirstNamedIsFirst(provisioned, 0);
  }

  lemma {:induction false} FirstNamedIsFirst(names: seq<string>, j: nat)
    requires j < |names| && names[j] != "" && forall k :: 0 <= k < j ==> names[k] == ""
    ensures FirstNamed(names) == names[j]
    decreases |names|
  {
    if j < |names| - 1 {
      var init := names[..|names| - 1];
      assert init[j] == names[j];
      FirstNamedIsFirst(init, j);
    } else {
      FirstNamedNone(names[..|names| - 1]);
    }
  }

  lemma {:induction false} FirstNamedNone(names: seq<string>)
    requires forall k :: 0 <= k < |names| ==> names[k] == ""
    ensures FirstNamed(names) == ""
    decreases |names|
  {
    if names != [] {
      FirstNamedNone(names[..|names| - 1]);
    }
  }

  // ---------------------------------------------------------------------
  // Working directories

  predicate StartsWith(s: string, p: string) {
    |p| <= |s| && s[..|p|] == p
  }

  predicate EndsWith(s: string, p: string) {
    |p| <= |s| && s[|s| - |p|..] == p
  }

  /** The hidden working directory of an instance. */
  function Subdir(name: string): (d: string)
    ensures StartsWith(d, ".") && d[1..] == name
  {
    "." + name
  }

  /** The files `copytree` leaves out: hidden ones, netCDF output and logs. */
  predicate CopyIgnored(f: string) {
    StartsWith(f, ".") || EndsWith(f, ".nc") || EndsWith(f, ".log")
  }

  /** The `ignore` callback: the names of a directory listing that are not copied, in listing order. */
  function IgnoredOf(files: seq<string>): (r: seq<string>)
    ensures |r| <= |files|
    ensures forall f :: f in r <==> f in files && CopyIgnored(f)
    decreases |files|
  {
    if files == [] then []
    else
      var rest := IgnoredOf(files[..|files| - 1]);
      if CopyIgnored(files[|files| - 1]) then rest + [files[|files| - 1]] else rest
  }

  /** Distinct instances get distinct working directories. */
  lemma SubdirInjective(a: string, b: string)
    requires Subdir(a) == Subdir(b)
    ensures a == b
  {
    assert a == Subdir(a)[1..] && b == Subdir(b)[1..];
  }

  /**
   * The working directories of the instances are never copied into a new
   * working directory, nor are netCDF and log files, while a plain
   * params.txt is.
   */
  lemma WhatIsIgnored(name: string)
    ensures CopyIgnored(Subdir(name))
    ensures CopyIgnored("xboutput.nc") && CopyIgnored("XBlog.log")
    ensures !CopyIgnored("params.txt")
  {
    assert "xboutput.nc"[8..] == ".nc";
    assert "XBlog.log"[5..] == ".log";
    assert "params.txt"[..1] == "p";
    assert "params.txt"[7..] != ".nc";
    assert "params.txt"[6..] != ".log";
  }

  // ---------------------------------------------------------------------
  // The rendered params.txt

  /** The line written before the rendered template: it switches off XBeach's time-explosion check. */
  const DefuseLine: string := "defuse = 0\n"

  /** The text of an instance's params.txt. */
  function ParamsText(rendered: string): (t: string)
    ensures |t| == |DefuseLine| + |rendered| && t[..|DefuseLine|] == DefuseLine && t[|DefuseLine|..] == rendered
  {
    DefuseLine + rendered
  }

  /** The lines of a text as Python iterates a file: each line keeps its `\n`, the last one may lack it. */
  function SplitLines(text: string): (r: seq<string>)
    decreases |text|
  {
    if text == [] then []
    else
      var k := Parsers.IndexOf(text, '\n');
      if k == |text| then [text] else [text[..k + 1]] + SplitLines(text[k + 1..])
  }

  function Concat(lines: seq<string>): string
    decreases |lines|
  {
    if lines == [] then [] else lines[0] + Concat(lines[1..])
  }

  /** Splitting into lines loses nothing. */
  lemma {:induction false} SplitLinesRoundTrip(text: string)
    ensures Concat(SplitLines(text)) == text
    decreases |text|
  {
    if text != [] {
      var k := Parsers.IndexOf(text, '\n');
      if k < |text| {
        SplitLinesRoundTrip(text[k + 1..]);
        assert text == text[..k + 1] + text[k + 1..];
      }
    }
  }

  /** A params file's first line is the defuse line, whatever was rendered after it. */
  lemma ParamsLines(rendered: string)
    ensures SplitLines(ParamsText(rendered)) == [DefuseLine] + SplitLines(rendered)
  {
    var t := ParamsText(rendered);
    assert forall j :: 0 <= j < 10 ==> t[j] == DefuseLine[j];
    assert t[10] == '\n';
    assert Parsers.IndexOf(t, '\n') == 10;
    assert t[..11] == DefuseLine;
    assert t[11..] == rendered;
  }

  /** The defuse line parses to `defuse = 0`. */
  lemma DefuseLineParses()
    ensures '=' in DefuseLine
    ensures Parsers.KeyOf(DefuseLine) == "defuse"
    ensures Parsers.ParseValue(Parsers.RawValueOf(DefuseLine)) == Ok(Parsers.Int(0))
  {
    var l := DefuseLine;
    assert l[7] == '=';
    assert Parsers.IndexOf(l, '=') == 7;
    assert l[..7] == "defuse ";
    assert Parsers.TextEnd("defuse ", 7) == 6;
    assert Parsers.TrimEnd("defuse ") == "defuse";
    Parsers.StrippedFixed("defuse");
    assert l[8..] == " 0\n";
    assert Parsers.SkipSpaces(" 0\n", 0) == 1;
    assert Parsers.RawValueOf(l) == "0\n";
    Parsers.StripOf("", "0", "\n");
    assert "" + "0" + "\n" == "0\n";
    Parsers.ParseStripsFirst("0\n", false);
    Parsers.IntRoundTrip(0);
    assert Parsers.ShowInt(0) == "0";
    Parsers.FixedAgreesOutsideListBranch("0", false);
  }

  /**
   * Unless a rendered line sets `defuse` itself, the parsed params file of
   * every instance has `defuse = 0`.
   */
  lemma DefuseDisabled(rendered: string)
    requires Parsers.ConfigOf(SplitLines(ParamsText(rendered))).Ok?
    requires forall l :: l in SplitLines(rendered) ==> !Parsers.DefinesKey(l, "defuse")
    ensures "defuse" in Parsers.ConfigOf(SplitLines(ParamsText(rendered))).value
    ensures Parsers.ConfigOf(SplitLines(ParamsText(rendered))).value["defuse"] == Parsers.Int(0)
  {
    ParamsLines(rendered);
    DefuseLineParses();
    var lines := SplitLines(ParamsText(rendered));
    assert lines[0] == DefuseLine;
    forall j | 0 < j < |lines| ensures !Parsers.DefinesKey(lines[j], Parsers.KeyOf(lines[0])) {
      assert lines[j] == SplitLines(rendered)[j - 1];
    }
    Parsers.LastDefinitionWins(Parsers.ParseValue, lines, 0);
  }
}
