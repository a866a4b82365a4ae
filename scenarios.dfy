/** Worked scenarios on concrete registries. */
module Scenarios {
  import opened Wrappers
  import opened PyStr
  import opened Patterns
  import opened Modules
  import opened Refresh
  import opened Imports

  lemma {:induction false} ShortNeverContains(s: string, p: string)
    requires |s| < |p|
    ensures !Contains(s, p)
  {
    if s != [] {
      ShortNeverContains(s[1..], p);
    }
  }

  const A := "parsers.a"
  const B := "parsers.b"
  const Core := "parsers.user_parsers.p1.core"
  const SubCore := "parsers.user_parsers.p1.sub.core"

  /** Two base units, then a plugin package's core and a deeper core */
  const Loaded: seq<Unit> := [
    Unit(A, "parsers", None, 0),
    Unit(B, "parsers", None, 0),
    Unit(Core, "parsers.user_parsers.p1", None, 0),
    Unit(SubCore, "parsers.user_parsers.p1.sub", None, 0)
  ]

  lemma BaseFacts()
    ensures Selected(A, DefaultPrefix) && !IsPlugin(A)
    ensures Selected(B, DefaultPrefix) && !IsPlugin(B)
  {
    ShortNeverContains(A, "user_parsers.");
    ShortNeverContains(B, "user_parsers.");
  }

  lemma PluginFacts()
    ensures Selected(Core, DefaultPrefix) && IsPlugin(Core)
    ensures Selected(SubCore, DefaultPrefix) && IsPlugin(SubCore)
  {
    assert Core[8..8 + 13] == "user_parsers.";
    ContainsAt(Core, "user_parsers.", 8);
    assert SubCore[8..8 + 13] == "user_parsers.";
    ContainsAt(SubCore, "user_parsers.", 8);
  }

  /** Sorting two names by length puts the longer one first. */
  lemma SortTwo(x: string, y: string)
    requires |x| < |y|
    ensures SortByLengthDescending([x, y]) == [y, x]
  {
    assert [x, y][..1] == [x] && [x][..0] == [];
    assert SortByLengthDescending([x]) == [x];
  }

  /** Four selected units, two base units then two plugin units of which the
      second has the longer name: the base units in order, then the second
      plugin unit before the first. */
  lemma OrderOfFour(us: seq<Unit>, prefix: string)
    requires |us| == 4 && forall i :: 0 <= i < 4 ==> Selected(us[i].name, prefix)
    requires !IsPlugin(us[0].name) && !IsPlugin(us[1].name) && IsPlugin(us[2].name) && IsPlugin(us[3].name)
    requires |us[2].name| < |us[3].name|
    ensures ReloadOrder(us, prefix) == [us[0].name, us[1].name, us[3].name, us[2].name]
  {
    var u3, u2, u1 := us[..3], us[..2], us[..1];
    assert u3[..2] == u2 && u2[..1] == u1 && u1[..0] == [];
    assert BaseNames(u1, prefix) == [us[0].name] && PluginNames(u1, prefix) == [];
    assert BaseNames(u2, prefix) == [us[0].name, us[1].name] && PluginNames(u2, prefix) == [];
    assert BaseNames(u3, prefix) == [us[0].name, us[1].name] && PluginNames(u3, prefix) == [us[2].name];
    assert us[..|us| - 1] == u3;
    assert BaseNames(us, prefix) == [us[0].name, us[1].name];
    assert PluginNames(us, prefix) == [us[2].name, us[3].name];
    SortTwo(us[2].name, us[3].name);
  }

  /** refresh() reloads the base units in order, then the longer plugin name
      first: parsers.a, parsers.b, parsers.user_parsers.p1.sub.core,
      parsers.user_parsers.p1.core, four units in all. */
  lemma ReloadAllExample(us: seq<Unit>)
    requires us == Loaded
    ensures ReloadOrder(us, DefaultPrefix) == [A, B, SubCore, Core]
    ensures |ReloadOrder(us, DefaultPrefix)| == 4
  {
    BaseFacts();
    PluginFacts();
    assert us[0].name == A && us[1].name == B && us[2].name == Core && us[3].name == SubCore;
    forall i | 0 <= i < 4 ensures Selected(us[i].name, DefaultPrefix) {
      assert i == 0 || i == 1 || i == 2 || i == 3;
    }
    OrderOfFour(us, DefaultPrefix);
  }

  // ---------------------------------------------------------------------------
  // The reinit scan

  const X := "root" + PluginSegment + "x" + ".core"
  const Y := "root" + PluginSegment + "y" + ".parser"

  lemma CoreMatches(x: string)
    requires x == X
    ensures ReinitMatch(x)
  {
    PluginMatchIntro("root", "x", ".core");
  }

  lemma ParserMatches(y: string)
    requires y == Y
    ensures ReinitMatch(y)
  {
    PluginMatchIntro("root", "y", ".parser");
  }

  /** With nothing loaded the answer is False; with X (reinit False) loaded
      before Y (reinit True) the later Y wins; with X alone it is False. */
  lemma ReinitExamples(x: Unit, y: Unit)
    requires x == Unit(X, "root.user_parsers.x", Some(false), 0)
    requires y == Unit(Y, "root.user_parsers.y", Some(true), 0)
    ensures ReinitState([]) == Some(false)
    ensures ReinitState([x, y]) == Some(true)
    ensures ReinitState([x]) == Some(false)
  {
    CoreMatches(x.name);
    ParserMatches(y.name);
    assert [x, y][..1] == [x];
  }

  // ---------------------------------------------------------------------------
  // Reloading one package

  const P1 := "root" + PluginSegment + "p1"
  const P1Core := "root" + PluginSegment + "p1." + "core"

  lemma PackageMatches(p1: string, p1core: string)
    requires p1 == P1 && p1core == P1Core
    ensures PluginMatch(p1, "p1") && !PluginMatch(p1core, "p1")
    ensures PluginMatch(p1core, "core") && !PluginMatch(p1, "core")
    ensures !PluginMatch(p1, "nonexistent") && !PluginMatch(p1core, "nonexistent")
  {
    assert "root" + PluginSegment + "" == "root" + PluginSegment;
    PluginNameMatches("root", "", "p1", "core");
    PluginNameMatches("root", "", "p1", "nonexistent");
    PluginNameMatches("root", "p1.", "core", "p1");
    PluginNameMatches("root", "p1.", "core", "nonexistent");
  }

  /** A plugin name a.user_parsers.c<tail> matches its own tail and no tail
      that ends in another character. */
  lemma PluginNameMatches(a: string, c: string, tail: string, other: string)
    requires NoNewline(a) && NoNewline(c)
    requires |tail| > 0 && |other| > 0
    requires tail[|tail| - 1] != '\n' && other[|other| - 1] != tail[|tail| - 1]
    ensures PluginMatch(a + PluginSegment + c + tail, tail)
    ensures !PluginMatch(a + PluginSegment + c + tail, other)
  {
    PluginMatchIntro(a, c, tail);
    var s := a + PluginSegment + c + tail;
    assert s[|s| - 1] == tail[|tail| - 1];
    NoMatchByLastChar(s, other);
  }

  lemma PackageSegments(p1: string, p1core: string)
    requires p1 == P1 && p1core == P1Core
    ensures LastSegment(p1core) == "core" && LastSegment(p1) == "p1"
    ensures LastSegment("p1") == "p1" && LastSegment("nonexistent") == "nonexistent"
  {
    LastSegmentOfDotFree("p1");
    LastSegmentOfDotFree("nonexistent");
    assert "root" + PluginSegment + "" == "root" + PluginSegment;
    PluginNameSegment("root", "", "p1");
    PluginNameSegment("root", "p1.", "core");
  }

  /** The last segment of a plugin name a.user_parsers.c<tail>, when c is empty
      or ends in a dot and the tail has no dot */
  lemma PluginNameSegment(a: string, c: string, tail: string)
    requires c == [] || c[|c| - 1] == '.'
    requires '.' !in tail
    ensures LastSegment(a + PluginSegment + c + tail) == tail
  {
    var h := a + PluginSegment + c;
    assert h[|h| - 1] == '.';
    var init := h[..|h| - 1];
    assert h == init + ".";
    LastSegmentAfterDot(init, tail);
    assert init + "." + tail == h + tail;
  }

  /** The last segment of a name that ends in a dot and a dot-free tail */
  lemma {:induction false} LastSegmentAfterDot(init: string, tail: string)
    requires '.' !in tail
    ensures LastSegment(init + "." + tail) == tail
    decreases |tail|
  {
    var s := init + "." + tail;
    if tail == [] {
      assert s[|s| - 1] == '.';
    } else {
      assert s[..|s| - 1] == init + "." + tail[..|tail| - 1];
      LastSegmentAfterDot(init, tail[..|tail| - 1]);
      assert tail == tail[..|tail| - 1] + [tail[|tail| - 1]];
    }
  }

  /** A package and one module in it, each found by its own basename: the
      basename of the package and the module's full name both resolve to the
      package, in either registration order. */
  lemma ResolvePackageAndModule(pkg: Unit, m: Unit, x: string, y: string)
    requires pkg.name == pkg.package && m.package == pkg.name && m.name != m.package
    requires LastSegment(pkg.name) == x && LastSegment(m.name) == y && LastSegment(x) == x
    requires PluginMatch(pkg.name, x) && !PluginMatch(m.name, x)
    requires PluginMatch(m.name, y) && !PluginMatch(pkg.name, y)
    ensures Resolve([pkg, m], x, 1) == Ok(0) && Resolve([m, pkg], x, 1) == Ok(1)
    ensures Resolve([pkg, m], m.name, 2) == Ok(0) && Resolve([m, pkg], m.name, 2) == Ok(1)
  {
    var us, vs := [pkg, m], [m, pkg];
    FirstMatchAt(us, x, 0);
    FirstMatchAt(vs, x, 1);
    ResolveStops(us, x, 1);
    ResolveStops(vs, x, 1);
    FirstMatchAt(us, y, 1);
    FirstMatchAt(vs, y, 0);
    ResolveStep(us, m.name, 2, 1);
    ResolveStep(vs, m.name, 2, 0);
    ResolveStops(us, pkg.name, 1);
    ResolveStops(vs, pkg.name, 1);
  }

  /** refresh("p1") resolves to the package root.user_parsers.p1, whichever of
      it and its core module was registered first. */
  lemma ReloadByBasename(pkg: Unit, core: Unit)
    requires pkg == Unit(P1, P1, None, 0)
    requires core == Unit(P1Core, P1, None, 0)
    ensures Resolve([pkg, core], "p1", 1) == Ok(0)
    ensures Resolve([core, pkg], "p1", 1) == Ok(1)
  {
    PackageMatches(pkg.name, core.name);
    PackageSegments(pkg.name, core.name);
    ResolvePackageAndModule(pkg, core, "p1", "core");
  }

  /** refresh("root.user_parsers.p1.core") finds the core module first and
      walks up to its package. */
  lemma ReloadByFullName(pkg: Unit, core: Unit)
    requires pkg == Unit(P1, P1, None, 0)
    requires core == Unit(P1Core, P1, None, 0)
    ensures Resolve([pkg, core], P1Core, 2) == Ok(0)
    ensures Resolve([core, pkg], P1Core, 2) == Ok(1)
  {
    PackageMatches(pkg.name, core.name);
    PackageSegments(pkg.name, core.name);
    ResolvePackageAndModule(pkg, core, "p1", "core");
  }

  /** refresh("nonexistent") raises ModuleNotFoundError. */
  lemma ReloadUnknownPackage(pkg: Unit, core: Unit)
    requires pkg == Unit(P1, P1, None, 0)
    requires core == Unit(P1Core, P1, None, 0)
    ensures Resolve([pkg, core], "nonexistent", 1) == Err(ModuleNotFoundError)
  {
    PackageMatches(pkg.name, core.name);
    PackageSegments(pkg.name, core.name);
    assert [pkg, core][1..] == [core] && [core][1..] == [];
    assert FirstMatch([core], "nonexistent") == None;
    assert FirstMatch([pkg, core], "nonexistent") == None;
  }

  // ---------------------------------------------------------------------------
  // A registry in which the walk up the packages never ends

  const AB := "x.user_parsers.a.b"
  const BA := "x.user_parsers.b.a"
  const PA := "x.user_parsers.a"
  const PB := "x.user_parsers.b"

  lemma CycleMatchesAB(ab: string, x: string, y: string)
    requires ab == AB && x == "a" && y == "b"
    ensures PluginMatch(ab, y) && !PluginMatch(ab, x)
  {
    PluginNameMatches("x", "a.", y, x);
    assert "x" + PluginSegment + "a." + y == ab;
  }

  lemma CycleMatchesBA(ba: string, x: string)
    requires ba == BA && x == "a"
    ensures PluginMatch(ba, x)
  {
    PluginMatchIntro("x", "b.", x);
    assert "x" + PluginSegment + "b." + x == ba;
  }

  lemma CycleSegments(pa: string, pb: string, x: string, y: string)
    requires pa == PA && pb == PB && x == "a" && y == "b"
    ensures LastSegment(pa) == x && LastSegment(pb) == y && LastSegment(y) == y
  {
    LastSegmentOfDotFree(y);
    assert pa == "x.user_parsers" + "." + x;
    assert pb == "x.user_parsers" + "." + y;
    LastSegmentAfterDot("x.user_parsers", x);
    LastSegmentAfterDot("x.user_parsers", y);
  }

  /** When the first match for basename y sits in a package with basename x,
      and the first match for x sits in a package with basename y, every
      search from either basename goes round for as long as it may recurse. */
  lemma {:induction false} ResolveCycle(us: seq<Unit>, pkg: string, fuel: nat, x: string, y: string)
    requires |us| >= 2 && FirstMatch(us, y) == Some(0) && FirstMatch(us, x) == Some(1)
    requires us[0].name != us[0].package && LastSegment(us[0].package) == x
    requires us[1].name != us[1].package && LastSegment(us[1].package) == y
    requires LastSegment(pkg) == x || LastSegment(pkg) == y
    ensures Resolve(us, pkg, fuel) == Err(RecursionError)
    decreases fuel
  {
    if fuel > 0 {
      var i := if LastSegment(pkg) == x then 1 else 0;
      ResolveStep(us, pkg, fuel, i);
      ResolveCycle(us, us[i].package, fuel - 1, x, y);
    }
  }

  /** refresh("b") over x.user_parsers.a.b, x.user_parsers.b.a and their two
      packages: a.b leads to package a, whose first match is b.a, which leads
      to package b, whose first match is a.b again. find_pkg_by_name recurses
      until the recursion limit raises RecursionError. */
  lemma ReloadCycle(ab: string, ba: string, pa: string, pb: string, x: string, y: string, fuel: nat)
    requires ab == AB && ba == BA && pa == PA && pb == PB && x == "a" && y == "b"
    ensures Resolve([Unit(ab, pa, None, 0), Unit(ba, pb, None, 0), Unit(pa, pa, None, 0), Unit(pb, pb, None, 0)], y, fuel)
         == Err(RecursionError)
  {
    var us := [Unit(ab, pa, None, 0), Unit(ba, pb, None, 0), Unit(pa, pa, None, 0), Unit(pb, pb, None, 0)];
    CycleMatchesAB(ab, x, y);
    CycleMatchesBA(ba, x);
    CycleSegments(pa, pb, x, y);
    assert us[0].name == ab && us[1].name == ba;
    forall j | 0 <= j < 1 ensures !PluginMatch(us[j].name, x) {
      assert j == 0;
    }
    FirstMatchAt(us, y, 0);
    FirstMatchAt(us, x, 1);
    ResolveCycle(us, y, fuel, x, y);
  }
}
