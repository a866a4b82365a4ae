/** `refresh` from parsers/imports.py: reloading every module of the application
    in a fixed order, and reloading one plugin package found by name. */
module Refresh {
  import opened Wrappers
  import opened PyStr
  import opened Patterns
  import opened Modules

  /** The default `_prefix` */
  const DefaultPrefix := "parsers."

  // ---------------------------------------------------------------------------
  // Reloading everything

  /** A module refresh() reloads: under the prefix, and not the user_parsers
      package itself (nor any other name ending in user_parsers) */
  predicate Selected(name: string, prefix: string) {
    StartsWith(name, prefix) && !EndsWith(name, "user_parsers")
  }

  /** A selected module that goes to the plugin list */
  predicate IsPlugin(name: string) {
    Contains(name, "user_parsers.")
  }

  /** Names of the selected units, in registry order */
  function SelectedNames(us: seq<Unit>, prefix: string): seq<string> {
    if us == [] then [] else
    var n := us[|us| - 1].name;
    SelectedNames(us[..|us| - 1], prefix) + (if Selected(n, prefix) then [n] else [])
  }

  /** `basem`: the selected units that are not plugins, in registry order */
  function BaseNames(us: seq<Unit>, prefix: string): seq<string> {
    if us == [] then [] else
    var n := us[|us| - 1].name;
    BaseNames(us[..|us| - 1], prefix) + (if Selected(n, prefix) && !IsPlugin(n) then [n] else [])
  }

  /** `userm`: the selected plugin units, in registry order */
  function PluginNames(us: seq<Unit>, prefix: string): seq<string> {
    if us == [] then [] else
    var n := us[|us| - 1].name;
    PluginNames(us[..|us| - 1], prefix) + (if Selected(n, prefix) && IsPlugin(n) then [n] else [])
  }

  /** The names of length n, in their order in s */
  function OfLength(s: seq<string>, n: nat): seq<string> {
    if s == [] then []
    else (if |s[0]| == n then [s[0]] else []) + OfLength(s[1..], n)
  }

  predicate NonIncreasing(s: seq<string>) {
    forall i, j :: 0 <= i < j < |s| ==> |s[i]| >= |s[j]|
  }

  lemma {:induction false} OfLengthConcat(a: seq<string>, b: seq<string>, n: nat)
    ensures OfLength(a + b, n) == OfLength(a, n) + OfLength(b, n)
  {
    if a == [] {
      assert a + b == b;
    } else {
      var head := if |a[0]| == n then [a[0]] else [];
      calc {
        OfLength(a + b, n);
        { assert (a + b)[0] == a[0] && (a + b)[1..] == a[1..] + b; }
        head + OfLength(a[1..] + b, n);
        { OfLengthConcat(a[1..], b, n); }
        head + (OfLength(a[1..], n) + OfLength(b, n));
        (head + OfLength(a[1..], n)) + OfLength(b, n);
      }
    }
  }

  lemma {:induction false} OfLengthShorter(s: seq<string>, n: nat)
    requires forall i :: 0 <= i < |s| ==> |s[i]| < n
    ensures OfLength(s, n) == []
  {
    if s != [] {
      OfLengthShorter(s[1..], n);
    }
  }

  /** Insert x into s, which is sorted by non-increasing length, after every
      name at least as long */
  function InsertByLength(x: string, s: seq<string>): (r: seq<string>)
    ensures |r| == |s| + 1
    ensures r[0] == x || (s != [] && r[0] == s[0])
  {
    if s == [] then [x]
    else if |s[0]| >= |x| then [s[0]] + InsertByLength(x, s[1..])
    else [x] + s
  }

  lemma NonIncreasingTail(s: seq<string>)
    requires NonIncreasing(s) && s != []
    ensures NonIncreasing(s[1..])
  {
    var tail := s[1..];
    forall i, j | 0 <= i < j < |tail| ensures |tail[i]| >= |tail[j]| {
      assert tail[i] == s[i + 1] && tail[j] == s[j + 1];
    }
  }

  lemma {:induction false} InsertSorted(x: string, s: seq<string>)
    requires NonIncreasing(s)
    ensures NonIncreasing(InsertByLength(x, s))
  {
    if s != [] && |s[0]| >= |x| {
      NonIncreasingTail(s);
      InsertSorted(x, s[1..]);
      var rest := InsertByLength(x, s[1..]);
      assert |rest[0]| <= |s[0]| by {
        if rest[0] != x { assert rest[0] == s[1]; }
      }
      var r := [s[0]] + rest;
      forall i, j | 0 <= i < j < |r| ensures |r[i]| >= |r[j]| {
        assert r[j] == rest[j - 1];
        if i > 0 {
          assert r[i] == rest[i - 1];
        } else if j > 1 {
          assert |rest[0]| >= |rest[j - 1]|;
        }
      }
    } else if s != [] {
      var r := [x] + s;
      forall i, j | 0 <= i < j < |r| ensures |r[i]| >= |r[j]| {
        assert r[j] == s[j - 1];
        if i > 0 {
          assert r[i] == s[i - 1];
        } else if j > 1 {
          assert |s[0]| >= |s[j - 1]|;
        }
      }
    }
  }

  lemma {:induction false} InsertMultiset(x: string, s: seq<string>)
    ensures multiset(InsertByLength(x, s)) == multiset(s) + multiset{x}
  {
    if s == [] {
      assert InsertByLength(x, s) == [x];
    } else if |s[0]| >= |x| {
      var rest := InsertByLength(x, s[1..]);
      calc {
        multiset(InsertByLength(x, s));
        multiset([s[0]] + rest);
        multiset([s[0]]) + multiset(rest);
        { InsertMultiset(x, s[1..]); }
        multiset([s[0]]) + (multiset(s[1..]) + multiset{x});
        { assert s == [s[0]] + s[1..]; }
        multiset(s) + multiset{x};
      }
    } else {
      assert InsertByLength(x, s) == [x] + s;
    }
  }

  /** Insertion puts x after every name of its length already in s. */
  lemma {:induction false} InsertOfLength(x: string, s: seq<string>, n: nat)
    requires NonIncreasing(s)
    ensures OfLength(InsertByLength(x, s), n) == OfLength(s, n) + (if |x| == n then [x] else [])
  {
    if s == [] {
      assert InsertByLength(x, s) == [x];
    } else if |s[0]| >= |x| {
      var head := if |s[0]| == n then [s[0]] else [];
      var extra := if |x| == n then [x] else [];
      NonIncreasingTail(s);
      calc {
        OfLength(InsertByLength(x, s), n);
        { OfLengthConcat([s[0]], InsertByLength(x, s[1..]), n); }
        head + OfLength(InsertByLength(x, s[1..]), n);
        { InsertOfLength(x, s[1..], n); }
        head + (OfLength(s[1..], n) + extra);
        { assert OfLength(s, n) == head + OfLength(s[1..], n); }
        OfLength(s, n) + extra;
      }
    } else {
      OfLengthConcat([x], s, n);
      if |x| == n {
        forall i | 0 <= i < |s| ensures |s[i]| < n {
          if i > 0 { assert |s[0]| >= |s[i]|; }
        }
        OfLengthShorter(s, n);
      }
    }
  }

  lemma OfLengthSnoc(init: seq<string>, x: string, n: nat)
    ensures OfLength(init + [x], n) == OfLength(init, n) + (if |x| == n then [x] else [])
  {
    OfLengthConcat(init, [x], n);
    assert [x][1..] == [];
  }

  /** `sorted(s, key=len, reverse=True)`: by non-increasing length. It is a
      permutation of s (SortByLengthPermutes) and stable, also in reverse, as
      Python's sort is (SortByLengthStable). */
  function SortByLengthDescending(s: seq<string>): (r: seq<string>)
    ensures NonIncreasing(r)
  {
    if s == [] then []
    else
      var sorted := SortByLengthDescending(s[..|s| - 1]);
      InsertSorted(s[|s| - 1], sorted);
      InsertByLength(s[|s| - 1], sorted)
  }

  lemma {:induction false} SortByLengthPermutes(s: seq<string>)
    ensures multiset(SortByLengthDescending(s)) == multiset(s)
  {
    if s != [] {
      var init := s[..|s| - 1];
      var x := s[|s| - 1];
      SortByLengthPermutes(init);
      InsertMultiset(x, SortByLengthDescending(init));
      assert s == init + [x];
    }
  }

  /** The names of each length come out of the sort in their order in s. */
  lemma {:induction false} SortByLengthStable(s: seq<string>, n: nat)
    ensures OfLength(SortByLengthDescending(s), n) == OfLength(s, n)
  {
    if s != [] {
      var init := s[..|s| - 1];
      var x := s[|s| - 1];
      var sorted := SortByLengthDescending(init);
      assert SortByLengthDescending(s) == InsertByLength(x, sorted);
      SortByLengthStable(init, n);
      InsertOfLength(x, sorted, n);
      assert s == init + [x];
      OfLengthSnoc(init, x, n);
    }
  }

  /** The order refresh() reloads in: the base list, then the sorted plugin list */
  function ReloadOrder(us: seq<Unit>, prefix: string): seq<string> {
    BaseNames(us, prefix) + SortByLengthDescending(PluginNames(us, prefix))
  }

  lemma {:induction false} PartitionOfSelection(us: seq<Unit>, prefix: string)
    ensures multiset(BaseNames(us, prefix)) + multiset(PluginNames(us, prefix))
         == multiset(SelectedNames(us, prefix))
    ensures forall x :: x in BaseNames(us, prefix) ==> !IsPlugin(x)
    ensures forall x :: x in PluginNames(us, prefix) ==> IsPlugin(x)
  {
    if us != [] {
      PartitionOfSelection(us[..|us| - 1], prefix);
    }
  }

  lemma {:induction false} SelectedNamesMembers(us: seq<Unit>, prefix: string, x: string)
    ensures x in SelectedNames(us, prefix) <==> Registered(us, x) && Selected(x, prefix)
  {
    if us != [] {
      var init := us[..|us| - 1];
      SelectedNamesMembers(init, prefix, x);
      if Registered(init, x) {
        var i :| 0 <= i < |init| && init[i].name == x;
        assert us[i].name == x;
      }
      if Registered(us, x) && us[|us| - 1].name != x {
        var i :| 0 <= i < |us| && us[i].name == x;
        assert init[i].name == x;
      }
    }
  }

  /** In a registry without repeated names, each selected name occurs once in
      the selection and every other name not at all. */
  lemma {:induction false} SelectedNamesOnce(us: seq<Unit>, prefix: string, x: string)
    requires UniqueNames(us)
    ensures multiset(SelectedNames(us, prefix))[x] == if Registered(us, x) && Selected(x, prefix) then 1 else 0
  {
    if us != [] {
      var init := us[..|us| - 1];
      var last := us[|us| - 1];
      SelectedNamesOnce(init, prefix, x);
      if Registered(init, x) {
        var i :| 0 <= i < |init| && init[i].name == x;
        assert us[i].name == x;
        assert last.name != x;
      }
      if Registered(us, x) && last.name != x {
        var i :| 0 <= i < |us| && us[i].name == x;
        assert init[i].name == x;
      }
    }
  }

  /** refresh() reloads exactly the selected units: each one once, nothing else,
      in a registry without repeated names. */
  lemma ReloadOrderIsSelection(us: seq<Unit>, prefix: string, x: string)
    requires UniqueNames(us)
    ensures multiset(ReloadOrder(us, prefix)) == multiset(SelectedNames(us, prefix))
    ensures multiset(ReloadOrder(us, prefix))[x] == if Registered(us, x) && Selected(x, prefix) then 1 else 0
    ensures |ReloadOrder(us, prefix)| == |SelectedNames(us, prefix)|
  {
    PartitionOfSelection(us, prefix);
    SortByLengthPermutes(PluginNames(us, prefix));
    SelectedNamesOnce(us, prefix, x);
    var r := ReloadOrder(us, prefix);
    assert |r| == |multiset(r)|;
    assert |SelectedNames(us, prefix)| == |multiset(SelectedNames(us, prefix))|;
  }

  /** Sorting keeps every name a plugin name. */
  lemma SortedPluginNames(us: seq<Unit>, prefix: string)
    ensures forall x :: x in SortByLengthDescending(PluginNames(us, prefix)) ==> IsPlugin(x)
  {
    PartitionOfSelection(us, prefix);
    SortByLengthPermutes(PluginNames(us, prefix));
    forall x | x in SortByLengthDescending(PluginNames(us, prefix)) ensures IsPlugin(x) {
      assert x in multiset(SortByLengthDescending(PluginNames(us, prefix)));
      assert x in PluginNames(us, prefix);
    }
  }

  /** The reload order lists the base units, none a plugin, then the plugin
      units. */
  lemma ReloadOrderKinds(us: seq<Unit>, prefix: string)
    ensures var r := ReloadOrder(us, prefix); var b := |BaseNames(us, prefix)|;
      (forall i :: 0 <= i < b ==> !IsPlugin(r[i])) &&
      (forall i :: b <= i < |r| ==> IsPlugin(r[i]))
  {
    PartitionOfSelection(us, prefix);
    SortedPluginNames(us, prefix);
    var base := BaseNames(us, prefix);
    var sorted := SortByLengthDescending(PluginNames(us, prefix));
    var r := base + sorted;
    forall i | |base| <= i < |r| ensures IsPlugin(r[i]) {
      assert r[i] == sorted[i - |base|];
    }
    forall i | 0 <= i < |base| ensures !IsPlugin(r[i]) {
      assert r[i] == base[i];
    }
  }

  /** The shape of the reload order: every base unit, in registry order, then
      every plugin unit, longer names first, names of equal length in registry
      order. */
  lemma ReloadOrderShape(us: seq<Unit>, prefix: string)
    ensures var r := ReloadOrder(us, prefix); var b := |BaseNames(us, prefix)|;
      r[..b] == BaseNames(us, prefix) &&
      (forall i :: 0 <= i < b ==> !IsPlugin(r[i])) &&
      (forall i :: b <= i < |r| ==> IsPlugin(r[i])) &&
      NonIncreasing(r[b..]) &&
      (forall n: nat :: OfLength(r[b..], n) == OfLength(PluginNames(us, prefix), n))
  {
    var sorted := SortByLengthDescending(PluginNames(us, prefix));
    forall n: nat ensures OfLength(sorted, n) == OfLength(PluginNames(us, prefix), n) {
      SortByLengthStable(PluginNames(us, prefix), n);
    }
    ReloadOrderKinds(us, prefix);
    var r := ReloadOrder(us, prefix);
    var b := |BaseNames(us, prefix)|;
    assert r[..b] == BaseNames(us, prefix);
    assert r[b..] == sorted;
  }

  /** The units refresh() leaves alone, in registry order */
  function Unselected(us: seq<Unit>, prefix: string): (r: seq<Unit>)
    ensures forall k :: 0 <= k < |r| ==> !Selected(r[k].name, prefix)
  {
    if us == [] then []
    else
      var last := us[|us| - 1];
      Unselected(us[..|us| - 1], prefix) + (if Selected(last.name, prefix) then [] else [last])
  }

  /** Dropping exactly the selected names leaves the unselected units. */
  lemma {:induction false} DropIsUnselected(us: seq<Unit>, log: seq<string>, prefix: string)
    requires forall i :: 0 <= i < |us| ==> (us[i].name in log <==> Selected(us[i].name, prefix))
    ensures Drop(us, log) == Unselected(us, prefix)
  {
    if us != [] {
      DropIsUnselected(us[..|us| - 1], log, prefix);
    }
  }

  lemma DistinctOfCounts(s: seq<string>)
    requires forall x :: multiset(s)[x] <= 1
    ensures Distinct(s)
  {
    forall i, j | 0 <= i < j < |s| ensures s[i] != s[j] {
      var x := s[i];
      assert s == s[..i] + [x] + s[i + 1..j] + [s[j]] + s[j + 1..];
      assert multiset(s)[x] == multiset(s[..i])[x] + 1 + multiset(s[i + 1..j])[x]
        + multiset([s[j]])[x] + multiset(s[j + 1..])[x];
    }
  }

  lemma ReloadOrderRegistered(us: seq<Unit>, prefix: string, k: int)
    requires UniqueNames(us) && 0 <= k < |ReloadOrder(us, prefix)|
    ensures Registered(us, ReloadOrder(us, prefix)[k])
  {
    var r := ReloadOrder(us, prefix);
    assert r[k] in multiset(r);
    ReloadOrderIsSelection(us, prefix, r[k]);
  }

  /** With unique names, the reload order names registered units, no name
      twice, and its names are exactly the selected ones. */
  lemma ReloadOrderDistinct(us: seq<Unit>, prefix: string)
    requires UniqueNames(us)
    ensures var order := ReloadOrder(us, prefix);
      Distinct(order) &&
      (forall k :: 0 <= k < |order| ==> Registered(us, order[k])) &&
      (forall i :: 0 <= i < |us| ==> (us[i].name in order <==> Selected(us[i].name, prefix)))
  {
    var order := ReloadOrder(us, prefix);
    forall x ensures multiset(order)[x] <= 1 {
      ReloadOrderIsSelection(us, prefix, x);
    }
    DistinctOfCounts(order);
    forall k | 0 <= k < |order| ensures Registered(us, order[k]) {
      ReloadOrderRegistered(us, prefix, k);
    }
    forall i | 0 <= i < |us| ensures us[i].name in order <==> Selected(us[i].name, prefix) {
      ReloadOrderIsSelection(us, prefix, us[i].name);
      assert Registered(us, us[i].name);
      assert us[i].name in order <==> us[i].name in multiset(order);
    }
  }

  /** The registry after a refresh() in which no reload raised: first the units
      it leaves alone, in their old order, then every selected unit in reload
      order, each re-executed exactly once more (CPython's reload moves each
      reloaded module to the end of `sys.modules`). */
  predicate ReloadedOnce(before: seq<Unit>, after: seq<Unit>, prefix: string) {
    var order := ReloadOrder(before, prefix);
    (forall k :: 0 <= k < |order| ==> Registered(before, order[k])) &&
    after == Unselected(before, prefix) + Reloaded(before, order)
  }

  /** The registry after a refresh() whose reload of `failed` raised, with the
      names in `log` reloaded before it: the units not reached, in their old
      order, then the reloaded ones in reload order, then the failing one, moved
      to the end but not re-executed to completion. */
  predicate StoppedAt(before: seq<Unit>, after: seq<Unit>, log: seq<string>, failed: string) {
    (forall k :: 0 <= k < |log| ==> Registered(before, log[k])) && Registered(before, failed) &&
    after == Drop(before, log + [failed]) + Reloaded(before, log) + [Entry(before, failed)]
  }

  /** A refresh() that raises nothing reloads every selected unit exactly once,
      leaves every other unit as it was at the front, and puts the reloaded ones
      at the end in reload order. */
  lemma RefreshAllEffect(us: seq<Unit>, prefix: string)
    requires UniqueNames(us)
    ensures ReloadedOnce(us, BumpedAll(us, ReloadOrder(us, prefix)), prefix)
  {
    var order := ReloadOrder(us, prefix);
    ReloadOrderDistinct(us, prefix);
    ReloadsMoveToEnd(us, order);
    DropIsUnselected(us, order, prefix);
  }

  /** The first loop of `refresh_modules_in_special_order()`: one pass over
      the registry, in order, sorting the selected names into base and plugin
      lists. */
  method CollectLists(units: seq<Unit>, prefix: string) returns (basem: seq<string>, userm: seq<string>)
    ensures basem == BaseNames(units, prefix)
    ensures userm == PluginNames(units, prefix)
  {
    basem, userm := [], [];
    for i := 0 to |units|
      invariant basem == BaseNames(units[..i], prefix)
      invariant userm == PluginNames(units[..i], prefix)
    {
      var name := units[i].name;
      assert units[..i + 1][..i] == units[..i];
      if Selected(name, prefix) {
        if IsPlugin(name) {
          userm := userm + [name];
        } else {
          basem := basem + [name];
        }
      }
    }
    assert units[..|units|] == units;
  }

  /** `refresh_modules_in_special_order()`: collects the base and plugin lists
      from a snapshot of the registry, then reloads them in order, counting.
      A reload that raises is not caught: the loop stops there, with the units
      before it reloaded, the failing unit moved to the end without having run
      to completion, and the error returned. `log` is the progress output, the
      names reloaded so far. */
  method RefreshAll(reg: Registry, prefix: string, failing: set<string>)
    returns (count: nat, log: seq<string>, err: Option<Failure>)
    requires reg.Valid()
    modifies reg
    ensures reg.Valid()
    ensures count == |log| <= |ReloadOrder(old(reg.units), prefix)|
    ensures log == ReloadOrder(old(reg.units), prefix)[..count]
    ensures forall j :: 0 <= j < count ==> ReloadOrder(old(reg.units), prefix)[j] !in failing
    ensures err.None? <==> count == |ReloadOrder(old(reg.units), prefix)|
    ensures err.None? ==> ReloadedOnce(old(reg.units), reg.units, prefix)
    ensures err.Some? ==> var failed := ReloadOrder(old(reg.units), prefix)[count];
      failed in failing && err == Some(ReloadError(failed)) && StoppedAt(old(reg.units), reg.units, log, failed)
  {
    var snapshot := reg.units;
    var basem, userm := CollectLists(snapshot, prefix);
    var order := basem + SortByLengthDescending(userm);
    assert order == ReloadOrder(snapshot, prefix);
    ReloadOrderDistinct(snapshot, prefix);
    count, log, err := 0, [], None;
    while count < |order|
      invariant reg.Valid()
      invariant count == |log| <= |order| && log == order[..count]
      invariant reg.units == BumpedAll(snapshot, log)
      invariant forall j :: 0 <= j < count ==> order[j] !in failing
      invariant err.None?
    {
      var name := order[count];
      assert log + [name] == order[..count + 1];
      ReloadNext(snapshot, order, count);
      err := reg.Reload(name, failing);
      if err.Some? {
        FailedReload(snapshot, order, count, reg.units);
        return;
      }
      assert name !in failing;
      assert forall j :: 0 <= j < count + 1 ==> order[j] !in failing;
      BumpedAllSnoc(snapshot, log, name);
      log := log + [name];
      count := count + 1;
    }
    assert log == order;
    RefreshAllEffect(snapshot, prefix);
  }

  /** Before reload number `count`, the name to reload is registered (reloads
      keep the set of names) and the registry has the shape the reloads so far
      gave it. */
  lemma ReloadNext(us: seq<Unit>, order: seq<string>, count: nat)
    requires UniqueNames(us) && Distinct(order) && count < |order|
    requires forall k :: 0 <= k < |order| ==> Registered(us, order[k])
    ensures Registered(BumpedAll(us, order[..count]), order[count])
    ensures order[count] !in order[..count]
    ensures forall k :: 0 <= k < count ==> Registered(us, order[..count][k])
    ensures BumpedAll(us, order[..count]) == Drop(us, order[..count]) + Reloaded(us, order[..count])
  {
    var log := order[..count];
    assert Distinct(log);
    ReloadsMoveToEnd(us, log);
    RegisteredAfterReloads(us, log, order[count]);
  }

  /** A reload that raises leaves the registry stopped at the failing name. */
  lemma FailedReload(us: seq<Unit>, order: seq<string>, count: nat, after: seq<Unit>)
    requires UniqueNames(us) && Distinct(order) && count < |order|
    requires forall k :: 0 <= k < |order| ==> Registered(us, order[k])
    requires after == Reexecuted(BumpedAll(us, order[..count]), order[count], false)
    ensures StoppedAt(us, after, order[..count], order[count])
  {
    ReloadNext(us, order, count);
    ReexecuteAfter(us, order[..count], order[count], false);
    assert Mark([Entry(us, order[count])], false) == [Entry(us, order[count])];
  }

  // ---------------------------------------------------------------------------
  // Reloading one package

  /** The basename find_pkg_by_name searches for: `pkg` itself when it is
      alphabetic, else its last dotted segment */
  function Basename(pkg: string): (r: string)
    ensures EndsWith(pkg, r) && '.' !in r
    ensures IsAlpha(pkg) ==> r == pkg
  {
    if IsAlpha(pkg) then
      assert forall k :: 0 <= k < |pkg| ==> IsLetter(pkg[k]);
      pkg
    else
      LastSegmentShape(pkg);
      LastSegment(pkg)
  }

  /** Both branches agree: the basename is always the last dotted segment, and a
      name without a dot is its own basename. */
  lemma BasenameIsLastSegment(pkg: string)
    ensures Basename(pkg) == LastSegment(pkg)
    ensures '.' !in pkg ==> Basename(pkg) == pkg
  {
    if IsAlpha(pkg) {
      forall k | 0 <= k < |pkg| ensures pkg[k] != '.' {
        assert IsLetter(pkg[k]);
      }
    }
    if '.' !in pkg {
      LastSegmentOfDotFree(pkg);
    }
  }

  /** The first unit, in registry order, whose name matches
      `.*\.user_parsers\..*<base>` */
  function FirstMatch(us: seq<Unit>, base: string): (r: Option<nat>)
    ensures r.Some? ==> r.value < |us|
  {
    if us == [] then None
    else if PluginMatch(us[0].name, base) then Some(0)
    else match FirstMatch(us[1..], base)
      case None => None
      case Some(k) => Some(k + 1)
  }

  /** FirstMatch finds the first match, and None means there is none. */
  lemma {:induction false} FirstMatchIsFirst(us: seq<Unit>, base: string)
    ensures FirstMatch(us, base).Some? ==> PluginMatch(us[FirstMatch(us, base).value].name, base)
    ensures FirstMatch(us, base).Some? ==>
      forall j :: 0 <= j < FirstMatch(us, base).value ==> !PluginMatch(us[j].name, base)
    ensures FirstMatch(us, base).None? ==> forall j :: 0 <= j < |us| ==> !PluginMatch(us[j].name, base)
  {
    if us != [] && !PluginMatch(us[0].name, base) {
      FirstMatchIsFirst(us[1..], base);
    }
  }

  /** A unit that matches, with none before it matching, is the first match. */
  lemma {:induction false} FirstMatchAt(us: seq<Unit>, base: string, k: nat)
    requires k < |us| && PluginMatch(us[k].name, base)
    requires forall j :: 0 <= j < k ==> !PluginMatch(us[j].name, base)
    ensures FirstMatch(us, base) == Some(k)
  {
    if k > 0 {
      FirstMatchAt(us[1..], base, k - 1);
    }
  }

  /** `find_pkg_by_name()` as a function: the index of the unit that becomes
      `reload.pkg`. The basename searched for is the last dotted segment, which
      is what the source's conditional computes (BasenameIsLastSegment). `fuel`
      bounds the depth of the recursion, which raises RecursionError when
      exhausted. */
  function Resolve(us: seq<Unit>, pkg: string, fuel: nat): (r: Result<nat, Failure>)
    ensures r.Ok? ==> r.value < |us| && us[r.value].name == us[r.value].package
    ensures r.Err? ==> r.error == ModuleNotFoundError || r.error == RecursionError
    decreases fuel
  {
    if fuel == 0 then Err(RecursionError)
    else match FirstMatch(us, LastSegment(pkg))
      case None => Err(ModuleNotFoundError)
      case Some(i) =>
        if us[i].name == us[i].package then Ok(i)
        else Resolve(us, us[i].package, fuel - 1)
  }

  /** More fuel changes nothing once the search has ended without exhausting it. */
  lemma {:induction false} ResolveFuelMonotone(us: seq<Unit>, pkg: string, fuel: nat, more: nat)
    requires fuel <= more && Resolve(us, pkg, fuel) != Err(RecursionError)
    ensures Resolve(us, pkg, more) == Resolve(us, pkg, fuel)
    decreases fuel
  {
    match FirstMatch(us, LastSegment(pkg))
    case None =>
    case Some(i) =>
      if us[i].name != us[i].package {
        ResolveFuelMonotone(us, us[i].package, fuel - 1, more - 1);
      }
  }

  /** A registry in which every unit below the plugin package that is not a
      package itself comes after its package, and the package's name matches
      the pattern for its own basename. Imports do not always build such a
      registry (a package whose `__init__` imports its submodules is registered
      after them); PackagesShorter is the hypothesis that does not depend on
      order. */
  ghost predicate PackagesFirst(us: seq<Unit>) {
    forall j :: 0 <= j < |us| && us[j].name != us[j].package && Contains(us[j].name, PluginSegment) ==>
      exists k :: 0 <= k < j && us[k].name == us[j].package && PluginMatch(us[k].name, LastSegment(us[k].name))
  }

  /** One step up: when the first match is not a package, the search goes on
      from its package with one level less. */
  lemma ResolveStep(us: seq<Unit>, pkg: string, fuel: nat, i: nat)
    requires fuel > 0 && FirstMatch(us, LastSegment(pkg)) == Some(i)
    requires us[i].name != us[i].package
    ensures Resolve(us, pkg, fuel) == Resolve(us, us[i].package, fuel - 1)
  {
  }

  /** The search ends at the first match when it is a package, and raises
      ModuleNotFoundError when nothing matches. */
  lemma ResolveStops(us: seq<Unit>, pkg: string, fuel: nat)
    requires fuel > 0
    ensures FirstMatch(us, LastSegment(pkg)).None? ==> Resolve(us, pkg, fuel) == Err(ModuleNotFoundError)
    ensures FirstMatch(us, LastSegment(pkg)).Some? ==>
      var i := FirstMatch(us, LastSegment(pkg)).value;
      us[i].name == us[i].package ==> Resolve(us, pkg, fuel) == Ok(i)
  {
  }

  /** In such a registry the package of a matched module matches earlier. */
  lemma PackageMatchesEarlier(us: seq<Unit>, base: string, i: nat)
    requires PackagesFirst(us)
    requires FirstMatch(us, base) == Some(i) && us[i].name != us[i].package
    ensures FirstMatch(us, LastSegment(us[i].package)).Some?
    ensures FirstMatch(us, LastSegment(us[i].package)).value < i
  {
    FirstMatchIsFirst(us, base);
    PluginMatchContainsSegment(us[i].name, base);
    var p := us[i].package;
    var k :| 0 <= k < i && us[k].name == p && PluginMatch(us[k].name, LastSegment(us[k].name));
    var next := FirstMatch(us, LastSegment(p));
    FirstMatchIsFirst(us, LastSegment(p));
    assert next.Some? && next.value <= k;
  }

  lemma {:induction false} ResolveEnds(us: seq<Unit>, pkg: string, fuel: nat)
    requires PackagesFirst(us)
    requires FirstMatch(us, LastSegment(pkg)).Some? && FirstMatch(us, LastSegment(pkg)).value < fuel
    ensures Resolve(us, pkg, fuel).Ok?
    decreases fuel
  {
    var i := FirstMatch(us, LastSegment(pkg)).value;
    if us[i].name != us[i].package {
      PackageMatchesEarlier(us, LastSegment(pkg), i);
      ResolveEnds(us, us[i].package, fuel - 1);
      ResolveStep(us, pkg, fuel, i);
    } else {
      assert Resolve(us, pkg, fuel) == Ok(i);
    }
  }

  /** Where packages are registered before their modules, the walk up the
      packages always ends within as many steps as there are units: it finds a
      package exactly when some unit matches the first basename, and raises
      ModuleNotFoundError otherwise. */
  lemma ResolveTerminates(us: seq<Unit>, pkg: string, fuel: nat)
    requires PackagesFirst(us) && fuel > |us|
    ensures Resolve(us, pkg, fuel).Ok? <==> FirstMatch(us, LastSegment(pkg)).Some?
    ensures Resolve(us, pkg, fuel).Err? ==> Resolve(us, pkg, fuel).error == ModuleNotFoundError
  {
    if FirstMatch(us, LastSegment(pkg)).Some? {
      ResolveEnds(us, pkg, fuel);
    }
  }

  /** Every plugin module that is not a package leads the search, through
      its package's basename, to nothing or to a unit with a shorter name:
      the walk up the packages cannot come back to where it was. Registration
      order does not matter. */
  ghost predicate PackagesShorter(us: seq<Unit>) {
    forall j :: 0 <= j < |us| ==> ShorterAt(us, j)
  }

  /** The step up from unit j, when there is one, leads to a shorter name */
  ghost predicate ShorterAt(us: seq<Unit>, j: int)
    requires 0 <= j < |us|
  {
    us[j].name != us[j].package && Contains(us[j].name, PluginSegment) ==>
      var m := FirstMatch(us, LastSegment(us[j].package));
      m.None? || |us[m.value].name| < |us[j].name|
  }

  /** How many units have a name shorter than `len` */
  function CountShorter(us: seq<Unit>, len: int): (r: nat)
    ensures r <= |us|
  {
    if us == [] then 0
    else CountShorter(us[..|us| - 1], len) + (if |us[|us| - 1].name| < len then 1 else 0)
  }

  /** A unit whose name is at least `len` long is not counted. */
  lemma {:induction false} CountShorterBound(us: seq<Unit>, len: int, k: nat)
    requires k < |us| && |us[k].name| >= len
    ensures CountShorter(us, len) < |us|
  {
    if k < |us| - 1 {
      CountShorterBound(us[..|us| - 1], len, k);
    }
  }

  /** Raising the bound past a unit's name length counts that unit too. */
  lemma {:induction false} CountShorterGrows(us: seq<Unit>, lo: int, hi: int, k: nat)
    requires lo <= hi && k < |us| && lo <= |us[k].name| < hi
    ensures CountShorter(us, lo) < CountShorter(us, hi)
  {
    if k < |us| - 1 {
      CountShorterGrows(us[..|us| - 1], lo, hi, k);
    } else {
      CountShorterMonotone(us[..|us| - 1], lo, hi);
    }
  }

  lemma {:induction false} CountShorterMonotone(us: seq<Unit>, lo: int, hi: int)
    requires lo <= hi
    ensures CountShorter(us, lo) <= CountShorter(us, hi)
  {
    if us != [] {
      CountShorterMonotone(us[..|us| - 1], lo, hi);
    }
  }

  /** One step of the walk under PackagesShorter */
  lemma ShorterStep(us: seq<Unit>, base: string, i: nat)
    requires PackagesShorter(us)
    requires FirstMatch(us, base) == Some(i) && us[i].name != us[i].package
    ensures var m := FirstMatch(us, LastSegment(us[i].package));
      m.None? || |us[m.value].name| < |us[i].name|
  {
    FirstMatchIsFirst(us, base);
    PluginMatchContainsSegment(us[i].name, base);
    assert ShorterAt(us, i);
  }

  /** The walk from a first match at i: a package ends it, anything else goes
      one level up. */
  lemma {:induction false} ResolveWithin(us: seq<Unit>, pkg: string, fuel: nat, i: nat)
    requires PackagesShorter(us)
    requires FirstMatch(us, LastSegment(pkg)) == Some(i)
    requires CountShorter(us, |us[i].name|) + 1 < fuel
    ensures Resolve(us, pkg, fuel) != Err(RecursionError)
    decreases fuel, 0
  {
    if us[i].name == us[i].package {
      ResolveStops(us, pkg, fuel);
    } else {
      var next := us[i].package;
      ShorterStep(us, LastSegment(pkg), i);
      var m := FirstMatch(us, LastSegment(next));
      if m.Some? {
        CountShorterGrows(us, |us[m.value].name|, |us[i].name|, m.value);
      }
      ResolveFrom(us, next, fuel - 1);
      ResolveStep(us, pkg, fuel, i);
    }
  }

  /** The walk from a package name whose first match, if any, has fewer
      shorter-named units than the recursion depth left. */
  lemma {:induction false} ResolveFrom(us: seq<Unit>, pkg: string, fuel: nat)
    requires PackagesShorter(us) && fuel > 0
    requires var m := FirstMatch(us, LastSegment(pkg));
      m.Some? ==> CountShorter(us, |us[m.value].name|) + 1 < fuel
    ensures Resolve(us, pkg, fuel) != Err(RecursionError)
    decreases fuel, 1
  {
    var m := FirstMatch(us, LastSegment(pkg));
    if m.None? {
      ResolveStops(us, pkg, fuel);
    } else {
      ResolveWithin(us, pkg, fuel, m.value);
    }
  }

  /** Where each step up leads to a shorter name, find_pkg_by_name never runs
      out of recursion depth once it may recurse more times than there are
      units, and its answer does not depend on how much more it may. */
  lemma ResolveNeverExhausts(us: seq<Unit>, pkg: string, fuel: nat)
    requires PackagesShorter(us) && fuel > |us|
    ensures Resolve(us, pkg, fuel) != Err(RecursionError)
    ensures forall more: nat :: more >= fuel ==> Resolve(us, pkg, more) == Resolve(us, pkg, fuel)
  {
    var m := FirstMatch(us, LastSegment(pkg));
    if m.Some? {
      CountShorterBound(us, |us[m.value].name|, m.value);
      ResolveWithin(us, pkg, fuel, m.value);
    }
    forall more: nat | more >= fuel ensures Resolve(us, pkg, more) == Resolve(us, pkg, fuel) {
      ResolveFuelMonotone(us, pkg, fuel, more);
    }
  }

  /** The loop of `find_pkg_by_name()`: a forward scan of the registry for
      the first unit whose name matches the pattern built from `base`. */
  method ScanForMatch(units: seq<Unit>, base: string) returns (r: Option<nat>)
    ensures r == FirstMatch(units, base)
  {
    FirstMatchIsFirst(units, base);
    var i := 0;
    while i < |units| && !PluginMatch(units[i].name, base)
      invariant 0 <= i <= |units|
      invariant forall j :: 0 <= j < i ==> !PluginMatch(units[j].name, base)
    {
      i := i + 1;
    }
    if i == |units| {
      return None;
    }
    return Some(i);
  }

  /** `find_pkg_by_name()`: the scan (raising ModuleNotFoundError when it ends
      without a match), then either the matching unit is its own package or
      the search starts again from its package. Reads the registry only. */
  method FindPkgByName(units: seq<Unit>, pkg: string, fuel: nat) returns (r: Result<nat, Failure>)
    ensures r == Resolve(units, pkg, fuel)
    decreases fuel
  {
    if fuel == 0 {
      return Err(RecursionError);
    }
    var base := Basename(pkg);
    BasenameIsLastSegment(pkg);
    var found := ScanForMatch(units, base);
    match found {
      case None =>
        r := Err(ModuleNotFoundError);
      case Some(i) =>
        if units[i].name == units[i].package {
          r := Ok(i);
        } else {
          ResolveStep(units, pkg, fuel, i);
          r := FindPkgByName(units, units[i].package, fuel - 1);
        }
    }
  }

  /** The `reload` closure refresh(pkg) returns, by the module it reloads; None
      when `reload.pkg` was never set */
  datatype Reloader = Reloader(target: Option<string>)

  /** What refresh(pkg) was given: None, a name, or a module object (which has
      a `__name__`) */
  datatype PkgArg = NoPkg | PkgName(s: string) | PkgModule(name: string)

  predicate Truthy(pkg: PkgArg) {
    pkg.PkgModule? || (pkg.PkgName? && pkg.s != "")
  }

  /** `refresh_user_parser_package()`: for a module, the reloader without a
      target; for anything else the reloader of the package find_pkg_by_name
      resolves, or the error it raises (None has no isalpha: AttributeError).
      Reloads nothing. */
  method RefreshUserParserPackage(reg: Registry, pkg: PkgArg, fuel: nat) returns (r: Result<Reloader, Failure>)
    ensures pkg.PkgModule? ==> r == Ok(Reloader(None))
    ensures pkg.NoPkg? ==> r == Err(AttributeError)
    ensures pkg.PkgName? ==> match Resolve(reg.units, pkg.s, fuel)
      case Ok(i) => r == Ok(Reloader(Some(reg.units[i].name))) && reg.units[i].name == reg.units[i].package
      case Err(e) => r == Err(e)
  {
    match pkg
    case PkgModule(_) =>
      r := Ok(Reloader(None));
    case NoPkg =>
      r := Err(AttributeError);
    case PkgName(s) =>
      var found := FindPkgByName(reg.units, s, fuel);
      match found
      case Ok(i) =>
        r := Ok(Reloader(Some(reg.units[i].name)));
      case Err(e) =>
        r := Err(e);
  }

  /** Calling the returned `reload()`: AttributeError when `reload.pkg` was never
      set, otherwise `importlib.reload` of that one module. */
  method CallReloader(reg: Registry, reloader: Reloader, failing: set<string>) returns (err: Option<Failure>)
    requires reg.Valid()
    modifies reg
    ensures reg.Valid()
    ensures reloader.target.None? ==> err == Some(AttributeError) && reg.units == old(reg.units)
    ensures reloader.target.Some? ==> ReloadStep(old(reg.units), reg.units, reloader.target.value, failing, err)
  {
    if reloader.target.None? {
      return Some(AttributeError);
    }
    err := reg.Reload(reloader.target.value, failing);
  }

  /** What refresh() returned: for refresh() the units it reloaded and the
      error that stopped it, if any; for refresh(pkg) the reloader or the error
      raised while resolving the package */
  datatype Outcome =
    | ReloadedAll(log: seq<string>, error: Option<Failure>)
    | ReturnedReloader(reloader: Reloader)
    | RaisedError(raised: Failure)

  /** `refresh(pkg, _prefix)`: a falsy pkg reloads everything; any other
      resolves one package and returns its reloader without reloading. */
  method Refresh(reg: Registry, pkg: PkgArg, prefix: string, failing: set<string>, fuel: nat)
    returns (out: Outcome)
    requires reg.Valid()
    modifies reg
    ensures reg.Valid()
    ensures !Truthy(pkg) ==> out.ReloadedAll?
    ensures !Truthy(pkg) ==> (
      var order := ReloadOrder(old(reg.units), prefix);
      |out.log| <= |order| && out.log == order[..|out.log|] &&
      (out.error.None? <==> out.log == order) &&
      (forall j :: 0 <= j < |out.log| ==> order[j] !in failing) &&
      (out.error.None? ==> ReloadedOnce(old(reg.units), reg.units, prefix)) &&
      (out.error.Some? ==>
        order[|out.log|] in failing &&
        out.error == Some(ReloadError(order[|out.log|])) &&
        StoppedAt(old(reg.units), reg.units, out.log, order[|out.log|])))
    ensures Truthy(pkg) ==> reg.units == old(reg.units)
    ensures pkg.PkgModule? ==> out == ReturnedReloader(Reloader(None))
    ensures pkg.PkgName? && pkg.s != "" ==> match Resolve(old(reg.units), pkg.s, fuel)
      case Ok(i) => out == ReturnedReloader(Reloader(Some(old(reg.units)[i].name)))
      case Err(e) => out == RaisedError(e)
  {
    if Truthy(pkg) {
      var r := RefreshUserParserPackage(reg, pkg, fuel);
      match r
      case Ok(reloader) =>
        out := ReturnedReloader(reloader);
      case Err(e) =>
        out := RaisedError(e);
    } else {
      var count, log, err := RefreshAll(reg, prefix, failing);
      out := ReloadedAll(log, err);
    }
  }
}
