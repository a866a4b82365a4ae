/** The module registry `sys.modules`: an insertion-ordered table of loaded units,
    and `importlib.reload`, the one operation of the core that changes it.
    CPython's reload ends by popping the module from `sys.modules` and inserting
    it again, whether its code raised or not, so every reload moves its unit to
    the end of the table. */
module Modules {
  import opened Wrappers
  import Exceptions

  /** A loaded module: its `__name__`, its `__package__`, the value of its
      module-level `reinit` attribute (None when it has none), and how many times
      it has been re-executed by a reload. */
  datatype Unit = Unit(name: string, package: string, reinit: Option<bool>, generation: nat)

  /** The exceptions the core raises or lets through */
  datatype Failure =
    | IndexError
    | ModuleNotFoundError
    | AttributeError
    | TypeError
    | ImportError
    | RecursionError
    | Raised(cls: Exceptions.Declared, message: string)
    | ReloadError(unit: string)

  /** `sys.modules` is a dict: no name appears twice. */
  predicate UniqueNames(us: seq<Unit>) {
    forall i, j :: 0 <= i < j < |us| ==> us[i].name != us[j].name
  }

  predicate Registered(us: seq<Unit>, name: string) {
    exists i | 0 <= i < |us| :: us[i].name == name
  }

  /** No name occurs twice in a list of names */
  predicate Distinct(names: seq<string>) {
    forall i, j :: 0 <= i < j < |names| ==> names[i] != names[j]
  }

  /** The units whose names are not in `names`, in registry order */
  function Drop(us: seq<Unit>, names: seq<string>): (r: seq<Unit>)
    ensures |r| <= |us|
  {
    if us == [] then []
    else Drop(us[..|us| - 1], names) + (if us[|us| - 1].name in names then [] else [us[|us| - 1]])
  }

  /** The units called `name`, in registry order */
  function Pick(us: seq<Unit>, name: string): (r: seq<Unit>)
    ensures |r| <= |us|
  {
    if us == [] then []
    else Pick(us[..|us| - 1], name) + (if us[|us| - 1].name == name then [us[|us| - 1]] else [])
  }

  /** The unit registered under `name` */
  function Entry(us: seq<Unit>, name: string): (u: Unit)
    requires Registered(us, name)
    ensures u.name == name && u in us
  {
    if us[|us| - 1].name == name then us[|us| - 1]
    else
      var i :| 0 <= i < |us| && us[i].name == name;
      assert us[..|us| - 1][i].name == name;
      Entry(us[..|us| - 1], name)
  }

  /** The units after one more run of their code when `ran`, unchanged otherwise */
  function Mark(us: seq<Unit>, ran: bool): (r: seq<Unit>)
    ensures |r| == |us|
    ensures forall i :: 0 <= i < |us| ==>
      r[i].name == us[i].name && r[i].package == us[i].package && r[i].reinit == us[i].reinit
  {
    seq(|us|, i requires 0 <= i < |us| =>
      if ran then us[i].(generation := us[i].generation + 1) else us[i])
  }

  /** The registry after `importlib.reload(name)`: the unit leaves its place and
      is inserted again at the end, re-executed once more when its code ran to
      the end (`ran`). */
  function Reexecuted(us: seq<Unit>, name: string, ran: bool): seq<Unit> {
    Drop(us, [name]) + Mark(Pick(us, name), ran)
  }

  /** The registry after the units in `log` have been reloaded, in that order,
      none of them raising */
  function BumpedAll(us: seq<Unit>, log: seq<string>): seq<Unit> {
    if log == [] then us else Reexecuted(BumpedAll(us, log[..|log| - 1]), log[|log| - 1], true)
  }

  lemma BumpedAllSnoc(us: seq<Unit>, log: seq<string>, x: string)
    ensures BumpedAll(us, log + [x]) == Reexecuted(BumpedAll(us, log), x, true)
  {
    assert (log + [x])[..|log|] == log;
  }

  /** The units called by the names in `log`, in that order, each re-executed
      once more */
  function Reloaded(us: seq<Unit>, log: seq<string>): (r: seq<Unit>)
    requires forall k :: 0 <= k < |log| ==> Registered(us, log[k])
    ensures |r| == |log|
    ensures forall k :: 0 <= k < |log| ==> r[k].name == log[k]
  {
    seq(|log|, k requires 0 <= k < |log| =>
      Entry(us, log[k]).(generation := Entry(us, log[k]).generation + 1))
  }

  lemma RegisteredConcat(a: seq<Unit>, b: seq<Unit>, n: string)
    ensures Registered(a + b, n) <==> Registered(a, n) || Registered(b, n)
  {
    if Registered(a, n) {
      var i :| 0 <= i < |a| && a[i].name == n;
      assert (a + b)[i].name == n;
    }
    if Registered(b, n) {
      var i :| 0 <= i < |b| && b[i].name == n;
      assert (a + b)[|a| + i].name == n;
    }
  }

  lemma RegisteredInit(us: seq<Unit>, n: string)
    requires us != []
    ensures Registered(us, n) <==> Registered(us[..|us| - 1], n) || us[|us| - 1].name == n
  {
    assert us == us[..|us| - 1] + [us[|us| - 1]];
    RegisteredConcat(us[..|us| - 1], [us[|us| - 1]], n);
  }

  lemma RegisteredOne(u: Unit, n: string)
    ensures Registered([u], n) <==> u.name == n
    ensures !Registered([], n)
  {
    if u.name == n {
      assert [u][0].name == n;
    }
  }

  /** The last unit of a table without repeated names is not named earlier. */
  lemma LastIsNew(us: seq<Unit>)
    requires UniqueNames(us) && us != []
    ensures !Registered(us[..|us| - 1], us[|us| - 1].name)
  {
    var init := us[..|us| - 1];
    forall i | 0 <= i < |init| ensures init[i].name != us[|us| - 1].name {
      assert init[i] == us[i];
    }
  }

  /** Drop keeps exactly the names outside `names`. */
  lemma {:induction false} DropMembers(us: seq<Unit>, names: seq<string>, n: string)
    ensures Registered(Drop(us, names), n) <==> Registered(us, n) && n !in names
  {
    if us != [] {
      var init, last := us[..|us| - 1], us[|us| - 1];
      DropMembers(init, names, n);
      RegisteredInit(us, n);
      RegisteredOne(last, n);
      RegisteredConcat(Drop(init, names), if last.name in names then [] else [last], n);
    }
  }

  /** Pick holds units of that one name, and some exactly when it is registered. */
  lemma {:induction false} PickMembers(us: seq<Unit>, x: string, n: string)
    ensures Registered(Pick(us, x), n) <==> n == x && Registered(us, x)
  {
    if us != [] {
      var init, last := us[..|us| - 1], us[|us| - 1];
      PickMembers(init, x, n);
      RegisteredInit(us, x);
      RegisteredOne(last, n);
      RegisteredConcat(Pick(init, x), if last.name == x then [last] else [], n);
    }
  }

  lemma {:induction false} DropUnique(us: seq<Unit>, names: seq<string>)
    requires UniqueNames(us)
    ensures UniqueNames(Drop(us, names))
  {
    if us != [] {
      var init, last := us[..|us| - 1], us[|us| - 1];
      DropUnique(init, names);
      if last.name !in names {
        var d := Drop(init, names);
        LastIsNew(us);
        DropMembers(init, names, last.name);
        forall i, j | 0 <= i < j < |d + [last]| ensures (d + [last])[i].name != (d + [last])[j].name {
          if j == |d| {
            assert (d + [last])[i] == d[i];
          } else {
            assert (d + [last])[i] == d[i] && (d + [last])[j] == d[j];
          }
        }
      }
    }
  }

  /** In a table without repeated names, Pick finds the one entry of a
      registered name, and nothing otherwise. */
  lemma {:induction false} PickUnique(us: seq<Unit>, x: string)
    requires UniqueNames(us)
    ensures Registered(us, x) ==> Pick(us, x) == [Entry(us, x)]
    ensures !Registered(us, x) ==> Pick(us, x) == []
  {
    if us != [] {
      var init, last := us[..|us| - 1], us[|us| - 1];
      PickUnique(init, x);
      RegisteredInit(us, x);
      LastIsNew(us);
    }
  }

  /** A reload keeps the set of registered names and their uniqueness. */
  lemma ReexecutedNames(us: seq<Unit>, x: string, ran: bool, n: string)
    ensures Registered(Reexecuted(us, x, ran), n) <==> Registered(us, n)
    ensures UniqueNames(us) ==> UniqueNames(Reexecuted(us, x, ran))
  {
    var d, p := Drop(us, [x]), Pick(us, x);
    DropMembers(us, [x], n);
    PickMembers(us, x, n);
    RegisteredConcat(d, Mark(p, ran), n);
    var m := Mark(p, ran);
    if Registered(m, n) {
      var i :| 0 <= i < |m| && m[i].name == n;
      assert p[i].name == n;
    }
    if Registered(p, n) {
      var i :| 0 <= i < |p| && p[i].name == n;
      assert m[i].name == n;
    }
    if UniqueNames(us) {
      DropUnique(us, [x]);
      PickUnique(us, x);
      var r := d + m;
      forall i, j | 0 <= i < j < |r| ensures r[i].name != r[j].name {
        if j >= |d| {
          assert j == |d| && r[j] == m[0] && m[0].name == x;
          assert r[i] == d[i];
          DropMembers(us, [x], x);
        } else {
          assert r[i] == d[i] && r[j] == d[j];
        }
      }
    }
  }

  /** Reloading never removes a name from the registry. */
  lemma {:induction false} RegisteredAfterReloads(us: seq<Unit>, log: seq<string>, name: string)
    ensures Registered(BumpedAll(us, log), name) <==> Registered(us, name)
    ensures UniqueNames(us) ==> UniqueNames(BumpedAll(us, log))
  {
    if log != [] {
      var init := log[..|log| - 1];
      RegisteredAfterReloads(us, init, name);
      ReexecutedNames(BumpedAll(us, init), log[|log| - 1], true, name);
    }
  }

  lemma {:induction false} DropConcat(a: seq<Unit>, b: seq<Unit>, names: seq<string>)
    ensures Drop(a + b, names) == Drop(a, names) + Drop(b, names)
    decreases |b|
  {
    if b == [] {
      assert a + b == a;
    } else {
      assert (a + b)[..|a + b| - 1] == a + b[..|b| - 1];
      DropConcat(a, b[..|b| - 1], names);
    }
  }

  lemma {:induction false} PickConcat(a: seq<Unit>, b: seq<Unit>, x: string)
    ensures Pick(a + b, x) == Pick(a, x) + Pick(b, x)
    decreases |b|
  {
    if b == [] {
      assert a + b == a;
    } else {
      assert (a + b)[..|a + b| - 1] == a + b[..|b| - 1];
      PickConcat(a, b[..|b| - 1], x);
    }
  }

  lemma {:induction false} DropNone(s: seq<Unit>, names: seq<string>)
    requires forall i :: 0 <= i < |s| ==> s[i].name !in names
    ensures Drop(s, names) == s
  {
    if s != [] {
      DropNone(s[..|s| - 1], names);
    }
  }

  lemma {:induction false} PickNone(s: seq<Unit>, x: string)
    requires forall i :: 0 <= i < |s| ==> s[i].name != x
    ensures Pick(s, x) == []
  {
    if s != [] {
      PickNone(s[..|s| - 1], x);
    }
  }

  lemma {:induction false} DropDrop(us: seq<Unit>, a: seq<string>, b: seq<string>)
    ensures Drop(Drop(us, a), b) == Drop(us, a + b)
  {
    if us != [] {
      var init, last := us[..|us| - 1], us[|us| - 1];
      DropDrop(init, a, b);
      DropConcat(Drop(init, a), if last.name in a then [] else [last], b);
      assert [last][..0] == [];
    }
  }

  lemma {:induction false} PickDrop(us: seq<Unit>, names: seq<string>, x: string)
    requires x !in names
    ensures Pick(Drop(us, names), x) == Pick(us, x)
  {
    if us != [] {
      var init, last := us[..|us| - 1], us[|us| - 1];
      PickDrop(init, names, x);
      PickConcat(Drop(init, names), if last.name in names then [] else [last], x);
      assert [last][..0] == [];
    }
  }

  /** One more reload of a unit not yet in `log`, from the state the reloads
      in `log` leave: it joins the reloaded units at the end. */
  lemma ReexecuteAfter(us: seq<Unit>, log: seq<string>, x: string, ran: bool)
    requires UniqueNames(us) && Registered(us, x) && x !in log
    requires forall k :: 0 <= k < |log| ==> Registered(us, log[k])
    ensures Reexecuted(Drop(us, log) + Reloaded(us, log), x, ran)
         == Drop(us, log + [x]) + Reloaded(us, log) + Mark([Entry(us, x)], ran)
  {
    var rest, done := Drop(us, log), Reloaded(us, log);
    assert Drop(rest + done, [x]) == Drop(us, log + [x]) + done by {
      DropConcat(rest, done, [x]);
      DropNone(done, [x]);
      DropDrop(us, log, [x]);
    }
    assert Pick(rest + done, x) == [Entry(us, x)] by {
      PickConcat(rest, done, x);
      PickNone(done, x);
      PickDrop(us, log, x);
      PickUnique(us, x);
    }
  }

  /** Reloading distinct registered units, none of them raising, leaves the
      units not reloaded at the front in their old order, followed by the
      reloaded ones in reload order, each re-executed once more. */
  lemma {:induction false} ReloadsMoveToEnd(us: seq<Unit>, log: seq<string>)
    requires UniqueNames(us) && Distinct(log)
    requires forall k :: 0 <= k < |log| ==> Registered(us, log[k])
    ensures BumpedAll(us, log) == Drop(us, log) + Reloaded(us, log)
  {
    if log == [] {
      DropNone(us, log);
    } else {
      var init, x := log[..|log| - 1], log[|log| - 1];
      assert log == init + [x];
      assert Distinct(init) && x !in init by {
        forall k | 0 <= k < |init| ensures init[k] != x {
          assert log[k] != log[|log| - 1];
        }
      }
      ReloadsMoveToEnd(us, init);
      ReloadOneMore(us, init, x);
    }
  }

  /** The step of ReloadsMoveToEnd: one more reload after a log that already
      moved its units to the end. */
  lemma ReloadOneMore(us: seq<Unit>, init: seq<string>, x: string)
    requires UniqueNames(us) && Distinct(init) && x !in init && Registered(us, x)
    requires forall k :: 0 <= k < |init| ==> Registered(us, init[k])
    requires BumpedAll(us, init) == Drop(us, init) + Reloaded(us, init)
    ensures BumpedAll(us, init + [x]) == Drop(us, init + [x]) + Reloaded(us, init + [x])
  {
    var d, done, last := Drop(us, init + [x]), Reloaded(us, init), Mark([Entry(us, x)], true);
    calc {
      BumpedAll(us, init + [x]);
      { BumpedAllSnoc(us, init, x); }
      Reexecuted(BumpedAll(us, init), x, true);
      Reexecuted(Drop(us, init) + done, x, true);
      { ReexecuteAfter(us, init, x, true); }
      d + done + last;
      { assert d + done + last == d + (done + last); }
      d + (done + last);
      { ReloadedSnoc(us, init, x); }
      d + Reloaded(us, init + [x]);
    }
  }

  lemma ReloadedSnoc(us: seq<Unit>, init: seq<string>, x: string)
    requires Registered(us, x) && forall k :: 0 <= k < |init| ==> Registered(us, init[k])
    ensures forall k :: 0 <= k < |init + [x]| ==> Registered(us, (init + [x])[k])
    ensures Reloaded(us, init + [x]) == Reloaded(us, init) + Mark([Entry(us, x)], true)
  {
    var e := Entry(us, x);
    assert Mark([e], true) == [e.(generation := e.generation + 1)];
  }

  /** The effect `importlib.reload(name)` has on the registry, with the error it
      raises. A unit that is not registered cannot be reloaded (ImportError);
      otherwise the unit moves to the end, re-executed once more unless its code
      raises (it is in `failing`). */
  predicate ReloadStep(before: seq<Unit>, after: seq<Unit>, name: string, failing: set<string>, err: Option<Failure>) {
    if !Registered(before, name) then err == Some(ImportError) && after == before
    else if name in failing then err == Some(ReloadError(name)) && after == Reexecuted(before, name, false)
    else err == None && after == Reexecuted(before, name, true)
  }

  class Registry {
    var units: seq<Unit>

    ghost predicate Valid()
      reads this
    {
      UniqueNames(units)
    }

    constructor (initial: seq<Unit>)
      requires UniqueNames(initial)
      ensures Valid() && units == initial
    {
      units := initial;
    }

    /** `importlib.reload(module)`. What the module's code does is not modelled:
        `failing` names the units whose code raises when re-executed. */
    method Reload(name: string, failing: set<string>) returns (err: Option<Failure>)
      requires Valid()
      modifies this
      ensures Valid()
      ensures ReloadStep(old(units), units, name, failing, err)
      ensures forall n :: Registered(units, n) <==> Registered(old(units), n)
    {
      if !Registered(units, name) {
        err := Some(ImportError);
        return;
      }
      var ran := name !in failing;
      forall n ensures Registered(Reexecuted(units, name, ran), n) <==> Registered(units, n) {
        ReexecutedNames(units, name, ran, n);
      }
      ReexecutedNames(units, name, ran, name);
      units := Reexecuted(units, name, ran);
      err := if ran then None else Some(ReloadError(name));
    }
  }
}
