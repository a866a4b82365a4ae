/** Plugin selection, the reinit scan and ModuleDocstring from parsers/imports.py.
    Importing is modelled by the set of names `importlib.import_module` can
    load: a name outside it raises ModuleNotFoundError. */
module Imports {
  import opened Wrappers
  import opened PyStr
  import opened Patterns
  import opened Modules
  import Exceptions

  /** The package every plugin lives in */
  const PluginRoot := "parsers.user_parsers"

  /** `importlib.import_module(name)` */
  function ImportModule(name: string, importable: set<string>): (r: Result<string, Failure>)
    ensures r.Ok? <==> name in importable
    ensures r.Ok? ==> r.value == name
    ensures r.Err? ==> r.error == ModuleNotFoundError
  {
    if name in importable then Ok(name) else Err(ModuleNotFoundError)
  }

  /** `select_parser()`: the plugin named by `argv[1]`, imported from the plugin
      package. Too few arguments raise IndexError before any import; a name that
      cannot be imported raises ModuleNotFoundError. */
  function SelectParser(argv: seq<string>, importable: set<string>): (r: Result<string, Failure>)
    ensures |argv| < 2 <==> r == Err(IndexError)
    ensures |argv| >= 2 ==>
      (r.Ok? <==> PluginRoot + "." + argv[1] in importable) &&
      (r.Ok? ==> r.value == PluginRoot + "." + argv[1]) &&
      (r.Err? ==> r.error == ModuleNotFoundError)
  {
    if |argv| < 2 then Err(IndexError)
    else ImportModule(PluginRoot + "." + argv[1], importable)
  }

  /** select_parser looks at argv[1] alone: arguments that agree there give the
      same outcome. */
  lemma SelectParserReadsOnlyFirstArgument(a: seq<string>, b: seq<string>, importable: set<string>)
    requires |a| >= 2 && |b| >= 2 && a[1] == b[1]
    ensures SelectParser(a, importable) == SelectParser(b, importable)
  {
  }

  /** `alternative_root or 'parsers.user_parsers'`: None and the empty string
      are falsy. */
  function CoreRoot(alternativeRoot: Option<string>): (r: string)
    ensures alternativeRoot.None? || alternativeRoot == Some("") ==> r == PluginRoot
    ensures alternativeRoot.Some? && alternativeRoot.value != "" ==> r == alternativeRoot.value
  {
    if alternativeRoot.None? || alternativeRoot.value == "" then PluginRoot else alternativeRoot.value
  }

  /** `importcore(pkg, alternative_root)`: imports `<root>.<pkg>.parser` */
  function ImportCore(pkg: string, alternativeRoot: Option<string>, importable: set<string>)
    : (r: Result<string, Failure>)
    ensures var name := CoreRoot(alternativeRoot) + "." + pkg + ".parser";
      (r.Ok? <==> name in importable) && (r.Ok? ==> r.value == name) &&
      (r.Err? ==> r.error == ModuleNotFoundError)
    ensures alternativeRoot.None? ==> (r.Ok? ==> r.value == PluginRoot + "." + pkg + ".parser")
  {
    ImportModule(CoreRoot(alternativeRoot) + "." + pkg + ".parser", importable)
  }

  /** `check_reinit_states()`, as a function of the registry: the `reinit` value
      of the most recently registered unit whose name matches
      `.*\.user_parsers\..*\.(parser|core)`, and False when none does. */
  function ReinitState(us: seq<Unit>): (r: Option<bool>)
    ensures r == Some(false) || exists i :: 0 <= i < |us| && ReinitMatch(us[i].name) && us[i].reinit == r
  {
    if us == [] then Some(false)
    else if ReinitMatch(us[|us| - 1].name) then us[|us| - 1].reinit
    else
      var r := ReinitState(us[..|us| - 1]);
      assert forall i :: 0 <= i < |us| - 1 ==> us[..|us| - 1][i] == us[i];
      r
  }

  /** The answer is the flag of the last matching unit, whatever the earlier
      matching units say; with no matching unit it is False. */
  lemma {:induction false} ReinitStateIsLastMatch(us: seq<Unit>, k: int)
    requires 0 <= k < |us| && ReinitMatch(us[k].name)
    requires forall j :: k < j < |us| ==> !ReinitMatch(us[j].name)
    ensures ReinitState(us) == us[k].reinit
  {
    if k < |us| - 1 {
      ReinitStateIsLastMatch(us[..|us| - 1], k);
    }
  }

  lemma {:induction false} ReinitStateWithoutMatch(us: seq<Unit>)
    requires forall j :: 0 <= j < |us| ==> !ReinitMatch(us[j].name)
    ensures ReinitState(us) == Some(false)
  {
    if us != [] {
      ReinitStateWithoutMatch(us[..|us| - 1]);
    }
  }

  /** Units registered before a later matching unit never decide the answer. */
  lemma {:induction false} ReinitStateIgnoresEarlier(earlier: seq<Unit>, later: seq<Unit>, k: int)
    requires 0 <= k < |later| && ReinitMatch(later[k].name)
    ensures ReinitState(earlier + later) == ReinitState(later)
  {
    var all := earlier + later;
    var last := later[|later| - 1];
    assert all[|all| - 1] == last;
    if ReinitMatch(last.name) {
      assert ReinitState(all) == last.reinit == ReinitState(later);
    } else {
      var init := later[..|later| - 1];
      assert k < |init| && init[k] == later[k];
      assert all[..|all| - 1] == earlier + init;
      ReinitStateIgnoresEarlier(earlier, init, k);
      assert ReinitState(all) == ReinitState(earlier + init);
      assert ReinitState(later) == ReinitState(init);
    }
  }

  /** Reloading a matching module moves it to the end of the registry, so
      afterwards the scan answers with that module's flag, whatever other
      matching modules were registered after it. */
  lemma ReinitAfterReload(us: seq<Unit>, x: string, ran: bool)
    requires UniqueNames(us) && Registered(us, x) && ReinitMatch(x)
    ensures ReinitState(Reexecuted(us, x, ran)) == Entry(us, x).reinit
  {
    PickUnique(us, x);
    var r := Reexecuted(us, x, ran);
    var moved := Mark([Entry(us, x)], ran);
    assert r == Drop(us, [x]) + moved;
    assert r[|r| - 1] == moved[0];
  }

  /** `check_reinit_states()`: scans the registry from its most recent entry
      back and returns the flag of the first match it meets. Reads only. */
  method CheckReinitStates(reg: Registry) returns (r: Option<bool>)
    ensures r == ReinitState(reg.units)
  {
    var units := reg.units;
    var i := |units|;
    assert units[..i] == units;
    while i > 0
      invariant 0 <= i <= |units|
      invariant ReinitState(units[..i]) == ReinitState(units)
    {
      i := i - 1;
      ReinitStateStep(units, i);
      if ReinitMatch(units[i].name) {
        return units[i].reinit;
      }
    }
    assert units[..0] == [];
    return Some(false);
  }

  /** One step of the backward scan */
  lemma ReinitStateStep(us: seq<Unit>, i: nat)
    requires i < |us|
    ensures ReinitState(us[..i + 1]) ==
      if ReinitMatch(us[i].name) then us[i].reinit else ReinitState(us[..i])
  {
    assert us[..i + 1][i] == us[i];
    assert us[..i + 1][..i] == us[..i];
  }

  /** The argument given to `ModuleDocstring.number`: an int, a bool (which
      Python counts as an int), or any other object, known by its repr */
  datatype PyArg = PyInt(i: int) | PyBool(b: bool) | PyOther(repr: string)

  function ArgRepr(n: PyArg): string {
    match n
    case PyInt(i) => Decimal(i)
    case PyBool(b) => if b then "True" else "False"
    case PyOther(r) => r
  }

  /** `~n` on Python ints */
  function BitNot(i: int): int { -i - 1 }

  /** `ModuleDocstring.number(n)`: rejects a non-int and an int outside 0..1
      with ParameterValueError, and otherwise returns `~n`. */
  function Number(n: PyArg): (r: Result<int, Failure>)
    ensures r.Ok? <==> n.PyBool? || (n.PyInt? && 0 <= n.i <= 1)
    ensures n.PyOther? ==> r == Err(Raised(Exceptions.ParameterValueError, "n=" + n.repr + " must be integer"))
    ensures n.PyInt? && !(0 <= n.i <= 1) ==>
      r == Err(Raised(Exceptions.ParameterValueError, "n=" + Decimal(n.i) + " must by 0 or 1"))
    ensures r.Ok? ==> r.value < 0
  {
    match n
    case PyOther(_) => Err(Raised(Exceptions.ParameterValueError, "n=" + ArgRepr(n) + " must be integer"))
    case PyBool(b) => Ok(BitNot(if b then 1 else 0))
    case PyInt(i) =>
      if !(0 <= i <= 1) then Err(Raised(Exceptions.ParameterValueError, "n=" + ArgRepr(n) + " must by 0 or 1"))
      else Ok(BitNot(i))
  }

  /** Its docstring promises to swap 0 and 1; what it returns is never 0 or 1,
      and 0 and 1 give -1 and -2. */
  lemma NumberNeverSwaps(n: PyArg)
    ensures Number(n).Ok? ==> Number(n).value != 0 && Number(n).value != 1
    ensures Number(PyInt(0)) == Ok(-1) && Number(PyInt(1)) == Ok(-2)
    ensures Number(PyBool(false)) == Ok(-1) && Number(PyBool(true)) == Ok(-2)
  {
  }

  /** `ModuleDocstring`: `doc` is the text `*` updates; `dunderDoc` is
      `__doc__`, set once by the constructor. A missing docstring is None. */
  class ModuleDocstring {
    var doc: Option<string>
    var dunderDoc: Option<string>

    constructor (docstring: Option<string>)
      ensures doc == docstring && dunderDoc == docstring
    {
      doc := docstring;
      dunderDoc := docstring;
    }

    /** `self * n` (and `self *= n`): `self.doc *= ModuleDocstring.number(n)`.
        An invalid n raises ParameterValueError before doc is touched; a
        missing doc cannot be multiplied (TypeError); otherwise doc becomes the
        repetition by `~n`, which is always the empty string. */
    method Mul(n: PyArg) returns (err: Option<Failure>)
      modifies this
      ensures dunderDoc == old(dunderDoc)
      ensures Number(n).Err? ==> err == Some(Number(n).error) && doc == old(doc)
      ensures Number(n).Ok? && old(doc).None? ==> err == Some(TypeError) && doc == old(doc)
      ensures Number(n).Ok? && old(doc).Some? ==>
        err == None && doc == Some(Repeat(old(doc).value, Number(n).value))
      ensures err == None ==> doc == Some("")
    {
      var k := Number(n);
      if k.Err? {
        return Some(k.error);
      }
      if doc.None? {
        return Some(TypeError);
      }
      doc := Some(Repeat(doc.value, k.value));
      err := None;
    }
  }
}
