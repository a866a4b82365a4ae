# Plugin lifecycle of the `parsers` runtime, in Dafny

This project models the plugin-hosting core of the `parsers` package:

- how a user parser is selected from the command line (`select_parser`, `importcore`);
- the scan of loaded modules for a `reinit` flag (`check_reinit_states`);
- `refresh()`, which reloads every loaded module of the application in a fixed order;
- `refresh(pkg)`, which finds one plugin package by name and returns a closure that reloads it;
- the `ModuleDocstring` helper;
- the error hierarchy of `parsers/exceptions.py` and its factory of per-tag `<Tag>NotFoundError` types.

The module registry `sys.modules` is the class `Modules.Registry`. It holds an
insertion-ordered `seq` of `Unit` records with these fields:

- `__name__`;
- `__package__`;
- the module's `reinit` attribute, if it has one;
- a generation counter that `importlib.reload` raises.

`importlib.reload` takes the module out of `sys.modules` and puts it back at the
end, whether its code runs to completion or raises. The model does the same, so
`check_reinit_states` and `find_pkg_by_name`, which both depend on registry order,
see the order a refresh leaves behind. What a reloaded module's code does is not
modelled. A set of failing names says which reloads raise while their code runs.

Files:

- `wrappers.dfy`: `Option` and `Result`.
- `pystr.dfy`: the Python `str` operations used. These are `startswith`,
  `endswith`, `in`, `split('.')[-1]`, `isalpha`, `capitalize`, `*` and `repr`.
- `patterns.dfy`: the two regular expressions, as predicates.
- `registry.dfy`: the registry and `importlib.reload`.
- `imports.dfy`: plugin selection, the reinit scan and `ModuleDocstring`.
- `refresh.dfy`: both forms of `refresh`.
- `exceptions.dfy`: the error classes and the factory.
- `scenarios.dfy`: worked examples on concrete registries.

Details of the code that the model follows:

- `select_parser` imports `parsers.user_parsers.<name>` itself. Only `importcore`
  appends `.parser`.
- The `repr` of a synthesized error is `repr(msg)`, never the message itself. For a
  tag with no double quote and no character that `repr` escapes, it is the message
  between double quotes. A tag with a double quote makes `repr` use single quotes
  and escape the inner ones, and backslashes and control characters are escaped.
- `check_reinit_states` returns the matching module's `reinit` attribute, or None
  when that module has none. The default False is returned only when no module
  matches; a matching module's own `reinit` may be False too.
- `refresh()` leaves out every name that ends in `user_parsers`, not only the
  plugin root. A name goes to the plugin list when it contains `user_parsers.`.
- `find_pkg_by_name` matches the basename as a suffix of the whole name, not as a
  whole dotted segment. For example, `x.user_parsers.ap1` matches `p1`.
- The code tests `m.__name__ is m.__package__`, an identity test. The model
  treats it as string equality.

## Model

| member | source | states |
|---|---|---|
| `Modules.Registry.Reload` | parsers/imports.py:218 | `importlib.reload`: ImportError for an unregistered name, with the registry unchanged; otherwise the unit is taken out and put back at the end, re-executed (generation up) unless its reload raises, and the set of registered names and their uniqueness are kept |
| `Modules.Registry.constructor` | parsers/imports.py:213 | the registry starts from a sequence of uniquely named units, in insertion order |
| `Modules.ReloadsMoveToEnd` | parsers/imports.py:216-220 | after reloads of distinct registered names, none raising, the units never reloaded keep their relative order at the front and the reloaded ones follow in reload order, each re-executed once |
| `Modules.ReexecuteAfter` | parsers/imports.py:216-220 | one more reload after such a series moves that unit behind the ones already reloaded |
| `Modules.RegisteredAfterReloads` | parsers/imports.py:216-220 | reloading never removes a module from the registry |
| `Imports.ImportModule` | parsers/imports.py:85 | `import_module` succeeds exactly for importable names and otherwise raises ModuleNotFoundError |
| `Imports.SelectParser` | parsers/imports.py:67-90 | fewer than two arguments raise IndexError, with no import; otherwise it imports exactly `parsers.user_parsers.` + argv[1], succeeding iff that name is importable and raising ModuleNotFoundError otherwise |
| `Imports.SelectParserReadsOnlyFirstArgument` | parsers/imports.py:78-85 | argument lists that agree at position 1 give the same outcome |
| `Imports.CoreRoot` | parsers/imports.py:95 | a missing or empty alternative root falls back to `parsers.user_parsers`; any other is kept |
| `Imports.ImportCore` | parsers/imports.py:93-96 | imports exactly `<root>.<pkg>.parser`, with the default root when none is given |
| `Imports.ReinitState` | parsers/imports.py:104-108 | the answer is False or the `reinit` value of some unit whose name matches the reinit pattern |
| `Imports.ReinitStateIsLastMatch` | parsers/imports.py:104-108 | the result is the `reinit` value (None if absent) of the last registered unit matching `.*\.user_parsers\..*` followed by `.parser` or `.core` |
| `Imports.ReinitStateWithoutMatch` | parsers/imports.py:104-108 | with no matching unit the result is False |
| `Imports.ReinitStateIgnoresEarlier` | parsers/imports.py:104-108 | units registered before a later match never affect the result |
| `Imports.ReinitAfterReload` | parsers/imports.py:104-108 | after a matching module is reloaded it is the last match, so the scan answers with its flag whatever other matching modules were registered after it |
| `Imports.CheckReinitStates` | parsers/imports.py:104-108 | the reverse scan with early return computes the last-match answer and changes nothing |
| `Imports.Number` | parsers/imports.py:130-137 | ParameterValueError with the source's two messages for a non-int or an int outside 0..1; otherwise succeeds (bools included) with a negative result |
| `Imports.NumberNeverSwaps` | parsers/imports.py:130-137 | contrary to its docstring, `number` never returns 0 or 1: 0 gives -1 and 1 gives -2 |
| `Imports.ModuleDocstring.constructor` | parsers/imports.py:113-114 | `doc` and `__doc__` both hold the given docstring |
| `Imports.ModuleDocstring.Mul` | parsers/imports.py:120-125 | an invalid n raises before `doc` changes; a None `doc` raises TypeError; otherwise `doc` becomes the empty string; `__doc__` is untouched |
| `Patterns.PluginMatchIntro` | parsers/imports.py:106 | every name `A.user_parsers.C<tail>` with newline-free A and C matches, with or without one trailing newline |
| `Patterns.PluginMatchElim` | parsers/imports.py:225 | every name that matches has that form |
| `Refresh.CollectLists` | parsers/imports.py:211-215 | one forward pass builds exactly the base list and the plugin list of the selection |
| `Refresh.PartitionOfSelection` | parsers/imports.py:213-215 | the base and plugin lists split the selected names between them, with plugin names in the plugin list only |
| `Refresh.SortByLengthPermutes` | parsers/imports.py:216 | sorting by length is a permutation |
| `Refresh.SortByLengthStable` | parsers/imports.py:216 | sorting keeps names of equal length in their original order, like Python's stable sort with `reverse=True` |
| `Refresh.SortByLengthDescending` | parsers/imports.py:216 | the sorted names have non-increasing lengths |
| `Refresh.ReloadOrderDistinct` | parsers/imports.py:211-216 | with unique names, the order names registered units, none twice, and a unit is in it exactly when it is selected |
| `Refresh.ReloadOrderIsSelection` | parsers/imports.py:211-221 | with unique names, the reload order holds each selected name exactly once and nothing else, so the count equals the size of the selection |
| `Refresh.ReloadOrderShape` | parsers/imports.py:216 | the order is the base list in registry order, then the plugin names by non-increasing length, with equal lengths in registry order |
| `Refresh.RefreshAllEffect` | parsers/imports.py:207-221 | a refresh that raises nothing leaves the unselected units at the front in their old order, followed by every selected unit, re-executed once, in reload order |
| `Refresh.RefreshAll` | parsers/imports.py:207-221 | the order is fixed from a snapshot; reloads run in that order and are counted; without an error the registry ends as RefreshAllEffect describes; the first failing reload stops the loop and is returned, with the units before it reloaded and moved to the end, then the failing unit moved behind them without being re-executed; names stay unique |
| `Refresh.Basename` | parsers/imports.py:228 | the basename is a dot-free suffix of pkg, and an alphabetic pkg is its own basename |
| `Refresh.BasenameIsLastSegment` | parsers/imports.py:228 | both branches of the basename conditional give the last dotted segment, and a dot-free name is its own basename |
| `Refresh.FirstMatch` | parsers/imports.py:229-233 | a found index lies inside the registry |
| `Refresh.FirstMatchIsFirst` | parsers/imports.py:229-233 | the search finds the first matching unit in forward order, or reports that none matches |
| `Refresh.ScanForMatch` | parsers/imports.py:229-233 | the for/else scan returns the first matching index, or nothing |
| `Refresh.Resolve` | parsers/imports.py:225-239 | a resolved target is a registered unit whose name equals its package; the only failures are ModuleNotFoundError and exhausted recursion |
| `Refresh.ResolveFuelMonotone` | parsers/imports.py:234-238 | once resolution has ended, a deeper recursion bound does not change the result |
| `Refresh.ResolveNeverExhausts` | parsers/imports.py:225-239 | when every step up leads to nothing or to a unit with a shorter name, in any registration order, the search never runs out of recursion depth once that depth exceeds the number of units, and more depth changes nothing |
| `Refresh.ResolveTerminates` | parsers/imports.py:225-239 | in the narrower case where packages are registered before their modules and match their own basename, the search resolves iff some unit matches the first basename, and raises ModuleNotFoundError otherwise |
| `Refresh.FindPkgByName` | parsers/imports.py:225-239 | the scan-then-recurse method computes the resolution exactly |
| `Refresh.RefreshUserParserPackage` | parsers/imports.py:223-249 | given a module, it returns a reloader with no target; given a name, it returns the reloader of the resolved package or propagates the error; it reloads nothing |
| `Refresh.CallReloader` | parsers/imports.py:241-245 | a reloader with no target raises AttributeError and changes nothing; otherwise exactly one `importlib.reload` of the target happens, which moves it to the end of the registry |
| `Refresh.Refresh` | parsers/imports.py:202-253 | a falsy pkg reloads everything in the fixed order, ending as RefreshAll describes: no reloaded name fails, a stop happens exactly at a failing name, so with nothing failing everything is reloaded, with unselected units first and reloaded units after them in reload order; a truthy pkg leaves the registry unchanged and returns the reloader or the resolution error |
| `Scenarios.ReloadAllExample` | parsers/imports.py:213-220 | for the registry `parsers.a`, `parsers.b`, `parsers.user_parsers.p1.core`, `parsers.user_parsers.p1.sub.core`, the order is a, b, the `sub.core` name, then the `p1.core` name: four reloads |
| `Scenarios.ReinitExamples` | parsers/imports.py:104-108 | an empty registry gives False; X (False) then Y (True) gives True; X alone gives False |
| `Scenarios.ReloadByBasename` | parsers/imports.py:228-238 | `p1` resolves to the package `root.user_parsers.p1` whether it was registered before or after its `core` module |
| `Scenarios.ReloadByFullName` | parsers/imports.py:228-238 | `root.user_parsers.p1.core` matches the module first and walks up to its package |
| `Scenarios.ReloadCycle` | parsers/imports.py:228-238 | over `x.user_parsers.a.b`, `x.user_parsers.b.a` and their packages, `refresh("b")` goes round a.b, b.a, a.b, … and ends in RecursionError however deep the recursion may go |
| `Scenarios.ReloadUnknownPackage` | parsers/imports.py:229-233 | an unknown basename raises ModuleNotFoundError |
| `Exceptions.IsA` | parsers/exceptions.py:13-40 | a proper superclass lies strictly higher in the hierarchy |
| `Exceptions.Construct` | parsers/exceptions.py:59 | the instance belongs to the synthesized type and has exactly one arg |
| `Exceptions.InstanceRepr` | parsers/exceptions.py:60 | the repr is quoted at both ends and is never the message itself |
| `PyStr.Capitalize` | parsers/exceptions.py:58 | `capitalize` keeps the length |
| `PyStr.Repr` | parsers/exceptions.py:60 | `repr` of a str begins and ends with the same quote, chosen by the quotes inside |
| `Exceptions.EveryTypeIsABaseError` | parsers/exceptions.py:13-40 | every declared or synthesized error class is a subclass of BaseError |
| `Exceptions.IsATransitive` | parsers/exceptions.py:13-40 | `issubclass` over the hierarchy is transitive |
| `Exceptions.IsAAntisymmetric` | parsers/exceptions.py:13-40 | the hierarchy has no cycles |
| `Exceptions.SiblingsAreNotElementErrors` | parsers/exceptions.py:27-40 | BaseError, DataNotFoundError, ParameterValueError, EmptyError and URLError are not subclasses of ElementNotFoundError |
| `Exceptions.SynthesizedName` | parsers/exceptions.py:58 | the synthesized name is `capitalize(tag) + "NotFoundError"`: it ends in NotFoundError, is as long as the tag plus that suffix, and does not start with a lower-case letter |
| `PyStr.CapitalizeShape` | parsers/exceptions.py:58 | `capitalize` upper-cases the first character, lower-cases the rest, keeps every letter up to case, and is idempotent |
| `Exceptions.MessageQuotes` | parsers/exceptions.py:57 | the message `Parsed object has no tag '<tag>'` always holds a single quote, and holds a double quote exactly when the tag does (which decides how `repr` quotes it) |
| `Exceptions.ReprQuote` | parsers/exceptions.py:57-60 | `repr` quotes the message with double quotes exactly when the tag has no double quote |
| `Exceptions.ReprOfPlainTag` | parsers/exceptions.py:57-60 | for a plain tag, the instance repr is the message between double quotes, which differs from the message |
| `Exceptions.SynthesizedIsCaught` | parsers/exceptions.py:48-61 | a type built on the default base is caught by both ElementNotFoundError and BaseError, but not by DataNotFoundError |
| `Exceptions.Factory.NotFoundFactory` | parsers/exceptions.py:48-63 | each call returns a type never returned before, named after the capitalized prefix and derived from the given base |
| `Exceptions.Factory.RaiseNotFound` | parsers/exceptions.py:43-45 | it always raises an instance of a fresh type for the tag, built on ElementNotFoundError, whose sole arg is `"Parsed object has no tag '" + tag + "'"` |
| `Exceptions.TwoCallsSameTag` | parsers/exceptions.py:50-63 | two calls with the same tag give distinct types with the same name and the same message |

## Left out

- `importlib.reload` raises a unit's generation and moves it to the end, or fails
  and moves it without raising the generation. The model leaves out what the
  re-executed code does: new attributes, a changed `reinit`, modules it imports.
  A failing reload keeps its unit's fields here; in Python it may have partly
  rebound the module's attributes.
- `Modules.Registry.Reload`: `failing` stands only for reloads whose module code
  raises, which CPython's `_bootstrap._exec` follows by putting the module back at
  the end. A reload that fails before execution, such as `ModuleNotFoundError`
  ("spec not found") for a plugin file removed or renamed since its import, leaves
  the module in place in `sys.modules`; that case is not modelled.
- `Imports.SelectParser` / `Imports.ImportCore`: a successful import adds the module
  and its packages to `sys.modules`. That is not modelled, because import execution
  lies outside the core. Importability is a set-of-names parameter.
- Console output is not modelled: the `print` calls and ANSI colours in
  `select_parser` and `refresh`, the padding, and the final count line. `RefreshAll`
  returns the list of reloaded names in place of its progress lines.
- `warn_object_not_found`, `display_repl_code`, `shortcuts`, and the `snoop` and
  `debugcls` fallbacks are not modelled. They are warnings, printing, `globals()`
  injection, and foreign debugging tools.
- `ModuleDocstring.__call__` / `__repr__` only print the docstring and are not modelled.
- `BaseError.set_tracebacklimit` is not modelled, because it mutates global `sys` state.
- The `__main__` block of `parsers/exceptions.py` only prints and is not modelled.
- `src/request/__init__.py` is not part of this model. It is network and `sys.path`
  plumbing.
- `Refresh.Resolve`: Python's recursion limit is a `fuel` parameter. The code
  can recurse forever when the walk up the packages comes back to a module it
  has already visited (`Scenarios.ReloadCycle`). Such runs end in RecursionError
  here, once the fuel is spent.
- `Refresh.RefreshUserParserPackage`: when `refresh` is given a module object,
  `reload.pkg` is never set. Calling the returned closure then raises AttributeError,
  which is what `CallReloader` returns. Truthy arguments that are neither a string nor
  a module are not modelled.
- `Patterns.PluginMatch`: the basename is matched literally. Regular-expression
  metacharacters inside a basename, other than the dot that `split` removes, are not
  interpreted.
- `PyStr.Capitalize`, `PyStr.IsAlpha`: case mapping and `isalpha` cover ASCII only.
  Other Unicode letters are treated as non-letters with no case.
- `PyStr.Repr`: escapes follow CPython for characters up to U+00FF. Any higher
  character is kept as it is, so its printability is not consulted.
- Factory-made types are values with a fresh identity, not Python classes. Extra
  `attributedict` entries are not modelled, and neither is the `NotFound.create`
  indirection, which only forwards its argument.
- `Exceptions.Factory.NotFoundFactory` takes one declared base class. In the code
  `bases` is a tuple of arbitrary classes, and the synthesized `__init__` calls
  `bases[0].__init__`. No caller in the core passes another base.
