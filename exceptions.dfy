/** The error hierarchy of parsers/exceptions.py and its factory of per-tag
    "not found" error types. A class is a value of ErrorType; the types the
    factory synthesizes carry the tag they were made for and an identity that
    is new on every call, so that two calls never return the same type. */
module Exceptions {
  import opened Wrappers
  import opened PyStr

  /** The classes the file declares */
  datatype Declared =
    | BaseError
    | ElementNotFoundError
    | DataNotFoundError
    | ParameterValueError
    | EmptyError
    | URLError

  datatype ErrorType =
    | Class(declared: Declared)
    | Synthesized(tag: string, base: Declared, id: nat)

  /** An exception instance: its class and its `args` */
  datatype Instance = Instance(cls: ErrorType, args: seq<string>)

  const Suffix := "NotFoundError"

  function DeclaredName(d: Declared): string {
    match d
    case BaseError => "BaseError"
    case ElementNotFoundError => "ElementNotFoundError"
    case DataNotFoundError => "DataNotFoundError"
    case ParameterValueError => "ParameterValueError"
    case EmptyError => "EmptyError"
    case URLError => "URLError"
  }

  /** `__name__` of a class */
  function Name(t: ErrorType): string {
    match t
    case Class(d) => DeclaredName(d)
    case Synthesized(tag, _, _) => Capitalize(tag) + Suffix
  }

  /** The message a synthesized type passes to its base's `__init__` */
  function Message(tag: string): string {
    "Parsed object has no tag '" + tag + "'"
  }

  /** The direct base class inside the hierarchy; BaseError's own base,
      Exception, lies outside it. */
  function Parent(t: ErrorType): Option<ErrorType> {
    match t
    case Class(BaseError) => None
    case Class(_) => Some(Class(BaseError))
    case Synthesized(_, b, _) => Some(Class(b))
  }

  function Depth(t: ErrorType): nat {
    match t
    case Class(BaseError) => 0
    case Class(_) => 1
    case Synthesized(_, BaseError, _) => 1
    case Synthesized(_, _, _) => 2
  }

  /** `issubclass(t, u)`; an `except u` clause catches instances of t exactly
      when this holds */
  function IsA(t: ErrorType, u: ErrorType): (r: bool)
    ensures r && t != u ==> Depth(u) < Depth(t)
    decreases Depth(t)
  {
    t == u || (Parent(t).Some? && IsA(Parent(t).value, u))
  }

  /** Every class of the hierarchy, declared or synthesized, derives from BaseError. */
  lemma EveryTypeIsABaseError(t: ErrorType)
    ensures IsA(t, Class(BaseError))
    decreases Depth(t)
  {
    match t
    case Class(BaseError) =>
    case Class(d) => assert IsA(Parent(t).value, Class(BaseError));
    case Synthesized(_, b, _) => EveryTypeIsABaseError(Class(b));
  }

  /** issubclass is transitive. */
  lemma {:induction false} IsATransitive(t: ErrorType, u: ErrorType, v: ErrorType)
    requires IsA(t, u) && IsA(u, v)
    ensures IsA(t, v)
    decreases Depth(t)
  {
    if t != u {
      IsATransitive(Parent(t).value, u, v);
    }
  }

  /** issubclass is antisymmetric: the hierarchy has no cycles. */
  lemma IsAAntisymmetric(t: ErrorType, u: ErrorType)
    requires IsA(t, u) && IsA(u, t)
    ensures t == u
  {
    // Otherwise each would lie strictly deeper than the other (IsA's ensures).
  }

  /** The declared classes other than ElementNotFoundError are not its subtypes,
      and neither is BaseError. */
  lemma SiblingsAreNotElementErrors(d: Declared)
    requires d != ElementNotFoundError
    ensures !IsA(Class(d), Class(ElementNotFoundError))
  {
  }

  /** The name of a synthesized type: the capitalized tag followed by
      NotFoundError, so it always ends with NotFoundError and starts with no
      lower-case letter. */
  lemma SynthesizedName(tag: string, base: Declared, id: nat)
    ensures Name(Synthesized(tag, base, id)) == Capitalize(tag) + Suffix
    ensures EndsWith(Name(Synthesized(tag, base, id)), Suffix)
    ensures |Name(Synthesized(tag, base, id))| == |tag| + |Suffix|
    ensures |tag| > 0 ==> !IsLower(Name(Synthesized(tag, base, id))[0])
  {
    var n := Name(Synthesized(tag, base, id));
    assert n[|n| - |Suffix|..] == Suffix;
    CapitalizeShape(tag);
  }

  /** The instance the type's zero-argument `__init__` builds: its only arg is
      the message, so `str()` of it is the message. */
  function Construct(t: ErrorType): (e: Instance)
    requires t.Synthesized?
    ensures e.cls == t && |e.args| == 1
  {
    Instance(t, [Message(t.tag)])
  }

  /** `repr()` of an instance of a synthesized type: `repr(msg)` */
  function InstanceRepr(e: Instance): (r: string)
    requires e.cls.Synthesized?
    ensures r != Message(e.cls.tag)
    ensures |r| >= 2 && r[0] == r[|r| - 1] && (r[0] == '"' || r[0] == '\'')
  {
    var m := Message(e.cls.tag);
    assert m[0] == 'P';
    Repr(m)
  }

  lemma MessageQuotes(tag: string)
    ensures '\'' in Message(tag)
    ensures '"' in Message(tag) <==> '"' in tag
  {
    var m := Message(tag);
    assert m[|m| - 1] == '\'';
    var lead := "Parsed object has no tag '";
    assert m == lead + tag + "'";
    if '"' in tag {
      var k :| 0 <= k < |tag| && tag[k] == '"';
      assert m[|lead| + k] == '"';
    }
    if '"' in m {
      var k :| 0 <= k < |m| && m[k] == '"';
      assert k >= |lead| && k < |lead| + |tag|;
      assert tag[k - |lead|] == '"';
    }
  }

  /** The message always holds single quotes, so `repr` quotes it with double
      quotes exactly when the tag holds no double quote. */
  lemma ReprQuote(tag: string)
    ensures QuoteFor(Message(tag)) == '"' <==> '"' !in tag
  {
    MessageQuotes(tag);
  }

  /** The fixed text before the tag holds no character `repr` escapes. */
  lemma LeadIsPlain(lead: string)
    requires lead == "Parsed object has no tag '"
    ensures AllPlain(lead, '"')
  {
    forall i | 0 <= i < |lead| ensures Plain(lead[i], '"') {
      assert lead[i] == '\'' || lead[i] == ' ' || 'a' <= lead[i] <= 'z' || lead[i] == 'P';
    }
  }

  /** For a tag of characters `repr` copies unchanged, the representation of an
      instance is the message itself between double quotes, not the message. */
  lemma ReprOfPlainTag(t: ErrorType)
    requires t.Synthesized? && AllPlain(t.tag, '"')
    ensures InstanceRepr(Construct(t)) == "\"" + Message(t.tag) + "\""
    ensures InstanceRepr(Construct(t)) != Message(t.tag)
  {
    var tag := t.tag;
    MessageQuotes(tag);
    var lead := "Parsed object has no tag '";
    LeadIsPlain(lead);
    assert AllPlain("'", '"');
    EscapePlain(lead, '"');
    EscapePlain("'", '"');
    EscapePlain(tag, '"');
    EscapeConcat(lead, tag, '"');
    EscapeConcat(lead + tag, "'", '"');
    assert Message(tag) == lead + tag + "'";
    var r := InstanceRepr(Construct(t));
    assert r[0] == '"';
  }

  /** Every type synthesized for a tag: named after it, subtype of both
      ElementNotFoundError and BaseError when built on the default base, and
      constructible with no arguments. */
  lemma SynthesizedIsCaught(tag: string, id: nat)
    ensures IsA(Synthesized(tag, ElementNotFoundError, id), Class(ElementNotFoundError))
    ensures IsA(Synthesized(tag, ElementNotFoundError, id), Class(BaseError))
    ensures !IsA(Synthesized(tag, ElementNotFoundError, id), Class(DataNotFoundError))
  {
  }

  /** The factory: `_notfound_factory`, whose calls each build a new class with
      `type(...)`. `issued` counts the classes built so far; each new one gets
      that count as its identity. */
  class Factory {
    var issued: nat
    ghost var made: set<ErrorType>

    ghost predicate Valid()
      reads this
    {
      forall t | t in made :: t.Synthesized? && t.id < issued
    }

    constructor ()
      ensures Valid() && issued == 0 && made == {}
    {
      issued := 0;
      made := {};
    }

    /** `_notfound_factory(prefix, bases=(base,))`: a type never returned before,
        named `Capitalize(prefix) + "NotFoundError"`, deriving from `base`. */
    method NotFoundFactory(prefix: string, base: Declared) returns (t: ErrorType)
      requires Valid()
      modifies this
      ensures Valid()
      ensures t.Synthesized? && t.tag == prefix && t.base == base
      ensures Name(t) == Capitalize(prefix) + Suffix
      ensures t !in old(made) && made == old(made) + {t}
      ensures issued == old(issued) + 1
    {
      t := Synthesized(prefix, base, issued);
      made := made + {t};
      issued := issued + 1;
    }

    /** `raise_notfound(tag)`: never returns normally; the result is the
        instance raised, of a new type for that tag built on
        ElementNotFoundError. */
    method RaiseNotFound(tag: string) returns (raised: Instance)
      requires Valid()
      modifies this
      ensures Valid()
      ensures raised.cls.Synthesized? && raised.cls.tag == tag
      ensures raised.cls.base == ElementNotFoundError && raised.cls !in old(made)
      ensures raised == Construct(raised.cls) && raised.args == [Message(tag)]
      ensures made == old(made) + {raised.cls}
    {
      var t := NotFoundFactory(tag, ElementNotFoundError);
      raised := Construct(t);
    }
  }

  /** Two factory calls with the same tag give two distinct types with the same
      name and the same message. */
  method TwoCallsSameTag(f: Factory, tag: string) returns (t1: ErrorType, t2: ErrorType)
    requires f.Valid()
    modifies f
    ensures f.Valid()
    ensures t1.Synthesized? && t2.Synthesized? && t1.tag == t2.tag == tag
    ensures t1 != t2 && Name(t1) == Name(t2)
    ensures Construct(t1).args == Construct(t2).args
  {
    t1 := f.NotFoundFactory(tag, ElementNotFoundError);
    t2 := f.NotFoundFactory(tag, ElementNotFoundError);
  }
}
