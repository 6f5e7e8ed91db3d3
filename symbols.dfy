/** The part of the compiler's symbol graph the generators read, as plain
    values: what `ToDisplayString()`, `Name`, `ContainingNamespace`,
    `TypeKind`, `IsGenericType`, `TypeArguments` and `DelegateInvokeMethod`
    answer for a type, and an interface with its event members. */
module Symbols {

  datatype Option<+T> = None | Some(value: T)

  /** A containing namespace: the global one, or a named one with its display string. */
  datatype Namespace = Global | Named(display: string)

  /** A type symbol. `isNamed` says whether it is an `INamedTypeSymbol`
      (array types and type parameters are not); `invoke` holds the
      parameters of the delegate's `Invoke` method and is only consulted for
      named delegate types. */
  datatype TypeRef = TypeRef(
    display: string,
    name: string,
    ns: Option<Namespace>,
    isNamed: bool,
    isDelegate: bool,
    isGeneric: bool,
    typeArgs: seq<TypeRef>,
    invoke: Option<seq<Param>>)

  datatype Param = Param(name: string, paramType: TypeRef)

  /** An event member of an interface; `declaredOnIface` is the
      `ContainingType.Equals(iface)` test. */
  datatype Event = Event(name: string, eventType: TypeRef, declaredOnIface: bool)

  datatype Interface = Interface(name: string, ns: Namespace, events: seq<Event>)

  /** `(t as INamedTypeSymbol)?.DelegateInvokeMethod?.Parameters`: present only
      for a named delegate type that has an invoke method. */
  function DelegateInvoke(t: TypeRef): Option<seq<Param>>
  {
    if t.isNamed && t.isDelegate then t.invoke else None
  }

  /** `ToDisplayString()` of a namespace; the global one displays as `<global namespace>`. */
  function NamespaceDisplay(ns: Namespace): string
  {
    match ns
    case Global => "<global namespace>"
    case Named(d) => d
  }

  /** The events whose containing type is the interface itself, in member order. */
  function OwnEvents(events: seq<Event>): (own: seq<Event>)
    ensures forall e :: e in own <==> e in events && e.declaredOnIface
    ensures |own| <= |events|
  {
    if events == [] then []
    else if events[0].declaredOnIface then [events[0]] + OwnEvents(events[1..])
    else OwnEvents(events[1..])
  }

  /** Filtering keeps member order: it distributes over concatenation. */
  lemma {:induction false} OwnEventsAppend(a: seq<Event>, b: seq<Event>)
    ensures OwnEvents(a + b) == OwnEvents(a) + OwnEvents(b)
  {
    if a != [] {
      assert (a + b)[1..] == a[1..] + b;
      OwnEventsAppend(a[1..], b);
    } else {
      assert a + b == b;
    }
  }

  function ParamTypeDisplays(ps: seq<Param>): (r: seq<string>)
    ensures |r| == |ps|
    ensures forall k :: 0 <= k < |ps| ==> r[k] == ps[k].paramType.display
  {
    if ps == [] then [] else [ps[0].paramType.display] + ParamTypeDisplays(ps[1..])
  }

  function ParamNames(ps: seq<Param>): (r: seq<string>)
    ensures |r| == |ps|
    ensures forall k :: 0 <= k < |ps| ==> r[k] == ps[k].name
  {
    if ps == [] then [] else [ps[0].name] + ParamNames(ps[1..])
  }
}
