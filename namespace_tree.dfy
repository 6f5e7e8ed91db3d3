/** `GetNamespaceTypesRecursive`: the named types of a namespace, found by a
    depth-first walk over its members in which only namespaces are entered. */
module NamespaceTree {

  /** A named type; the types declared inside it are kept but never walked. */
  datatype TypeSymbol = TypeSymbol(name: string, nestedTypes: seq<TypeSymbol>)

  /** A member of a namespace: a child namespace or a named type. */
  datatype NsMember = ChildNamespace(name: string, members: seq<NsMember>) | NamedType(symbol: TypeSymbol)

  /** The types yielded for the members of a namespace, in member order, each
      child namespace's types in that child's place. */
  function Types(members: seq<NsMember>): seq<TypeSymbol>
    decreases members
  {
    if members == [] then []
    else
      var head := match members[0]
        case ChildNamespace(_, ms) => Types(ms)
        case NamedType(t) => [t];
      head + Types(members[1..])
  }

  /** How many named types sit directly in the namespaces of the tree. */
  function NamedCount(members: seq<NsMember>): nat
    decreases members
  {
    if members == [] then 0
    else
      (match members[0]
       case ChildNamespace(_, ms) => NamedCount(ms)
       case NamedType(_) => 1)
      + NamedCount(members[1..])
  }

  /** The tree holds no named type at any namespace level. */
  predicate NoNamedTypes(members: seq<NsMember>)
    decreases members
  {
    forall k :: 0 <= k < |members| ==>
      match members[k]
      case ChildNamespace(_, ms) => NoNamedTypes(ms)
      case NamedType(_) => false
  }

  /** Splicing: the members of a concatenation yield the concatenation. */
  lemma {:induction false} TypesAppend(a: seq<NsMember>, b: seq<NsMember>)
    ensures Types(a + b) == Types(a) + Types(b)
    decreases a
  {
    if a == [] {
      assert a + b == b;
    } else {
      assert (a + b)[0] == a[0];
      assert (a + b)[1..] == a[1..] + b;
      TypesAppend(a[1..], b);
    }
  }

  /** A child namespace's types appear exactly at that child's position,
      between the types of the members before it and those after it. */
  lemma ChildSplicedInPlace(before: seq<NsMember>, name: string, ms: seq<NsMember>, after: seq<NsMember>)
    ensures Types(before + [ChildNamespace(name, ms)] + after) == Types(before) + Types(ms) + Types(after)
  {
    TypesAppend(before + [ChildNamespace(name, ms)], after);
    TypesAppend(before, [ChildNamespace(name, ms)]);
    assert Types([ChildNamespace(name, ms)]) == Types(ms) + Types([]);
  }

  /** Named types directly in a namespace are yielded one each, in member order. */
  lemma {:induction false} FlatInMemberOrder(members: seq<NsMember>)
    requires forall k :: 0 <= k < |members| ==> members[k].NamedType?
    ensures |Types(members)| == |members|
    ensures forall k :: 0 <= k < |members| ==> Types(members)[k] == members[k].symbol
    decreases members
  {
    if members != [] {
      FlatInMemberOrder(members[1..]);
    }
  }

  /** One type is yielded per named type at a namespace level. */
  lemma {:induction false} LengthIsNamedCount(members: seq<NsMember>)
    ensures |Types(members)| == NamedCount(members)
    decreases members
  {
    if members != [] {
      if members[0].ChildNamespace? {
        LengthIsNamedCount(members[0].members);
      }
      LengthIsNamedCount(members[1..]);
    }
  }

  /** The member holds no named type at any namespace level. */
  predicate MemberHasNoNamedTypes(m: NsMember)
  {
    match m
    case ChildNamespace(_, ms) => NoNamedTypes(ms)
    case NamedType(_) => false
  }

  lemma NoNamedTypesCons(members: seq<NsMember>)
    requires members != []
    ensures NoNamedTypes(members) <==> MemberHasNoNamedTypes(members[0]) && NoNamedTypes(members[1..])
  {
    if MemberHasNoNamedTypes(members[0]) && NoNamedTypes(members[1..]) {
      forall k | 0 <= k < |members|
        ensures match members[k]
          case ChildNamespace(_, ms) => NoNamedTypes(ms)
          case NamedType(_) => false
      {
        if k > 0 {
          assert members[k] == members[1..][k - 1];
        }
      }
    }
  }

  /** Nothing is yielded exactly when no namespace of the tree holds a named type;
      in particular an empty namespace yields nothing. */
  lemma {:induction false} EmptyIffNoNamedTypes(members: seq<NsMember>)
    ensures Types(members) == [] <==> NoNamedTypes(members)
    decreases members
  {
    if members != [] {
      if members[0].ChildNamespace? {
        EmptyIffNoNamedTypes(members[0].members);
      }
      EmptyIffNoNamedTypes(members[1..]);
      NoNamedTypesCons(members);
    }
  }

  /** Only namespaces are entered: a yielded type is a member of this namespace
      or is yielded by one of its child namespaces, and every such type is yielded. */
  lemma {:induction false} YieldedIffNamespaceMember(members: seq<NsMember>, t: TypeSymbol)
    ensures t in Types(members) <==>
      exists k :: 0 <= k < |members| &&
        (members[k] == NamedType(t) || (members[k].ChildNamespace? && t in Types(members[k].members)))
    decreases members
  {
    if members != [] {
      YieldedIffNamespaceMember(members[1..], t);
      if t in Types(members) {
        if t !in Types(members[1..]) {
          assert members[0] == NamedType(t) || (members[0].ChildNamespace? && t in Types(members[0].members));
        } else {
          var j :| 0 <= j < |members[1..]| &&
            (members[1..][j] == NamedType(t) || (members[1..][j].ChildNamespace? && t in Types(members[1..][j].members)));
          assert members[j + 1] == members[1..][j];
        }
      } else {
        forall k | 0 <= k < |members|
          ensures !(members[k] == NamedType(t) || (members[k].ChildNamespace? && t in Types(members[k].members)))
        {
          if k > 0 {
            assert members[k] == members[1..][k - 1];
          }
        }
      }
    }
  }

  /** A type declared inside another type is not yielded unless it also sits
      at a namespace level: a namespace holding one type with a nested type
      yields the outer type alone. */
  lemma NestedTypeNotYielded(outer: string, inner: TypeSymbol)
    ensures Types([NamedType(TypeSymbol(outer, [inner]))]) == [TypeSymbol(outer, [inner])]
    ensures inner !in Types([NamedType(TypeSymbol(outer, [inner]))])
  {
    assert Types([NamedType(TypeSymbol(outer, [inner]))]) == [TypeSymbol(outer, [inner])] + Types([]);
    assert [inner][0] == inner;
    assert inner != TypeSymbol(outer, [inner]);
  }
}
