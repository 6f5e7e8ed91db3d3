/** The R3 flavour of the extension generator: for every interface with events
    of its own it adds one file holding a static class of
    `On<Event>AsObservable` extension methods returning R3 observables. */
module R3Generator {
  import opened Text
  import opened Symbols
  import opened Host
  import opened EventWrapper

  /** The usings that follow the interface's own namespace. */
  const FixedUsings: seq<string> := ["R3", "System", "System.Threading", "Chickensoft.GodotNodeInterfaces"]

  /** `Name.TrimStart('I')`. */
  function ShortName(ifaceName: string): string
  {
    TrimLeading(ifaceName, 'I')
  }

  /** The using list: the interface namespace, then the fixed ones, first occurrences kept. */
  function Usings(ifaceNs: string): seq<string>
  {
    Distinct([ifaceNs] + FixedUsings)
  }

  /** One `using X;` line per namespace, in order. */
  function UsingLines(nss: seq<string>): string
  {
    if nss == [] then "" else UsingLines(nss[..|nss| - 1]) + Line("using " + nss[|nss| - 1] + ";")
  }

  function FileName(iface: Interface): string
  {
    ShortName(iface.name) + "Extensions.g.cs"
  }

  /** The text of the extension file of an interface. */
  function ExtensionText(iface: Interface): string
  {
    UsingLines(Usings(NamespaceDisplay(iface.ns)))
    + Line("public static class " + ShortName(iface.name) + "ObservableExtensions")
    + Line("{")
    + WrappersText(OwnEvents(iface.events), iface.name)
    + Line("}")
  }

  /** What `ExtendInterface` adds for one interface: nothing without own events. */
  function ExtendOutputs(iface: Interface): seq<Output>
  {
    if OwnEvents(iface.events) == [] then []
    else [SourceAdded(FileName(iface), ExtensionText(iface))]
  }

  function AllExtendOutputs(ifaces: seq<Interface>): seq<Output>
  {
    if ifaces == [] then []
    else AllExtendOutputs(ifaces[..|ifaces| - 1]) + ExtendOutputs(ifaces[|ifaces| - 1])
  }

  /** What `Execute` adds: the debug marker, the discovery diagnostic, then
      the files of the interfaces in order. */
  function ExecuteOutputs(ifaces: seq<Interface>): seq<Output>
  {
    [SourceAdded("DebugInfo.g.cs", "// Generator ran"), Reported(FoundInterfaces(|ifaces|))]
    + AllExtendOutputs(ifaces)
  }

  /** `TrimStart` drops every leading `I`, so `I<Name>` and `II<Name>` are
      given the same hint name: with own events, both add a file called
      `<Name>Extensions.g.cs`. */
  lemma HintNameCollision(name: string, ns1: Namespace, ns2: Namespace, events: seq<Event>)
    requires exists e :: e in events && e.declaredOnIface
    ensures var first := ExtendOutputs(Interface("I" + name, ns1, events));
      var second := ExtendOutputs(Interface("II" + name, ns2, events));
      && |first| == 1 && |second| == 1
      && first[0].hintName == second[0].hintName == TrimLeading(name, 'I') + "Extensions.g.cs"
  {
    var e :| e in events && e.declaredOnIface;
    assert e in OwnEvents(events);
    assert ("I" + name)[1..] == name;
    assert ("II" + name)[1..] == "I" + name;
  }

  /** The using list keeps the interface namespace in front and drops its
      later duplicate among the fixed namespaces, if any; nothing is sorted. */
  lemma UsingsFirstOccurrence(ifaceNs: string)
    ensures Usings(ifaceNs) == [ifaceNs] + Remove(FixedUsings, ifaceNs)
    ensures ifaceNs !in FixedUsings ==> Usings(ifaceNs) == [ifaceNs] + FixedUsings
    ensures NoDup(Usings(ifaceNs))
  {
    assert NoDup(FixedUsings);
    DistinctFront(ifaceNs, FixedUsings);
    if ifaceNs !in FixedUsings {
      RemoveAbsent(FixedUsings, ifaceNs);
    }
  }

  lemma {:induction false} RemoveAbsent(xs: seq<string>, x: string)
    requires x !in xs
    ensures Remove(xs, x) == xs
  {
    if xs != [] {
      RemoveAbsent(xs[..|xs| - 1], x);
      assert xs[..|xs| - 1] + [xs[|xs| - 1]] == xs;
    }
  }

  /** A file is added exactly when some event is declared on the interface
      itself; the file is named after the short name, which has no leading `I`. */
  lemma FileIffOwnEvent(iface: Interface)
    ensures |ExtendOutputs(iface)| <= 1
    ensures ExtendOutputs(iface) != [] <==> exists e :: e in iface.events && e.declaredOnIface
    ensures ExtendOutputs(iface) != [] ==>
      && ExtendOutputs(iface)[0].SourceAdded?
      && ExtendOutputs(iface)[0].hintName == ShortName(iface.name) + "Extensions.g.cs"
      && (ShortName(iface.name) == [] || ShortName(iface.name)[0] != 'I')
  {
    var own := OwnEvents(iface.events);
    if own != [] {
      assert own[0] in own;
    }
  }

  /** Events inherited from other interfaces change nothing in the output:
      only the interface's own events are wrapped. */
  lemma InheritedEventsIgnored(iface: Interface, inherited: seq<Event>)
    requires forall k :: 0 <= k < |inherited| ==> !inherited[k].declaredOnIface
    ensures ExtendOutputs(Interface(iface.name, iface.ns, iface.events + inherited)) == ExtendOutputs(iface)
  {
    OwnEventsAppend(iface.events, inherited);
    NoOwnEvents(inherited);
    assert OwnEvents(iface.events) + [] == OwnEvents(iface.events);
  }

  lemma NoOwnEvents(events: seq<Event>)
    requires forall k :: 0 <= k < |events| ==> !events[k].declaredOnIface
    ensures OwnEvents(events) == []
  {
  }

  /** Each interface contributes at most one output, always a file. */
  lemma {:induction false} AllExtendOutputsAreFiles(ifaces: seq<Interface>)
    ensures |AllExtendOutputs(ifaces)| <= |ifaces|
    ensures forall o :: o in AllExtendOutputs(ifaces) ==> o.SourceAdded?
  {
    if ifaces != [] {
      AllExtendOutputsAreFiles(ifaces[..|ifaces| - 1]);
      FileIffOwnEvent(ifaces[|ifaces| - 1]);
    }
  }

  /** A run starts with the debug marker and the `OBS001` count of
      interfaces, which is the only diagnostic it reports; the rest are files. */
  lemma ExecuteShape(ifaces: seq<Interface>)
    ensures var out := ExecuteOutputs(ifaces);
      && out[0] == SourceAdded("DebugInfo.g.cs", "// Generator ran")
      && out[1] == Reported(FoundInterfaces(|ifaces|))
      && |out| <= 2 + |ifaces|
      && (forall k :: 2 <= k < |out| ==> out[k].SourceAdded?)
  {
    AllExtendOutputsAreFiles(ifaces);
    var out := ExecuteOutputs(ifaces);
    forall k | 2 <= k < |out| ensures out[k].SourceAdded? {
      assert out[k] == AllExtendOutputs(ifaces)[k - 2];
    }
  }

  lemma UsingLinesStep(nss: seq<string>, i: nat)
    requires i < |nss|
    ensures UsingLines(nss[..i + 1]) == UsingLines(nss[..i]) + Line("using " + nss[i] + ";")
  {
    assert nss[..i + 1][..i] == nss[..i];
  }

  /** The `foreach` over the using list. */
  method AppendUsings(sb: TextBuilder, namespaces: seq<string>)
    modifies sb
    ensures sb.text == old(sb.text) + UsingLines(namespaces)
  {
    for i := 0 to |namespaces|
      invariant sb.text == old(sb.text) + UsingLines(namespaces[..i])
    {
      sb.AppendLine("using " + namespaces[i] + ";");
      UsingLinesStep(namespaces, i);
      AppendAssoc(old(sb.text), UsingLines(namespaces[..i]), Line("using " + namespaces[i] + ";"));
    }
    assert namespaces[..|namespaces|] == namespaces;
  }

  /** `ExtendInterface`: assembles the extension class in a `StringBuilder`
      and adds it as a file, unless the interface has no events of its own. */
  method ExtendInterface(ctx: GeneratorContext, iface: Interface)
    modifies ctx
    ensures ctx.outputs == old(ctx.outputs) + ExtendOutputs(iface)
  {
    var events := OwnEvents(iface.events);
    if |events| == 0 {
      return;
    }
    var sb := new TextBuilder();
    var shortName := ShortName(iface.name);
    ghost var usings := UsingLines(Usings(NamespaceDisplay(iface.ns)));
    AppendUsings(sb, Usings(NamespaceDisplay(iface.ns)));
    EmptyAppend(usings);
    sb.AppendLine("public static class " + shortName + "ObservableExtensions");
    sb.AppendLine("{");
    AppendEventWrappers(events, sb, iface.name);
    sb.AppendLine("}");
    assert sb.text == ExtensionText(iface);
    ctx.AddSource(shortName + "Extensions.g.cs", sb.text);
  }

  lemma AllExtendOutputsStep(ifaces: seq<Interface>, i: nat)
    requires i < |ifaces|
    ensures AllExtendOutputs(ifaces[..i + 1]) == AllExtendOutputs(ifaces[..i]) + ExtendOutputs(ifaces[i])
  {
    assert ifaces[..i + 1][..i] == ifaces[..i];
  }

  /** `Execute`: the debug marker, the discovery diagnostic, then every interface in turn. */
  method Execute(ctx: GeneratorContext, interfaces: seq<Interface>)
    modifies ctx
    ensures ctx.outputs == old(ctx.outputs) + ExecuteOutputs(interfaces)
  {
    ctx.AddSource("DebugInfo.g.cs", "// Generator ran");
    ctx.ReportDiagnostic(FoundInterfaces(|interfaces|));
    ghost var start := ctx.outputs;
    for i := 0 to |interfaces|
      invariant ctx.outputs == start + AllExtendOutputs(interfaces[..i])
    {
      ExtendInterface(ctx, interfaces[i]);
      AllExtendOutputsStep(interfaces, i);
      AppendAssoc(start, AllExtendOutputs(interfaces[..i]), ExtendOutputs(interfaces[i]));
    }
    assert interfaces[..|interfaces|] == interfaces;
    AppendAssoc(old(ctx.outputs), [SourceAdded("DebugInfo.g.cs", "// Generator ran"), Reported(FoundInterfaces(|interfaces|))], AllExtendOutputs(interfaces));
  }
}
