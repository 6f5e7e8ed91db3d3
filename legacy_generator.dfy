/** The earlier System.Reactive flavour of the extension generator: the same
    wrapper synthesiser behind a fixed using list and a `<short>Extensions`
    class, with no diagnostics and no debug marker. */
module LegacyGenerator {
  import opened Text
  import opened Symbols
  import opened Host
  import opened EventWrapper

  /** The four fixed using lines and the class opening. */
  function Header(shortName: string): string
  {
    Line("using System;")
    + Line("using System.Reactive;")
    + Line("using System.Reactive.Linq;")
    + Line("using System.Threading;")
    + Line("public static class " + shortName + "Extensions")
    + Line("{")
  }

  /** The text of the extension file of an interface. */
  function ExtensionText(iface: Interface): string
  {
    Header(TrimLeading(iface.name, 'I'))
    + WrappersText(OwnEvents(iface.events), iface.name)
    + Line("}")
  }

  /** What `ExtendInterface` adds for one interface: nothing without own events. */
  function ExtendOutputs(iface: Interface): seq<Output>
  {
    if OwnEvents(iface.events) == [] then []
    else [SourceAdded(TrimLeading(iface.name, 'I') + "Extensions.g.cs", ExtensionText(iface))]
  }

  /** What `Execute` adds: the files of the interfaces in order. */
  function ExecuteOutputs(ifaces: seq<Interface>): seq<Output>
  {
    if ifaces == [] then []
    else ExecuteOutputs(ifaces[..|ifaces| - 1]) + ExtendOutputs(ifaces[|ifaces| - 1])
  }

  /** The using list is fixed: the interface's namespace does not enter the text. */
  lemma UsingsIgnoreNamespace(iface: Interface, other: Namespace)
    ensures ExtensionText(iface) == ExtensionText(Interface(iface.name, other, iface.events))
  {
  }

  /** A file is added whenever an own event exists, even when every own event
      is skipped: the class is then empty. */
  lemma FileEvenIfAllSkipped(iface: Interface)
    requires exists e :: e in iface.events && e.declaredOnIface
    requires forall e :: e in OwnEvents(iface.events) ==> DelegateInvoke(e.eventType) == None
    ensures ExtendOutputs(iface) == [SourceAdded(TrimLeading(iface.name, 'I') + "Extensions.g.cs",
                                                 Header(TrimLeading(iface.name, 'I')) + Line("}"))]
  {
    var own := OwnEvents(iface.events);
    var e :| e in iface.events && e.declaredOnIface;
    assert e in own;
    AllSkippedIsEmpty(own, iface.name);
    assert Header(TrimLeading(iface.name, 'I')) + "" == Header(TrimLeading(iface.name, 'I'));
  }

  /** The legacy generator never reports a diagnostic and adds at most one
      file per interface. */
  lemma {:induction false} NoDiagnostics(ifaces: seq<Interface>)
    ensures |ExecuteOutputs(ifaces)| <= |ifaces|
    ensures forall o :: o in ExecuteOutputs(ifaces) ==> o.SourceAdded?
  {
    if ifaces != [] {
      NoDiagnostics(ifaces[..|ifaces| - 1]);
    }
  }

  /** `ExtendInterface`. */
  method ExtendInterface(ctx: GeneratorContext, iface: Interface)
    modifies ctx
    ensures ctx.outputs == old(ctx.outputs) + ExtendOutputs(iface)
  {
    var events := OwnEvents(iface.events);
    if |events| == 0 {
      return;
    }
    var sb := new TextBuilder();
    var shortName := TrimLeading(iface.name, 'I');
    sb.AppendLine("using System;");
    sb.AppendLine("using System.Reactive;");
    sb.AppendLine("using System.Reactive.Linq;");
    sb.AppendLine("using System.Threading;");
    sb.AppendLine("public static class " + shortName + "Extensions");
    sb.AppendLine("{");
    EmptyAppend(Line("using System;"));
    assert sb.text == Header(shortName);
    AppendEventWrappers(events, sb, iface.name);
    sb.AppendLine("}");
    ctx.AddSource(shortName + "Extensions.g.cs", sb.text);
  }

  lemma ExecuteOutputsStep(ifaces: seq<Interface>, i: nat)
    requires i < |ifaces|
    ensures ExecuteOutputs(ifaces[..i + 1]) == ExecuteOutputs(ifaces[..i]) + ExtendOutputs(ifaces[i])
  {
    assert ifaces[..i + 1][..i] == ifaces[..i];
  }

  /** `Execute`: every interface in turn. */
  method Execute(ctx: GeneratorContext, interfaces: seq<Interface>)
    modifies ctx
    ensures ctx.outputs == old(ctx.outputs) + ExecuteOutputs(interfaces)
  {
    for i := 0 to |interfaces|
      invariant ctx.outputs == old(ctx.outputs) + ExecuteOutputs(interfaces[..i])
    {
      ExtendInterface(ctx, interfaces[i]);
      ExecuteOutputsStep(interfaces, i);
      AppendAssoc(old(ctx.outputs), ExecuteOutputs(interfaces[..i]), ExtendOutputs(interfaces[i]));
    }
    assert interfaces[..|interfaces|] == interfaces;
  }
}
