/** The `Observables` flavour of the extension generator: it works out the
    namespaces an interface's events need, delegates the members to a wrapper
    generator, and only adds the file when the text parses without an error. */
module ObservablesGenerator {
  import opened Text
  import opened Ordinal
  import opened Symbols
  import opened Host

  /** A diagnostic of the C# parser: its severity and its `ToString()`. */
  datatype SyntaxDiagnostic = SyntaxDiagnostic(severity: Severity, text: string)

  /** What the wrapper generator returns: member texts, or the exception it threw. */
  datatype WrapperResult = Wrappers(members: seq<string>) | Thrown(exception: string)

  /** The parts of the generator whose code lies outside this model: the
      `ShortName()` extension, the wrapper generator and the C# parser. */
  datatype Collaborators = Collaborators(
    shortName: Interface -> string,
    buildEventWrappers: (Interface, seq<Event>) -> WrapperResult,
    parse: string -> seq<SyntaxDiagnostic>)

  const Baseline: set<string> := {"System", "System.Threading", "R3", "Godot"}

  const Canary: Output := SourceAdded("ObservableGeneratorCanary.g.cs", "// Observable generator ran\n")

  const Running: Diagnostic := Diagnostic("OBS000", "Observable Generator Running", Info, "ObservableExtensionGenerator executed successfully.")

  function Failed(exception: string): Diagnostic
  {
    Diagnostic("OBS999", "Observable generator failed", Error, "Exception: " + exception)
  }

  function SyntaxError(first: SyntaxDiagnostic): Diagnostic
  {
    Diagnostic("OBS998", "Syntax Error", Error, "Generated code invalid: " + first.text)
  }

  // ---------------------------------------------------------------------
  // Namespaces

  /** What `AddNamespace` adds for a containing namespace: nothing for a
      missing or the global namespace, else its display string. */
  function Contributed(ns: Option<Namespace>): set<string>
  {
    match ns
    case Some(Named(d)) => {d}
    case _ => {}
  }

  /** The namespaces of the named type arguments of a generic type. */
  function TypeArgNamespaces(args: seq<TypeRef>): set<string>
  {
    if args == [] then {}
    else
      var a := args[|args| - 1];
      TypeArgNamespaces(args[..|args| - 1]) + (if a.isNamed then Contributed(a.ns) else {})
  }

  /** What scanning one parameter adds: its type's namespace and, for a
      named generic type, those of its named type arguments, one level deep. */
  function ParamContrib(p: Param): set<string>
  {
    Contributed(p.paramType.ns)
    + (if p.paramType.isNamed && p.paramType.isGeneric then TypeArgNamespaces(p.paramType.typeArgs) else {})
  }

  function ParamNamespaces(ps: seq<Param>): set<string>
  {
    if ps == [] then {} else ParamNamespaces(ps[..|ps| - 1]) + ParamContrib(ps[|ps| - 1])
  }

  /** What one event adds: nothing unless its type is a named type; then the
      type's namespace, and the parameters' when the delegate has an invoke method. */
  function EventContrib(ev: Event): set<string>
  {
    if !ev.eventType.isNamed then {}
    else
      Contributed(ev.eventType.ns)
      + (match DelegateInvoke(ev.eventType) case None => {} case Some(ps) => ParamNamespaces(ps))
  }

  function EventNamespaces(events: seq<Event>): set<string>
  {
    if events == [] then {} else EventNamespaces(events[..|events| - 1]) + EventContrib(events[|events| - 1])
  }

  /** The namespace set `GetRequiredNamespaces` builds before sorting. */
  function RequiredNamespaces(iface: Interface, events: seq<Event>): set<string>
  {
    Baseline + Contributed(Some(iface.ns)) + EventNamespaces(events)
  }

  lemma TypeArgMembership(args: seq<TypeRef>, x: string)
    ensures x in TypeArgNamespaces(args) <==> exists k :: 0 <= k < |args| && args[k].isNamed && args[k].ns == Some(Named(x))
  {
    if args != [] {
      var init := args[..|args| - 1];
      TypeArgMembership(init, x);
      if x in TypeArgNamespaces(init) {
        var k :| 0 <= k < |init| && init[k].isNamed && init[k].ns == Some(Named(x));
        assert args[k] == init[k];
      }
      if exists k :: 0 <= k < |args| && args[k].isNamed && args[k].ns == Some(Named(x)) {
        var k :| 0 <= k < |args| && args[k].isNamed && args[k].ns == Some(Named(x));
        if k < |init| {
          assert init[k] == args[k];
        }
      }
    }
  }

  lemma ParamMembership(ps: seq<Param>, x: string)
    ensures x in ParamNamespaces(ps) <==> exists k :: 0 <= k < |ps| && x in ParamContrib(ps[k])
  {
    if ps != [] {
      var init := ps[..|ps| - 1];
      ParamMembership(init, x);
      if x in ParamNamespaces(init) {
        var k :| 0 <= k < |init| && x in ParamContrib(init[k]);
        assert ps[k] == init[k];
      }
      if exists k :: 0 <= k < |ps| && x in ParamContrib(ps[k]) {
        var k :| 0 <= k < |ps| && x in ParamContrib(ps[k]);
        if k < |init| {
          assert init[k] == ps[k];
        }
      }
    }
  }

  lemma EventMembership(events: seq<Event>, x: string)
    ensures x in EventNamespaces(events) <==> exists k :: 0 <= k < |events| && x in EventContrib(events[k])
  {
    if events != [] {
      var init := events[..|events| - 1];
      EventMembership(init, x);
      if x in EventNamespaces(init) {
        var k :| 0 <= k < |init| && x in EventContrib(init[k]);
        assert events[k] == init[k];
      }
      if exists k :: 0 <= k < |events| && x in EventContrib(events[k]) {
        var k :| 0 <= k < |events| && x in EventContrib(events[k]);
        if k < |init| {
          assert init[k] == events[k];
        }
      }
    }
  }

  /** A parameter type brings in `x`: it is the type's namespace, or the
      type is a named generic whose named type arguments include one in `x`. */
  predicate ParamTypeMentions(t: TypeRef, x: string)
  {
    || t.ns == Some(Named(x))
    || (t.isNamed && t.isGeneric
        && exists a :: 0 <= a < |t.typeArgs| && t.typeArgs[a].isNamed && t.typeArgs[a].ns == Some(Named(x)))
  }

  /** An event brings in `x`: its type is a named type and `x` is that type's
      namespace or, when the delegate has an invoke method, is brought in by
      one of the parameter types. */
  predicate EventMentions(ev: Event, x: string)
  {
    && ev.eventType.isNamed
    && (|| ev.eventType.ns == Some(Named(x))
        || (DelegateInvoke(ev.eventType).Some?
            && exists j :: 0 <= j < |DelegateInvoke(ev.eventType).value|
                 && ParamTypeMentions(DelegateInvoke(ev.eventType).value[j].paramType, x)))
  }

  lemma ParamContribIff(p: Param, x: string)
    ensures x in ParamContrib(p) <==> ParamTypeMentions(p.paramType, x)
  {
    TypeArgMembership(p.paramType.typeArgs, x);
  }

  lemma EventContribIff(ev: Event, x: string)
    ensures x in EventContrib(ev) <==> EventMentions(ev, x)
  {
    if ev.eventType.isNamed && DelegateInvoke(ev.eventType).Some? {
      var ps := DelegateInvoke(ev.eventType).value;
      ParamMembership(ps, x);
      forall j | 0 <= j < |ps|
        ensures x in ParamContrib(ps[j]) <==> ParamTypeMentions(ps[j].paramType, x)
      {
        ParamContribIff(ps[j], x);
      }
    }
  }

  /** Which namespaces are required, stated without the loops: the baseline,
      the interface's own namespace unless global, and what each event brings
      in; parameters count only when the delegate has an invoke method. */
  lemma RequiredMembership(iface: Interface, events: seq<Event>, x: string)
    ensures x in RequiredNamespaces(iface, events) <==>
      || x in Baseline
      || iface.ns == Named(x)
      || exists k :: 0 <= k < |events| && EventMentions(events[k], x)
  {
    EventMembership(events, x);
    forall k | 0 <= k < |events|
      ensures x in EventContrib(events[k]) <==> EventMentions(events[k], x)
    {
      EventContribIff(events[k], x);
    }
  }

  /** The global namespace is never added: when every type in sight sits in
      the global namespace or in none, the set is the baseline plus the
      interface's namespace, and just the baseline for a global interface. */
  lemma GlobalNeverAdded(iface: Interface, events: seq<Event>)
    requires forall k :: 0 <= k < |events| ==> events[k].eventType.ns.None? || events[k].eventType.ns == Some(Global)
    requires forall k, j :: (0 <= k < |events| && DelegateInvoke(events[k].eventType).Some?
               && 0 <= j < |DelegateInvoke(events[k].eventType).value|) ==>
               var t := DelegateInvoke(events[k].eventType).value[j].paramType;
               && Contributed(t.ns) == {}
               && forall a :: 0 <= a < |t.typeArgs| ==> Contributed(t.typeArgs[a].ns) == {}
    ensures RequiredNamespaces(iface, events) == Baseline + Contributed(Some(iface.ns))
    ensures iface.ns == Global ==> RequiredNamespaces(iface, events) == Baseline
  {
    forall x | x in RequiredNamespaces(iface, events) ensures x in Baseline + Contributed(Some(iface.ns)) {
      RequiredMembership(iface, events, x);
    }
  }

  /** Only one level of type arguments is scanned: what the type arguments'
      own type arguments are makes no difference. */
  lemma OneLevelOfTypeArguments(p: Param, deeper: seq<seq<TypeRef>>)
    requires |deeper| == |p.paramType.typeArgs|
    ensures var args := p.paramType.typeArgs;
      var args' := seq(|args|, a requires 0 <= a < |args| => args[a].(typeArgs := deeper[a]));
      ParamContrib(p) == ParamContrib(Param(p.name, p.paramType.(typeArgs := args')))
  {
    var args := p.paramType.typeArgs;
    var args' := seq(|args|, a requires 0 <= a < |args| => args[a].(typeArgs := deeper[a]));
    forall x ensures x in TypeArgNamespaces(args) <==> x in TypeArgNamespaces(args') {
      TypeArgMembership(args, x);
      TypeArgMembership(args', x);
      if x in TypeArgNamespaces(args') {
        var k :| 0 <= k < |args'| && args'[k].isNamed && args'[k].ns == Some(Named(x));
        assert args[k].isNamed && args[k].ns == Some(Named(x));
      }
      if x in TypeArgNamespaces(args) {
        var k :| 0 <= k < |args| && args[k].isNamed && args[k].ns == Some(Named(x));
        assert args'[k].isNamed && args'[k].ns == Some(Named(x));
      }
    }
  }

  /** The using list of a namespace set in ordinal order: one `using X;`
      per namespace. */
  ghost function SortedNamespaces(nss: set<string>): (r: seq<string>)
    ensures StrictlySorted(r) && Elems(r) == nss
  {
    if nss == {} then []
    else
      var x :| x in nss;
      Insert(SortedNamespaces(nss - {x}), x)
  }

  /** The hash set the namespaces are collected in. */
  class NamespaceSet {
    var items: set<string>

    constructor (initial: set<string>)
      ensures items == initial
    {
      items := initial;
    }

    /** `AddNamespace`. */
    method AddNamespace(ns: Option<Namespace>)
      modifies this
      ensures items == old(items) + Contributed(ns)
    {
      if ns.Some? && ns.value.Named? {
        items := items + {ns.value.display};
      }
    }

    /** `ScanParameters`. */
    method ScanParameters(ps: seq<Param>)
      modifies this
      ensures items == old(items) + ParamNamespaces(ps)
    {
      for i := 0 to |ps|
        invariant items == old(items) + ParamNamespaces(ps[..i])
      {
        var t := ps[i].paramType;
        AddNamespace(t.ns);
        if t.isNamed && t.isGeneric {
          for j := 0 to |t.typeArgs|
            invariant items == old(items) + ParamNamespaces(ps[..i]) + Contributed(t.ns) + TypeArgNamespaces(t.typeArgs[..j])
          {
            var arg := t.typeArgs[j];
            if arg.isNamed {
              AddNamespace(arg.ns);
            }
            assert t.typeArgs[..j + 1][..j] == t.typeArgs[..j];
          }
          assert t.typeArgs[..|t.typeArgs|] == t.typeArgs;
        }
        assert ps[..i + 1][..i] == ps[..i];
      }
      assert ps[..|ps|] == ps;
    }
  }

  /** `GetRequiredNamespaces`: the required namespaces, sorted ordinally and
      without repetition. */
  method GetRequiredNamespaces(iface: Interface, events: seq<Event>) returns (r: seq<string>)
    ensures StrictlySorted(r)
    ensures Elems(r) == RequiredNamespaces(iface, events)
  {
    var nsSet := new NamespaceSet(Baseline);
    nsSet.AddNamespace(Some(iface.ns));
    for i := 0 to |events|
      invariant nsSet.items == Baseline + Contributed(Some(iface.ns)) + EventNamespaces(events[..i])
    {
      var handler := events[i].eventType;
      assert events[..i + 1][..i] == events[..i];
      if !handler.isNamed {
        continue;
      }
      nsSet.AddNamespace(handler.ns);
      var invoke := DelegateInvoke(handler);
      if invoke.None? {
        continue;
      }
      nsSet.ScanParameters(invoke.value);
    }
    assert events[..|events|] == events;
    r := SortOrdinal(nsSet.items);
  }

  /** `BuildUsings`: the `using X;` lines joined by "\n" (no trailing line end). */
  function BuildUsings(nss: seq<string>): string
  {
    Join("\n", Wrap("using ", nss, ";"))
  }

  /** The usings text splits back, line by line, into one `using X;` per
      namespace in the given order (for names without a line break). */
  lemma UsingsLineByLine(nss: seq<string>)
    requires |nss| >= 1
    requires forall k :: 0 <= k < |nss| ==> '\n' !in nss[k]
    ensures var lines := Split(BuildUsings(nss), "\n");
      |lines| == |nss| && forall k :: 0 <= k < |nss| ==> lines[k] == "using " + nss[k] + ";"
  {
    var w := Wrap("using ", nss, ";");
    forall k | 0 <= k < |w| ensures "\n"[0] !in w[k] {
      assert w[k] == "using " + nss[k] + ";";
    }
    SplitJoin(w, "\n");
  }

  // ---------------------------------------------------------------------
  // The extension class and the output gate

  /** `BuildExtensionClass`'s text. */
  function ClassText(shortName: string, wrappers: seq<string>): string
  {
    Line("public static class " + shortName + "ObservableExtensions") + Line("{") + Lines(wrappers) + Line("}")
  }

  /** `BuildExtensionClass`: one line per wrapper, in order, inside the class. */
  method BuildExtensionClass(shortName: string, wrappers: seq<string>) returns (text: string)
    ensures text == ClassText(shortName, wrappers)
  {
    var sb := new TextBuilder();
    sb.AppendLine("public static class " + shortName + "ObservableExtensions");
    sb.AppendLine("{");
    EmptyAppend(Line("public static class " + shortName + "ObservableExtensions"));
    ghost var head := sb.text;
    for i := 0 to |wrappers|
      invariant sb.text == head + Lines(wrappers[..i])
    {
      sb.AppendLine(wrappers[i]);
      LinesStep(wrappers, i);
      AppendAssoc(head, Lines(wrappers[..i]), Line(wrappers[i]));
    }
    assert wrappers[..|wrappers|] == wrappers;
    sb.AppendLine("}");
    text := sb.text;
  }

  predicate HasError(diags: seq<SyntaxDiagnostic>)
  {
    exists k :: 0 <= k < |diags| && diags[k].severity == Error
  }

  /** What `AddSource` adds: the file when the parse reports no error, else
      one `OBS998` carrying the first diagnostic, whatever its severity. */
  function GateOutputs(diags: seq<SyntaxDiagnostic>, filename: string, body: string): seq<Output>
  {
    if HasError(diags) then [Reported(SyntaxError(diags[0]))] else [SourceAdded(filename, body)]
  }

  /** Exactly one output; it is the file if and only if the parse found no error. */
  lemma GateIff(diags: seq<SyntaxDiagnostic>, filename: string, body: string)
    ensures |GateOutputs(diags, filename, body)| == 1
    ensures GateOutputs(diags, filename, body)[0] == SourceAdded(filename, body)
        <==> forall k :: 0 <= k < |diags| ==> diags[k].severity != Error
    ensures GateOutputs(diags, filename, body)[0].Reported? ==>
      |diags| > 0 && GateOutputs(diags, filename, body)[0].diagnostic == SyntaxError(diags[0])
  {
  }

  /** `AddSource`: parse, then add the file or report the syntax error. */
  method AddSource(ctx: GeneratorContext, parse: string -> seq<SyntaxDiagnostic>, filename: string, body: string)
    modifies ctx
    ensures ctx.outputs == old(ctx.outputs) + GateOutputs(parse(body), filename, body)
  {
    var diagnostics := parse(body);
    if exists k :: 0 <= k < |diagnostics| && diagnostics[k].severity == Error {
      ctx.ReportDiagnostic(SyntaxError(diagnostics[0]));
      return;
    }
    ctx.AddSource(filename, body);
  }

  // ---------------------------------------------------------------------
  // Interfaces and the run

  /** The text of an interface's file. */
  ghost function FileText(c: Collaborators, iface: Interface, events: seq<Event>, wrappers: seq<string>): string
  {
    Line(BuildUsings(SortedNamespaces(RequiredNamespaces(iface, events)))) + Line(ClassText(c.shortName(iface), wrappers))
  }

  /** What `ExtendInterface` does for one interface. */
  ghost function Extend(c: Collaborators, iface: Interface): Run
  {
    var events := OwnEvents(iface.events);
    if events == [] then Run([], None)
    else
      match c.buildEventWrappers(iface, events)
      case Thrown(ex) => Run([], Some(ex))
      case Wrappers(ws) =>
        if ws == [] then Run([], None)
        else
          var text := FileText(c, iface, events, ws);
          Run(GateOutputs(c.parse(text), c.shortName(iface) + "Extensions.g.cs", text), None)
  }

  /** The loop over the interfaces, stopping at the first exception. */
  ghost function Process(c: Collaborators, ifaces: seq<Interface>): Run
  {
    if ifaces == [] then Run([], None)
    else
      var before := Process(c, ifaces[..|ifaces| - 1]);
      if before.exception.Some? then before
      else
        var r := Extend(c, ifaces[|ifaces| - 1]);
        Run(before.outputs + r.outputs, r.exception)
  }

  /** Everything `Execute` adds. */
  ghost function ExecuteOutputs(c: Collaborators, ifaces: seq<Interface>): seq<Output>
  {
    var run := Process(c, ifaces);
    Prelude(|ifaces|) + run.outputs + Epilogue(run)
  }

  /** The canary file, `OBS000`, and the discovery count. */
  function Prelude(count: nat): seq<Output>
  {
    [Canary, Reported(Running), Reported(FoundInterfaces(count))]
  }

  /** The `catch` block's report, if the run threw. */
  function Epilogue(run: Run): seq<Output>
  {
    match run.exception
    case None => []
    case Some(ex) => [Reported(Failed(ex))]
  }

  /** Every output of the gate is the file, parsed without error, or an `OBS998`. */
  lemma GateKinds(diags: seq<SyntaxDiagnostic>, filename: string, body: string)
    ensures forall o :: o in GateOutputs(diags, filename, body) ==>
      || (o == SourceAdded(filename, body) && !HasError(diags))
      || (o.Reported? && o.diagnostic.id == "OBS998")
  {
  }

  /** No file without own events or without wrappers. */
  lemma NoFileWithoutWrappers(c: Collaborators, iface: Interface)
    ensures OwnEvents(iface.events) == [] ==> Extend(c, iface) == Run([], None)
    ensures c.buildEventWrappers(iface, OwnEvents(iface.events)) == Wrappers([]) ==> Extend(c, iface) == Run([], None)
  {
  }

  /** Otherwise one output, the file exactly when its text parses without an
      error, named after the short name; a throwing wrapper generator adds nothing. */
  lemma ExtendKinds(c: Collaborators, iface: Interface)
    ensures |Extend(c, iface).outputs| <= 1
    ensures Extend(c, iface).exception.Some? ==> Extend(c, iface).outputs == []
    ensures forall o :: o in Extend(c, iface).outputs ==>
      || (o.SourceAdded? && o.hintName == c.shortName(iface) + "Extensions.g.cs" && !HasError(c.parse(o.text)))
      || (o.Reported? && o.diagnostic.id == "OBS998")
  {
    var events := OwnEvents(iface.events);
    if events != [] && c.buildEventWrappers(iface, events).Wrappers? && c.buildEventWrappers(iface, events).members != [] {
      var text := FileText(c, iface, events, c.buildEventWrappers(iface, events).members);
      GateKinds(c.parse(text), c.shortName(iface) + "Extensions.g.cs", text);
      GateIff(c.parse(text), c.shortName(iface) + "Extensions.g.cs", text);
    }
  }

  /** Each interface's outputs are files or `OBS998`; none is `OBS999`. */
  lemma {:induction false} ProcessOutputs(c: Collaborators, ifaces: seq<Interface>)
    ensures CountReported(Process(c, ifaces).outputs, "OBS999") == 0
  {
    if ifaces != [] {
      var init := ifaces[..|ifaces| - 1];
      ProcessOutputs(c, init);
      var before := Process(c, init);
      if before.exception.None? {
        var r := Extend(c, ifaces[|ifaces| - 1]);
        ExtendKinds(c, ifaces[|ifaces| - 1]);
        CountReportedAppend(before.outputs, r.outputs, "OBS999");
        if r.outputs != [] {
          assert r.outputs == r.outputs[..0] + [r.outputs[0]];
        }
      }
    }
  }

  /** Once an interface throws, the interfaces after it are not processed. */
  lemma {:induction false} StopsAtException(c: Collaborators, ifaces: seq<Interface>, more: seq<Interface>)
    requires Process(c, ifaces).exception.Some?
    ensures Process(c, ifaces + more) == Process(c, ifaces)
  {
    if more != [] {
      var init := more[..|more| - 1];
      StopsAtException(c, ifaces, init);
      assert (ifaces + more)[..|ifaces + more| - 1] == ifaces + init;
    } else {
      assert ifaces + more == ifaces;
    }
  }

  /** A run starts with the canary file, `OBS000` and the discovery count,
      in that order; it reports at most one `OBS999`, as its last output,
      exactly when some interface threw. */
  lemma ExecuteShape(c: Collaborators, ifaces: seq<Interface>)
    ensures var out := ExecuteOutputs(c, ifaces);
      && out[0] == Canary
      && out[1] == Reported(Running)
      && out[2] == Reported(FoundInterfaces(|ifaces|))
      && CountReported(out, "OBS999") == (if Process(c, ifaces).exception.Some? then 1 else 0)
      && (Process(c, ifaces).exception.Some? ==> out[|out| - 1] == Reported(Failed(Process(c, ifaces).exception.value)))
  {
    var run := Process(c, ifaces);
    var head := Prelude(|ifaces|);
    assert ExecuteOutputs(c, ifaces) == head + run.outputs + Epilogue(run);
    ExecuteFailedCount(c, ifaces);
  }

  lemma ExecuteFailedCount(c: Collaborators, ifaces: seq<Interface>)
    ensures CountReported(ExecuteOutputs(c, ifaces), "OBS999") == (if Process(c, ifaces).exception.Some? then 1 else 0)
  {
    var run := Process(c, ifaces);
    var head := Prelude(|ifaces|);
    var tail := Epilogue(run);
    ProcessOutputs(c, ifaces);
    CountReportedAppend(head + run.outputs, tail, "OBS999");
    CountReportedAppend(head, run.outputs, "OBS999");
    CountReportedAbsent(head, "OBS999");
    if run.exception.Some? {
      assert tail == tail[..0] + [tail[0]];
    }
  }

  /** `ExtendInterface`; returns the exception the wrapper generator threw, if any. */
  method ExtendInterface(ctx: GeneratorContext, c: Collaborators, iface: Interface) returns (thrown: Option<string>)
    modifies ctx
    ensures ctx.outputs == old(ctx.outputs) + Extend(c, iface).outputs
    ensures thrown == Extend(c, iface).exception
  {
    var events := OwnEvents(iface.events);
    if |events| == 0 {
      return None;
    }
    var result := c.buildEventWrappers(iface, events);
    if result.Thrown? {
      return Some(result.exception);
    }
    var wrappers := result.members;
    if |wrappers| == 0 {
      return None;
    }
    var nss := GetRequiredNamespaces(iface, events);
    var cls := BuildExtensionClass(c.shortName(iface), wrappers);
    var sb := new TextBuilder();
    sb.AppendLine(BuildUsings(nss));
    sb.AppendLine(cls);
    ExtendFile(c, iface, nss, sb.text);
    AddSource(ctx, c.parse, c.shortName(iface) + "Extensions.g.cs", sb.text);
    return None;
  }

  /** The text `ExtendInterface` assembles is the file text, and the gate decides. */
  lemma ExtendFile(c: Collaborators, iface: Interface, nss: seq<string>, text: string)
    requires OwnEvents(iface.events) != []
    requires c.buildEventWrappers(iface, OwnEvents(iface.events)).Wrappers?
    requires c.buildEventWrappers(iface, OwnEvents(iface.events)).members != []
    requires StrictlySorted(nss) && Elems(nss) == RequiredNamespaces(iface, OwnEvents(iface.events))
    requires text == "" + Line(BuildUsings(nss)) + Line(ClassText(c.shortName(iface), c.buildEventWrappers(iface, OwnEvents(iface.events)).members))
    ensures Extend(c, iface) == Run(GateOutputs(c.parse(text), c.shortName(iface) + "Extensions.g.cs", text), None)
  {
    var events := OwnEvents(iface.events);
    SortedUnique(nss, SortedNamespaces(RequiredNamespaces(iface, events)));
    EmptyAppend(Line(BuildUsings(nss)));
    assert text == FileText(c, iface, events, c.buildEventWrappers(iface, events).members);
  }

  lemma ProcessStep(c: Collaborators, ifaces: seq<Interface>, i: nat)
    requires i < |ifaces| && Process(c, ifaces[..i]).exception.None?
    ensures Process(c, ifaces[..i + 1])
         == Run(Process(c, ifaces[..i]).outputs + Extend(c, ifaces[i]).outputs, Extend(c, ifaces[i]).exception)
  {
    assert ifaces[..i + 1][..i] == ifaces[..i];
  }

  lemma StopsAtPrefix(c: Collaborators, ifaces: seq<Interface>, n: nat)
    requires n <= |ifaces| && Process(c, ifaces[..n]).exception.Some?
    ensures Process(c, ifaces) == Process(c, ifaces[..n])
  {
    StopsAtException(c, ifaces[..n], ifaces[n..]);
    SplitAt(ifaces, n);
  }

  lemma ExecuteLoopStep(start: seq<Output>, c: Collaborators, ifaces: seq<Interface>, i: nat, outs: seq<Output>)
    requires i < |ifaces| && Process(c, ifaces[..i]).exception.None?
    requires outs == start + Process(c, ifaces[..i]).outputs + Extend(c, ifaces[i]).outputs
    ensures outs == start + Process(c, ifaces[..i + 1]).outputs
    ensures Process(c, ifaces[..i + 1]).exception == Extend(c, ifaces[i]).exception
  {
    ProcessStep(c, ifaces, i);
    AppendAssoc(start, Process(c, ifaces[..i]).outputs, Extend(c, ifaces[i]).outputs);
  }

  lemma ExecuteFault(before: seq<Output>, c: Collaborators, ifaces: seq<Interface>, n: nat, ex: string, outs: seq<Output>)
    requires n <= |ifaces| && Process(c, ifaces[..n]).exception == Some(ex)
    requires outs == before + Prelude(|ifaces|) + Process(c, ifaces[..n]).outputs + [Reported(Failed(ex))]
    ensures outs == before + ExecuteOutputs(c, ifaces)
  {
    StopsAtPrefix(c, ifaces, n);
    AppendAssoc(before, Prelude(|ifaces|), Process(c, ifaces).outputs);
    AppendAssoc(before, Prelude(|ifaces|) + Process(c, ifaces).outputs, Epilogue(Process(c, ifaces)));
  }

  lemma ExecuteDone(before: seq<Output>, c: Collaborators, ifaces: seq<Interface>, outs: seq<Output>)
    requires Process(c, ifaces[..|ifaces|]).exception.None?
    requires outs == before + Prelude(|ifaces|) + Process(c, ifaces[..|ifaces|]).outputs
    ensures outs == before + ExecuteOutputs(c, ifaces)
  {
    assert ifaces[..|ifaces|] == ifaces;
    AppendAssoc(before, Prelude(|ifaces|), Process(c, ifaces).outputs);
    assert Epilogue(Process(c, ifaces)) == [];
    assert Prelude(|ifaces|) + Process(c, ifaces).outputs + [] == Prelude(|ifaces|) + Process(c, ifaces).outputs;
  }

  /** `Execute`: canary, `OBS000`, discovery, then each interface until one throws. */
  method Execute(ctx: GeneratorContext, c: Collaborators, interfaces: seq<Interface>)
    modifies ctx
    ensures ctx.outputs == old(ctx.outputs) + ExecuteOutputs(c, interfaces)
  {
    ctx.AddSource(Canary.hintName, Canary.text);
    ctx.ReportDiagnostic(Running);
    ctx.ReportDiagnostic(FoundInterfaces(|interfaces|));
    ghost var start := ctx.outputs;
    assert start == old(ctx.outputs) + Prelude(|interfaces|);
    var i := 0;
    while i < |interfaces|
      invariant 0 <= i <= |interfaces|
      invariant Process(c, interfaces[..i]).exception.None?
      invariant ctx.outputs == start + Process(c, interfaces[..i]).outputs
    {
      var thrown := ExtendInterface(ctx, c, interfaces[i]);
      ExecuteLoopStep(start, c, interfaces, i, ctx.outputs);
      if thrown.Some? {
        ctx.ReportDiagnostic(Failed(thrown.value));
        ExecuteFault(old(ctx.outputs), c, interfaces, i + 1, thrown.value, ctx.outputs);
        return;
      }
      i := i + 1;
    }
    ExecuteDone(old(ctx.outputs), c, interfaces, ctx.outputs);
  }
}
