/** The built-in binder generator: for an interface `I<Type>` with events of
    its own it adds a `partial class <Type>` in which every signal gets a
    connected flag, an observable property and a `Connect` method that
    forwards the stream's values to `EmitSignal`. */
module BuiltInGenerator {
  import opened Text
  import opened Symbols
  import opened Host
  import EventWrapper

  /** Signals with more parameters than this are skipped. */
  const MaxSignalParameters: nat := 5

  /** Messages of the .NET exceptions the generator can run into. */
  const IndexOutOfRangeMessage := "Index was outside the bounds of the array."
  const NullReferenceMessage := "Object reference not set to an instance of an object."

  /** `name.StartsWith("I") ? name[1..] : null`. */
  function ClassNameFor(name: string): (r: Option<string>)
    ensures r.Some? <==> |name| > 0 && name[0] == 'I'
    ensures r.Some? ==> "I" + r.value == name
  {
    if |name| > 0 && name[0] == 'I' then Some(name[1..]) else None
  }

  /** `value.Item1` ... `value.Item<k>`. */
  function EmitArgs(k: nat): (r: seq<string>)
    ensures |r| == k
    ensures forall i :: 0 <= i < k ==> r[i] == "value.Item" + NatToString(i + 1)
  {
    if k == 0 then [] else EmitArgs(k - 1) + ["value.Item" + NatToString(k)]
  }

  /** The call the subscription makes: the lower-cased signal name, then no
      argument, the single value, or the tuple's items in order. */
  function EmitCall(signal: string, paramCount: nat): string
  {
    var lower := ToLowerAscii(signal);
    if paramCount == 0 then "EmitSignal(\"" + lower + "\")"
    else if paramCount == 1 then "EmitSignal(\"" + lower + "\", value!)"
    else "EmitSignal(\"" + lower + "\", " + Join(", ", EmitArgs(paramCount)) + ")"
  }

  function ObservableName(signal: string): string
  {
    "On" + signal
  }

  function FieldName(signal: string): string
  {
    "_on" + signal
  }

  /** `_<lower-cased first character><rest>Connected`. */
  function ConnectedFlag(signal: string): string
    requires |signal| > 0
  {
    "_" + [LowerChar(signal[0])] + signal[1..] + "Connected"
  }

  function TooManyParameters(signal: string, className: string): Diagnostic
  {
    Diagnostic("OBSBUILTIN002", "Too many signal parameters", Warning,
               "Signal '" + signal + "' on type '" + className + "' has more than 5 parameters and will be skipped.")
  }

  function GenerationFailed(message: string): Diagnostic
  {
    Diagnostic("OBSBUILTIN001", "Generation failed", Error, "Exception: " + message)
  }

  function HeaderLines(className: string): seq<string>
  {
    ["// <auto-generated>", "using System;", "using R3;", "using Godot;", "public partial class " + className + " {"]
  }

  function FileName(className: string): string
  {
    className + ".BuiltinObservables.g.cs"
  }

  /** The members emitted for one signal. */
  function MemberLines(signal: string, observableType: string, emitCall: string): seq<string>
    requires |signal| > 0
  {
    var flag := ConnectedFlag(signal);
    [ "  private bool " + flag + ";",
      "  public Observable<" + observableType + "> " + ObservableName(signal) + " =>",
      "    " + FieldName(signal) + " ??= Connect" + signal + "();",
      "  private Subject<" + observableType + "> Connect" + signal + "() {",
      "    if (!" + flag + ") {",
      "      " + flag + " = true;",
      "      var subject = new Subject<" + observableType + ">();",
      "      subject.Subscribe(value => " + emitCall + ").AddTo(this);",
      "      return subject;",
      "    }",
      "    return " + FieldName(signal) + "!;",
      "  }" ]
  }

  /** What one event comes to: an exception, a skip with a warning, or members. */
  datatype EventOutcome = Fault(message: string) | TooMany(warning: Diagnostic) | Members(text: string)

  function EventStep(className: string, ev: Event): EventOutcome
  {
    if |ev.name| == 0 then Fault(IndexOutOfRangeMessage)
    else
      match DelegateInvoke(ev.eventType)
      case None => Fault(NullReferenceMessage)
      case Some(ps) =>
        if |ps| > MaxSignalParameters then TooMany(TooManyParameters(ev.name, className))
        else Members(Lines(MemberLines(ev.name, EventWrapper.Payload(ps), EmitCall(ev.name, |ps|))))
  }

  /** The state of `GeneratePartialForType` after some events: the warnings
      reported, the members appended, and the exception that stopped it. */
  datatype Partial = Partial(warnings: seq<Output>, body: string, fault: Option<string>)

  function PartialFor(className: string, events: seq<Event>): Partial
  {
    if events == [] then Partial([], "", None)
    else
      var p := PartialFor(className, events[..|events| - 1]);
      if p.fault.Some? then p else Advance(p, EventStep(className, events[|events| - 1]))
  }

  /** One more event: the exception is recorded, the warning reported, or the members appended. */
  function Advance(p: Partial, outcome: EventOutcome): Partial
  {
    match outcome
    case Fault(m) => Partial(p.warnings, p.body, Some(m))
    case TooMany(w) => Partial(p.warnings + [Reported(w)], p.body, None)
    case Members(t) => Partial(p.warnings, p.body + t, None)
  }

  /** What `GeneratePartialForType` does: the warnings, then the file unless an exception stopped it. */
  function Generate(className: string, events: seq<Event>): Run
  {
    var p := PartialFor(className, events);
    if p.fault.Some? then Run(p.warnings, p.fault)
    else Run(p.warnings + [SourceAdded(FileName(className), Lines(HeaderLines(className)) + p.body + Line("}"))], None)
  }

  /** What the loop body of `Execute` does for one interface. */
  function ForInterface(iface: Interface): Run
  {
    match ClassNameFor(iface.name)
    case None => Run([], None)
    case Some(className) =>
      var events := OwnEvents(iface.events);
      if events == [] then Run([], None) else Generate(className, events)
  }

  function Process(ifaces: seq<Interface>): Run
  {
    if ifaces == [] then Run([], None)
    else
      var before := Process(ifaces[..|ifaces| - 1]);
      if before.exception.Some? then before
      else
        var r := ForInterface(ifaces[|ifaces| - 1]);
        Run(before.outputs + r.outputs, r.exception)
  }

  function Epilogue(run: Run): seq<Output>
  {
    match run.exception
    case None => []
    case Some(m) => [Reported(GenerationFailed(m))]
  }

  /** Everything `Execute` adds: the discovery count, the interfaces' outputs
      up to the first exception, and the failure report if there was one. */
  function ExecuteOutputs(ifaces: seq<Interface>): seq<Output>
  {
    [Reported(FoundInterfaces(|ifaces|))] + Process(ifaces).outputs + Epilogue(Process(ifaces))
  }

  // ---------------------------------------------------------------------
  // Properties

  /** The emit arguments are the items 1..k in order: each reads back as its
      position plus one, so none repeats; joined, they split back apart. */
  lemma EmitArgsInOrder(k: nat)
    requires k > 1
    ensures forall i :: 0 <= i < k ==>
      |EmitArgs(k)[i]| > 10 && EmitArgs(k)[i][..10] == "value.Item"
      && IsDigits(EmitArgs(k)[i][10..]) && ParseNat(EmitArgs(k)[i][10..]) == i + 1
    ensures NoDup(EmitArgs(k))
    ensures Split(Join(", ", EmitArgs(k)), ", ") == EmitArgs(k)
  {
    var r := EmitArgs(k);
    forall i | 0 <= i < k
      ensures |r[i]| > 10 && r[i][..10] == "value.Item" && IsDigits(r[i][10..]) && ParseNat(r[i][10..]) == i + 1
    {
      assert r[i][10..] == NatToString(i + 1);
      ParseNatToString(i + 1);
    }
    forall i, j | 0 <= i < j < k ensures r[i] != r[j] {
      NatToStringInjective(i + 1, j + 1);
      assert r[i][10..] != r[j][10..];
    }
    forall i | 0 <= i < k ensures ", "[0] !in r[i] {
      assert r[i] == "value.Item" + NatToString(i + 1);
      DigitsNoComma(NatToString(i + 1));
    }
    SplitJoin(r, ", ");
  }

  lemma DigitsNoComma(s: string)
    requires IsDigits(s)
    ensures ',' !in s
  {
  }

  /** The emit call always names the signal fully lower-cased, right after `EmitSignal("`. */
  lemma EmitCallLowerCase(signal: string, paramCount: nat)
    ensures var call := EmitCall(signal, paramCount);
      && |call| > 12 + |signal|
      && call[..12] == "EmitSignal(\""
      && call[12..12 + |signal|] == ToLowerAscii(signal)
      && forall k :: 12 <= k < 12 + |signal| ==> !IsAsciiUpper(call[k])
  {
    var lower := ToLowerAscii(signal);
    var head := "EmitSignal(\"";
    var tail := if paramCount == 0 then "\")"
                else if paramCount == 1 then "\", value!)"
                else "\", " + Join(", ", EmitArgs(paramCount)) + ")";
    if paramCount > 1 {
      AppendAssoc(head + lower + "\", ", Join(", ", EmitArgs(paramCount)), ")");
      AppendAssoc(head + lower, "\", ", Join(", ", EmitArgs(paramCount)) + ")");
      AppendAssoc(head + lower, "\", " + Join(", ", EmitArgs(paramCount)), ")");
    }
    assert EmitCall(signal, paramCount) == head + lower + tail;
    assert (head + lower + tail)[..|head|] == head;
    assert (head + lower + tail)[|head|..|head| + |lower|] == lower;
  }

  /** Lower-casing a word whose tail is already lower-case lowers its first letter only. */
  lemma LowerFirstOnly(c: char, rest: string)
    requires forall k :: 0 <= k < |rest| ==> !IsAsciiUpper(rest[k])
    ensures ToLowerAscii([c] + rest) == [LowerChar(c)] + rest
  {
    assert ([c] + rest)[1..] == rest;
  }

  lemma EmitArgsTwo()
    ensures EmitArgs(2) == ["value.Item1", "value.Item2"]
  {
    assert DigitChar(1) == '1' && DigitChar(2) == '2';
    var args := EmitArgs(2);
    assert args[0] == "value.Item1" && args[1] == "value.Item2";
  }

  /** The zero-parameter example the generator's tests check. */
  lemma PressedExample()
    ensures EmitCall("Pressed", 0) == "EmitSignal(\"pressed\")"
    ensures EventWrapper.Payload([]) == "Unit"
  {
    assert "Pressed" == ['P'] + "ressed";
    LowerFirstOnly('P', "ressed");
  }

  lemma FiredLower()
    ensures ToLowerAscii("Fired") == "fired"
  {
    assert "Fired" == ['F'] + "ired";
    LowerFirstOnly('F', "ired");
  }

  lemma FiredArgs()
    ensures Join(", ", EmitArgs(2)) == "value.Item1, value.Item2"
  {
    EmitArgsTwo();
    assert Join(", ", ["value.Item1", "value.Item2"]) == "value.Item1" + ", " + "value.Item2";
  }

  /** A two-parameter signal passes both tuple items, in order. */
  lemma TwoParameterCall(signal: string)
    ensures EmitCall(signal, 2) == "EmitSignal(\"" + ToLowerAscii(signal) + "\", value.Item1, value.Item2)"
  {
    FiredArgs();
    var head := "EmitSignal(\"" + ToLowerAscii(signal) + "\", ";
    AppendAssoc(head, "value.Item1, value.Item2", ")");
  }

  /** The two-parameter emit call the generator's tests check. */
  lemma FiredExample()
    ensures EmitCall("Fired", 2) == "EmitSignal(\"fired\", value.Item1, value.Item2)"
  {
    FiredLower();
    TwoParameterCall("Fired");
    FiredText();
  }

  lemma FiredText()
    ensures "EmitSignal(\"" + "fired" + "\", value.Item1, value.Item2)" == "EmitSignal(\"fired\", value.Item1, value.Item2)"
  {
  }

  /** The two-parameter element type the generator's tests check. */
  lemma TupleTypeExample()
    ensures EventWrapper.Payload([Param("a", TypeRef("string", "String", None, true, false, false, [], None)),
                            Param("b", TypeRef("int", "Int32", None, true, false, false, [], None))]) == "(string, int)"
  {
    var ps := [Param("a", TypeRef("string", "String", None, true, false, false, [], None)),
               Param("b", TypeRef("int", "Int32", None, true, false, false, [], None))];
    assert ParamTypeDisplays(ps) == ["string", "int"];
    assert Join(", ", ["string", "int"]) == "string" + ", " + "int";
  }

  /** `_on<Signal>` is read and assigned but never declared: the only member
      declarations are the flag, the property and the `Connect` method. */
  lemma FieldNeverDeclared(signal: string, observableType: string, emitCall: string)
    requires |signal| > 0
    ensures var lines := MemberLines(signal, observableType, emitCall);
      && |lines| == 12
      && lines[0] == "  private bool " + ConnectedFlag(signal) + ";"
      && lines[1] == "  public Observable<" + observableType + "> On" + signal + " =>"
      && lines[3] == "  private Subject<" + observableType + "> Connect" + signal + "() {"
      && (forall j :: 0 <= j < 12 && j != 0 && j != 1 && j != 3 ==> lines[j][..3] == "   " || lines[j] == "  }")
      && lines[2] == "    _on" + signal + " ??= Connect" + signal + "();"
      && lines[10] == "    return _on" + signal + "!;"
  {
    var lines := MemberLines(signal, observableType, emitCall);
    assert lines[1] == "  public Observable<" + observableType + "> " + ("On" + signal) + " =>";
  }

  /** An over-cap event adds exactly one warning, naming it and the class, and no text. */
  lemma TooManyIsOneWarning(className: string, events: seq<Event>, ev: Event)
    requires PartialFor(className, events).fault.None?
    requires |ev.name| > 0 && DelegateInvoke(ev.eventType).Some? && |DelegateInvoke(ev.eventType).value| > MaxSignalParameters
    ensures var before := PartialFor(className, events);
      PartialFor(className, events + [ev]) == Partial(before.warnings + [Reported(TooManyParameters(ev.name, className))], before.body, None)
  {
    assert (events + [ev])[..|events|] == events;
  }

  function OverCap(events: seq<Event>): nat
  {
    if events == [] then 0
    else
      var ev := events[|events| - 1];
      OverCap(events[..|events| - 1])
      + (if DelegateInvoke(ev.eventType).Some? && |DelegateInvoke(ev.eventType).value| > MaxSignalParameters then 1 else 0)
  }

  /** Without an exception, the warnings are one `OBSBUILTIN002` per over-cap event, nothing else. */
  lemma {:induction false} WarningsCountOverCap(className: string, events: seq<Event>)
    requires PartialFor(className, events).fault.None?
    ensures CountReported(PartialFor(className, events).warnings, "OBSBUILTIN002") == OverCap(events)
    ensures |PartialFor(className, events).warnings| == OverCap(events)
  {
    if events != [] {
      var init := events[..|events| - 1];
      var p := PartialFor(className, init);
      WarningsCountOverCap(className, init);
      var step := EventStep(className, events[|events| - 1]);
      StepOverCap(className, events[|events| - 1]);
      if step.TooMany? {
        CountReportedAppend(p.warnings, [Reported(step.warning)], "OBSBUILTIN002");
        assert [Reported(step.warning)][..0] == [];
      }
    }
  }

  /** An event that raises no exception is skipped with an `OBSBUILTIN002`
      warning exactly when it is over the cap. */
  lemma StepOverCap(className: string, ev: Event)
    ensures !EventStep(className, ev).Fault? ==>
      (EventStep(className, ev).TooMany? <==>
        DelegateInvoke(ev.eventType).Some? && |DelegateInvoke(ev.eventType).value| > MaxSignalParameters)
    ensures EventStep(className, ev).TooMany? ==> EventStep(className, ev).warning.id == "OBSBUILTIN002"
  {
  }

  /** Without an exception the file is added, even when every event was
      skipped; its text is the header, the members, and the closing brace. */
  lemma FileUnlessFault(className: string, events: seq<Event>)
    requires PartialFor(className, events).fault.None?
    ensures var out := Generate(className, events).outputs;
      && out[|out| - 1] == SourceAdded(className + ".BuiltinObservables.g.cs",
                                       Lines(HeaderLines(className)) + PartialFor(className, events).body + Line("}"))
      && ((forall k :: 0 <= k < |events| ==> EventStep(className, events[k]).TooMany?) ==> PartialFor(className, events).body == "")
  {
    if forall k :: 0 <= k < |events| ==> EventStep(className, events[k]).TooMany? {
      AllTooManyNoBody(className, events);
    }
  }

  lemma {:induction false} AllTooManyNoBody(className: string, events: seq<Event>)
    requires forall k :: 0 <= k < |events| ==> EventStep(className, events[k]).TooMany?
    ensures PartialFor(className, events).body == "" && PartialFor(className, events).fault.None?
  {
    if events != [] {
      AllTooManyNoBody(className, events[..|events| - 1]);
    }
  }

  /** An event whose type has no invoke method stops the generator: once an
      exception is raised no later event counts, and no file is added. */
  lemma {:induction false} FaultStops(className: string, events: seq<Event>, more: seq<Event>)
    requires PartialFor(className, events).fault.Some?
    ensures PartialFor(className, events + more) == PartialFor(className, events)
  {
    if more != [] {
      FaultStops(className, events, more[..|more| - 1]);
      assert (events + more)[..|events + more| - 1] == events + more[..|more| - 1];
    } else {
      assert events + more == events;
    }
  }

  /** After an exception only the warnings reported before it are output. */
  lemma FaultNoFile(className: string, events: seq<Event>)
    requires PartialFor(className, events).fault.Some?
    ensures forall o :: o in Generate(className, events).outputs ==> o.Reported? && o.diagnostic.id == "OBSBUILTIN002"
  {
    WarningsOnly(className, events);
  }

  lemma {:induction false} WarningsOnly(className: string, events: seq<Event>)
    ensures forall o :: o in PartialFor(className, events).warnings ==> o.Reported? && o.diagnostic.id == "OBSBUILTIN002"
  {
    if events != [] {
      WarningsOnly(className, events[..|events| - 1]);
    }
  }

  /** Interfaces without a leading `I` or without own events add nothing. */
  lemma SkippedInterfaces(iface: Interface)
    ensures (|iface.name| == 0 || iface.name[0] != 'I') ==> ForInterface(iface) == Run([], None)
    ensures (forall e :: e in iface.events ==> !e.declaredOnIface) ==> ForInterface(iface) == Run([], None)
  {
    if forall e :: e in iface.events ==> !e.declaredOnIface {
      var own := OwnEvents(iface.events);
      if own != [] {
        assert own[0] in own;
      }
    }
  }

  /** Once an interface raised an exception the rest are not processed, and
      the run ends with an `OBSBUILTIN001` for it (`ExecuteShape` shows it is
      the only one). */
  lemma {:induction false} StopsAtException(ifaces: seq<Interface>, more: seq<Interface>)
    requires Process(ifaces).exception.Some?
    ensures Process(ifaces + more) == Process(ifaces)
    ensures var out := ExecuteOutputs(ifaces + more);
      out[|out| - 1] == Reported(GenerationFailed(Process(ifaces).exception.value))
  {
    if more != [] {
      StopsAtException(ifaces, more[..|more| - 1]);
      assert (ifaces + more)[..|ifaces + more| - 1] == ifaces + more[..|more| - 1];
    } else {
      assert ifaces + more == ifaces;
    }
  }

  /** No interface reports `OBSBUILTIN001` itself: only warnings and files. */
  lemma {:induction false} ProcessReportsNoFailure(ifaces: seq<Interface>)
    ensures forall o :: o in Process(ifaces).outputs ==> !(o.Reported? && o.diagnostic.id == "OBSBUILTIN001")
  {
    if ifaces != [] {
      var init := ifaces[..|ifaces| - 1];
      ProcessReportsNoFailure(init);
      var iface := ifaces[|ifaces| - 1];
      match ClassNameFor(iface.name)
      case None =>
      case Some(className) =>
        WarningsOnly(className, OwnEvents(iface.events));
    }
  }

  /** A run opens with the discovery count and reports `OBSBUILTIN001` once
      when an interface raised an exception, and never otherwise. */
  lemma ExecuteShape(ifaces: seq<Interface>)
    ensures ExecuteOutputs(ifaces)[0] == Reported(FoundInterfaces(|ifaces|))
    ensures CountReported(ExecuteOutputs(ifaces), "OBSBUILTIN001") == (if Process(ifaces).exception.Some? then 1 else 0)
  {
    var run := Process(ifaces);
    ProcessReportsNoFailure(ifaces);
    EpilogueCount(run);
    CountAfterPrefix([Reported(FoundInterfaces(|ifaces|))], run.outputs, Epilogue(run), "OBSBUILTIN001");
  }

  lemma EpilogueCount(run: Run)
    ensures CountReported(Epilogue(run), "OBSBUILTIN001") == (if run.exception.Some? then 1 else 0)
  {
    if run.exception.Some? {
      assert Epilogue(run)[..0] == [];
    }
  }

  /** Outputs without the diagnostic before the tail leave the tail's count. */
  lemma CountAfterPrefix(head: seq<Output>, body: seq<Output>, tail: seq<Output>, id: string)
    requires forall o :: o in head ==> !(o.Reported? && o.diagnostic.id == id)
    requires forall o :: o in body ==> !(o.Reported? && o.diagnostic.id == id)
    ensures CountReported(head + body + tail, id) == CountReported(tail, id)
  {
    CountReportedAbsent(head, id);
    CountReportedAbsent(body, id);
    CountReportedAppend(head, body, id);
    CountReportedAppend(head + body, tail, id);
  }

  // ---------------------------------------------------------------------
  // The generator

  lemma PartialStep(className: string, events: seq<Event>, i: nat)
    requires i < |events| && PartialFor(className, events[..i]).fault.None?
    ensures PartialFor(className, events[..i + 1]) == Advance(PartialFor(className, events[..i]), EventStep(className, events[i]))
  {
    assert events[..i + 1][..i] == events[..i];
  }

  /** An exception at event `i` ends the generation with the warnings so far. */
  lemma FaultAt(className: string, events: seq<Event>, i: nat, m: string)
    requires i < |events| && PartialFor(className, events[..i]).fault.None?
    requires EventStep(className, events[i]) == Fault(m)
    ensures Generate(className, events) == Run(PartialFor(className, events[..i]).warnings, Some(m))
  {
    PartialStep(className, events, i);
    FaultStops(className, events[..i + 1], events[i + 1..]);
    SplitAt(events, i + 1);
  }

  /** `GeneratePartialForType`; returns the message of the exception it ran into, if any. */
  method GeneratePartialForType(ctx: GeneratorContext, className: string, events: seq<Event>) returns (fault: Option<string>)
    modifies ctx
    ensures ctx.outputs == old(ctx.outputs) + Generate(className, events).outputs
    ensures fault == Generate(className, events).exception
  {
    var sb := new TextBuilder();
    sb.AppendLines(HeaderLines(className));
    EmptyAppend(Lines(HeaderLines(className)));
    ghost var header := sb.text;
    var i := 0;
    while i < |events|
      invariant 0 <= i <= |events|
      invariant PartialFor(className, events[..i]).fault.None?
      invariant sb.text == header + PartialFor(className, events[..i]).body
      invariant ctx.outputs == old(ctx.outputs) + PartialFor(className, events[..i]).warnings
    {
      var ev := events[i];
      var signal := ev.name;
      if |signal| == 0 {
        FaultAt(className, events, i, IndexOutOfRangeMessage);
        return Some(IndexOutOfRangeMessage);
      }
      var invoke := DelegateInvoke(ev.eventType);
      if invoke.None? {
        FaultAt(className, events, i, NullReferenceMessage);
        return Some(NullReferenceMessage);
      }
      var parameters := invoke.value;
      var emitCall := EmitCall(signal, |parameters|);
      if |parameters| > MaxSignalParameters {
        ctx.ReportDiagnostic(TooManyParameters(signal, className));
        PartialStep(className, events, i);
        AppendAssoc(old(ctx.outputs), PartialFor(className, events[..i]).warnings, [Reported(TooManyParameters(signal, className))]);
        i := i + 1;
        continue;
      }
      var observableType := EventWrapper.Payload(parameters);
      sb.AppendLines(MemberLines(signal, observableType, emitCall));
      PartialStep(className, events, i);
      AppendAssoc(header, PartialFor(className, events[..i]).body, Lines(MemberLines(signal, observableType, emitCall)));
      i := i + 1;
    }
    assert events[..|events|] == events;
    sb.AppendLine("}");
    ctx.AddSource(className + ".BuiltinObservables.g.cs", sb.text);
    return None;
  }

  lemma ProcessStep(ifaces: seq<Interface>, i: nat)
    requires i < |ifaces| && Process(ifaces[..i]).exception.None?
    ensures Process(ifaces[..i + 1])
         == Run(Process(ifaces[..i]).outputs + ForInterface(ifaces[i]).outputs, ForInterface(ifaces[i]).exception)
  {
    assert ifaces[..i + 1][..i] == ifaces[..i];
  }

  lemma StopsAtPrefix(ifaces: seq<Interface>, n: nat)
    requires n <= |ifaces| && Process(ifaces[..n]).exception.Some?
    ensures Process(ifaces) == Process(ifaces[..n])
  {
    StopsAtException(ifaces[..n], ifaces[n..]);
    SplitAt(ifaces, n);
  }

  /** An own event of `I<Type>` whose delegate has no invoke method, reached
      without an earlier exception, ends that interface with the null-reference
      exception: only the warnings so far are output, and no file. */
  lemma MissingInvokeFails(iface: Interface, className: string, i: nat)
    requires ClassNameFor(iface.name) == Some(className)
    requires i < |OwnEvents(iface.events)|
    requires PartialFor(className, OwnEvents(iface.events)[..i]).fault.None?
    requires |OwnEvents(iface.events)[i].name| > 0 && DelegateInvoke(OwnEvents(iface.events)[i].eventType).None?
    ensures ForInterface(iface) == Run(PartialFor(className, OwnEvents(iface.events)[..i]).warnings, Some(NullReferenceMessage))
    ensures forall o :: o in ForInterface(iface).outputs ==> o.Reported? && o.diagnostic.id == "OBSBUILTIN002"
  {
    var events := OwnEvents(iface.events);
    FaultAt(className, events, i, NullReferenceMessage);
    WarningsOnly(className, events[..i]);
  }

  /** Such an interface, reached without an earlier exception, ends the run:
      its warnings, then one `OBSBUILTIN001` with the null-reference message,
      and nothing of the interfaces after it. */
  lemma MissingInvokeEndsRun(ifaces: seq<Interface>, n: nat, className: string, i: nat)
    requires n < |ifaces| && Process(ifaces[..n]).exception.None?
    requires ClassNameFor(ifaces[n].name) == Some(className)
    requires i < |OwnEvents(ifaces[n].events)|
    requires PartialFor(className, OwnEvents(ifaces[n].events)[..i]).fault.None?
    requires |OwnEvents(ifaces[n].events)[i].name| > 0 && DelegateInvoke(OwnEvents(ifaces[n].events)[i].eventType).None?
    ensures ExecuteOutputs(ifaces)
         == [Reported(FoundInterfaces(|ifaces|))] + Process(ifaces[..n]).outputs
            + PartialFor(className, OwnEvents(ifaces[n].events)[..i]).warnings
            + [Reported(GenerationFailed(NullReferenceMessage))]
  {
    var warnings := PartialFor(className, OwnEvents(ifaces[n].events)[..i]).warnings;
    var before := Process(ifaces[..n]).outputs;
    MissingInvokeFails(ifaces[n], className, i);
    ProcessStep(ifaces, n);
    assert Process(ifaces[..n + 1]) == Run(before + warnings, Some(NullReferenceMessage));
    StopsAtPrefix(ifaces, n + 1);
    AppendAssoc([Reported(FoundInterfaces(|ifaces|))], before, warnings);
  }

  /** The loop body of `Execute` for one interface. */
  method ProcessInterface(ctx: GeneratorContext, iface: Interface) returns (fault: Option<string>)
    modifies ctx
    ensures ctx.outputs == old(ctx.outputs) + ForInterface(iface).outputs
    ensures fault == ForInterface(iface).exception
  {
    var godotType := ClassNameFor(iface.name);
    if godotType.None? {
      return None;
    }
    var events := OwnEvents(iface.events);
    if |events| == 0 {
      return None;
    }
    fault := GeneratePartialForType(ctx, godotType.value, events);
  }

  lemma ExecuteLoopStep(start: seq<Output>, ifaces: seq<Interface>, i: nat, outs: seq<Output>)
    requires i < |ifaces| && Process(ifaces[..i]).exception.None?
    requires outs == start + Process(ifaces[..i]).outputs + ForInterface(ifaces[i]).outputs
    ensures outs == start + Process(ifaces[..i + 1]).outputs
    ensures Process(ifaces[..i + 1]).exception == ForInterface(ifaces[i]).exception
  {
    ProcessStep(ifaces, i);
    AppendAssoc(start, Process(ifaces[..i]).outputs, ForInterface(ifaces[i]).outputs);
  }

  lemma ExecuteFault(before: seq<Output>, ifaces: seq<Interface>, n: nat, m: string, outs: seq<Output>)
    requires n <= |ifaces| && Process(ifaces[..n]).exception == Some(m)
    requires outs == before + [Reported(FoundInterfaces(|ifaces|))] + Process(ifaces[..n]).outputs + [Reported(GenerationFailed(m))]
    ensures outs == before + ExecuteOutputs(ifaces)
  {
    StopsAtPrefix(ifaces, n);
    var head := [Reported(FoundInterfaces(|ifaces|))];
    AppendAssoc(before, head, Process(ifaces).outputs);
    AppendAssoc(before, head + Process(ifaces).outputs, Epilogue(Process(ifaces)));
  }

  lemma ExecuteDone(before: seq<Output>, ifaces: seq<Interface>, outs: seq<Output>)
    requires Process(ifaces[..|ifaces|]).exception.None?
    requires outs == before + [Reported(FoundInterfaces(|ifaces|))] + Process(ifaces[..|ifaces|]).outputs
    ensures outs == before + ExecuteOutputs(ifaces)
  {
    assert ifaces[..|ifaces|] == ifaces;
    var head := [Reported(FoundInterfaces(|ifaces|))];
    AppendAssoc(before, head, Process(ifaces).outputs);
    assert Epilogue(Process(ifaces)) == [];
    assert head + Process(ifaces).outputs + [] == head + Process(ifaces).outputs;
  }

  /** `Execute`: the discovery count, then every interface until one raises an exception. */
  method Execute(ctx: GeneratorContext, interfaces: seq<Interface>)
    modifies ctx
    ensures ctx.outputs == old(ctx.outputs) + ExecuteOutputs(interfaces)
  {
    ctx.ReportDiagnostic(FoundInterfaces(|interfaces|));
    ghost var start := ctx.outputs;
    var i := 0;
    while i < |interfaces|
      invariant 0 <= i <= |interfaces|
      invariant Process(interfaces[..i]).exception.None?
      invariant ctx.outputs == start + Process(interfaces[..i]).outputs
    {
      var fault := ProcessInterface(ctx, interfaces[i]);
      ExecuteLoopStep(start, interfaces, i, ctx.outputs);
      if fault.Some? {
        ctx.ReportDiagnostic(GenerationFailed(fault.value));
        ExecuteFault(old(ctx.outputs), interfaces, i + 1, fault.value, ctx.outputs);
        return;
      }
      i := i + 1;
    }
    ExecuteDone(old(ctx.outputs), interfaces, ctx.outputs);
  }
}
