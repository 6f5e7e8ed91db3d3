/** The arity-branching wrapper synthesiser shared, character for character, by
    the R3 generator and the legacy generator: one event becomes one
    `On<Event>AsObservable` extension method built on `Observable.FromEvent`. */
module EventWrapper {
  import opened Text
  import opened Symbols
  import opened Host

  /** The element type of the stream an event becomes: `Unit` without
      parameters, the parameter's type with one, the tuple of all parameter
      types in declaration order with more. */
  function Payload(ps: seq<Param>): string
  {
    if |ps| == 0 then "Unit"
    else if |ps| == 1 then ps[0].paramType.display
    else "(" + Join(", ", ParamTypeDisplays(ps)) + ")"
  }

  /** The adapter lambda for a multi-parameter delegate: it takes the
      parameters by name and hands them to the stream's callback `h` as one tuple. */
  function TupleAdapter(ps: seq<Param>): string
  {
    var args := Join(", ", ParamNames(ps));
    "(" + args + ") => h((" + args + "))"
  }

  /** An `Observable.FromEvent` call: its generic arguments (handler type,
      element type), the body of the conversion lambda that builds a native
      handler from the callback `h`, and the event the add/remove lambdas use. */
  datatype FromEventCall = FromEventCall(typeArgs: Option<(string, string)>, conversion: Option<string>, eventName: string)

  datatype Wrapper = Wrapper(returnType: string, call: FromEventCall)

  /** The three arity branches; `None` when the event's type is not a
      delegate or has no invoke method. */
  function BuildEventWrapper(ev: Event): (w: Option<Wrapper>)
    ensures w.Some? <==> DelegateInvoke(ev.eventType).Some?
    ensures w.Some? ==> w.value.call.eventName == ev.name
  {
    match DelegateInvoke(ev.eventType)
    case None => None
    case Some(ps) =>
      var handler := ev.eventType;
      if |ps| == 1 then
        var t := ps[0].paramType.display;
        Some(Wrapper("Observable<" + t + ">",
                     FromEventCall(Some((handler.display, t)), Some("new " + handler.name + "(h)"), ev.name)))
      else if |ps| > 1 then
        var tuple := Join(", ", ParamTypeDisplays(ps));
        var args := Join(", ", ParamNames(ps));
        Some(Wrapper("Observable<(" + tuple + ")>",
                     FromEventCall(Some((handler.display, "(" + tuple + ")")),
                                   Some("new " + handler.name + "((" + args + ") => h((" + args + ")))"),
                                   ev.name)))
      else
        Some(Wrapper("Observable<Unit>", FromEventCall(None, None, ev.name)))
  }

  /** Source text of a `FromEventCall`. */
  function RenderCall(c: FromEventCall): string
  {
    "Observable.FromEvent"
    + (match c.typeArgs case None => "" case Some(args) => "<" + args.0 + ", " + args.1 + ">")
    + "(\n"
    + (match c.conversion case None => "" case Some(conv) => "        h => " + conv + ",\n")
    + "        h => self." + c.eventName + " += h,\n"
    + "        h => self." + c.eventName + " -= h,\n"
    + "        cancellationToken\n    )"
  }

  function MemberHeader(returnType: string, eventName: string, ifaceName: string): string
  {
    "    public static " + returnType + " On" + eventName + "AsObservable(this " + ifaceName
    + " self, CancellationToken cancellationToken = default) =>"
  }

  /** What `BuildEventWrapper` appends for one event: nothing for a skipped
      event, otherwise the member header line and the body line. */
  function MemberText(ev: Event, ifaceName: string): string
  {
    match BuildEventWrapper(ev)
    case None => ""
    case Some(w) => Line(MemberHeader(w.returnType, ev.name, ifaceName)) + Line("        " + RenderCall(w.call) + ";\n")
  }

  /** What `BuildEventWrappers` appends: the members of the events, in order. */
  function WrappersText(events: seq<Event>, ifaceName: string): string
  {
    Concat(MapSeq(e => MemberText(e, ifaceName), events))
  }

  /** Every arity branch returns `Observable<P>` for the payload type `P`, and
      the `FromEvent` element type argument is that same `P`:
      - no parameter: `Observable<Unit>` and a plain `FromEvent(` with the
        add and remove lambdas only, no type arguments and no conversion;
      - one parameter: type arguments (handler display string, parameter type)
        and the conversion `new <handler name>(h)`;
      - more: the conversion wraps the tuple adapter in `new <handler name>(...)`. */
  lemma ArityBranches(ev: Event, ps: seq<Param>)
    requires DelegateInvoke(ev.eventType) == Some(ps)
    ensures BuildEventWrapper(ev).Some?
    ensures var w := BuildEventWrapper(ev).value;
      && w.returnType == "Observable<" + Payload(ps) + ">"
      && (|ps| == 0 <==> w.call.typeArgs == None)
      && (|ps| == 0 <==> w.call.conversion == None)
      && (|ps| > 0 ==> w.call.typeArgs == Some((ev.eventType.display, Payload(ps))))
      && (|ps| == 1 ==> w.call.conversion == Some("new " + ev.eventType.name + "(h)"))
      && (|ps| > 1 ==> w.call.conversion == Some("new " + ev.eventType.name + "(" + TupleAdapter(ps) + ")"))
  {
    if |ps| > 1 {
      var args := Join(", ", ParamNames(ps));
      assert "new " + ev.eventType.name + "((" + args + ") => h((" + args + ")))"
          == "new " + ev.eventType.name + "(" + ("(" + args + ") => h((" + args + "))") + ")";
    }
  }

  /** Every kept event becomes a header line declaring the extension method
      `On<Event>AsObservable` on the interface, returning `Observable<P>`,
      followed by an indented body line that ends in `;` and a blank line. */
  lemma MemberShape(ev: Event, ps: seq<Param>, ifaceName: string)
    requires DelegateInvoke(ev.eventType) == Some(ps)
    ensures var head := "    public static Observable<" + Payload(ps) + "> On" + ev.name + "AsObservable(this "
                        + ifaceName + " self, CancellationToken cancellationToken = default) =>\n";
      var t := MemberText(ev, ifaceName);
      && |t| >= |head| + 11
      && t[..|head|] == head
      && t[|head|..|head| + 8] == "        "
      && t[|t| - 3..] == ";\n\n"
  {
    ArityBranches(ev, ps);
    var w := BuildEventWrapper(ev).value;
    var head := "    public static Observable<" + Payload(ps) + "> On" + ev.name + "AsObservable(this "
                + ifaceName + " self, CancellationToken cancellationToken = default) =>\n";
    HeaderText(Payload(ps), ev.name, ifaceName);
    var body := Line("        " + RenderCall(w.call) + ";\n");
    BodyText(RenderCall(w.call));
    PieceSlices(head, body);
  }

  lemma HeaderText(payload: string, eventName: string, ifaceName: string)
    ensures Line(MemberHeader("Observable<" + payload + ">", eventName, ifaceName))
         == "    public static Observable<" + payload + "> On" + eventName + "AsObservable(this "
            + ifaceName + " self, CancellationToken cancellationToken = default) =>\n"
  {
  }

  lemma BodyText(call: string)
    ensures var b := Line("        " + call + ";\n");
      |b| >= 11 && b[..8] == "        " && b[|b| - 3..] == ";\n\n"
  {
  }

  lemma PieceSlices(head: string, body: string)
    requires |body| >= 11
    ensures |head + body| >= |head| + 11
    ensures (head + body)[..|head|] == head
    ensures (head + body)[|head|..|head| + 8] == body[..8]
    ensures (head + body)[|head + body| - 3..] == body[|body| - 3..]
  {
  }

  /** With more than one parameter, for any parameter types: the stream
      carries the tuple of the parameter types joined by ", ", and the handler
      is built from an adapter that takes the parameters by name and passes
      them on as one tuple. */
  lemma TupleBranch(ev: Event, ps: seq<Param>)
    requires DelegateInvoke(ev.eventType) == Some(ps) && |ps| > 1
    ensures var tuple := "(" + Join(", ", ParamTypeDisplays(ps)) + ")";
      var names := Join(", ", ParamNames(ps));
      var w := BuildEventWrapper(ev).value;
      && w.returnType == "Observable<" + tuple + ">"
      && w.call.typeArgs == Some((ev.eventType.display, tuple))
      && w.call.conversion == Some("new " + ev.eventType.name + "((" + names + ") => h((" + names + ")))")
  {
  }

  /** The tuple type's list (see `TupleBranch`) holds the parameter types in
      declaration order, and the adapter's list the parameter names, unchanged
      and in order: both split back apart at ", ". Names are identifiers and
      never hold a comma; a type display such as `Dictionary<string, int>`
      does, and then the split is ambiguous, so types are required comma-free. */
  lemma {:induction false} TupleInDeclarationOrder(ps: seq<Param>)
    requires |ps| > 1
    requires forall k :: 0 <= k < |ps| ==> ',' !in ps[k].name && ',' !in ps[k].paramType.display
    ensures Split(Join(", ", ParamTypeDisplays(ps)), ", ") == ParamTypeDisplays(ps)
    ensures Split(Join(", ", ParamNames(ps)), ", ") == ParamNames(ps)
  {
    SplitJoin(ParamTypeDisplays(ps), ", ");
    SplitJoin(ParamNames(ps), ", ");
  }

  /** A skipped event (not a delegate, or no invoke method) contributes no
      text; any other event contributes a non-empty member. */
  lemma SkippedEventIsSilent(ev: Event, ifaceName: string)
    ensures MemberText(ev, ifaceName) == "" <==> DelegateInvoke(ev.eventType) == None
  {
  }

  /** The members are concatenated in event order. */
  lemma WrappersTextAppend(a: seq<Event>, b: seq<Event>, ifaceName: string)
    ensures WrappersText(a + b, ifaceName) == WrappersText(a, ifaceName) + WrappersText(b, ifaceName)
  {
    var f := e => MemberText(e, ifaceName);
    MapSeqAppend(f, a, b);
    ConcatAppend(MapSeq(f, a), MapSeq(f, b));
  }

  lemma WrappersTextStep(events: seq<Event>, i: nat, ifaceName: string)
    requires i < |events|
    ensures WrappersText(events[..i + 1], ifaceName) == WrappersText(events[..i], ifaceName) + MemberText(events[i], ifaceName)
  {
    var f := e => MemberText(e, ifaceName);
    assert events[..i + 1] == events[..i] + [events[i]];
    MapSeqAppend(f, events[..i], [events[i]]);
    ConcatAppend(MapSeq(f, events[..i]), MapSeq(f, [events[i]]));
    ConcatSingle(f(events[i]));
  }

  /** When every event is skipped, the members come to nothing. */
  lemma {:induction false} AllSkippedIsEmpty(events: seq<Event>, ifaceName: string)
    requires forall k :: 0 <= k < |events| ==> DelegateInvoke(events[k].eventType) == None
    ensures WrappersText(events, ifaceName) == ""
  {
    if events != [] {
      var n := |events| - 1;
      AllSkippedIsEmpty(events[..n], ifaceName);
      WrappersTextStep(events, n, ifaceName);
      assert events[..n + 1] == events;
    }
  }

  /** Appends the member for one event to `sb`. */
  method AppendEventWrapper(ev: Event, sb: TextBuilder, ifaceName: string)
    modifies sb
    ensures sb.text == old(sb.text) + MemberText(ev, ifaceName)
  {
    var w := BuildEventWrapper(ev);
    if w.None? {
      return;
    }
    var header := MemberHeader(w.value.returnType, ev.name, ifaceName);
    var body := "        " + RenderCall(w.value.call) + ";\n";
    sb.AppendLine(header);
    sb.AppendLine(body);
    AppendAssoc(old(sb.text), Line(header), Line(body));
  }

  /** Appends the members for all events to `sb`, in order. */
  method AppendEventWrappers(events: seq<Event>, sb: TextBuilder, ifaceName: string)
    modifies sb
    ensures sb.text == old(sb.text) + WrappersText(events, ifaceName)
  {
    for i := 0 to |events|
      invariant sb.text == old(sb.text) + WrappersText(events[..i], ifaceName)
    {
      AppendEventWrapper(events[i], sb, ifaceName);
      WrappersTextStep(events, i, ifaceName);
      AppendAssoc(old(sb.text), WrappersText(events[..i], ifaceName), MemberText(events[i], ifaceName));
    }
    assert events[..|events|] == events;
  }
}
