# Observable generators for Godot node interfaces — a Dafny model

The repository holds C# source generators that run inside the compiler. They
read the interfaces of the Chickensoft `GodotNodeInterfaces` package and write
C# text that turns each interface event into an R3 (or, in the oldest variant,
a System.Reactive) observable. Underneath the compiler plumbing, each
generator is a deterministic text synthesiser. It takes a list of interfaces
and their events, and produces files and diagnostics in order. This project
models that synthesiser over plain symbol values and proves what the text and
the output sequence look like.

Modules, one per source component:

- `Text`, `Ordinal`, `Symbols`, `Host`: shared definitions.
  - `Text` holds `string.Join` and its inverse, `TrimStart`, ASCII lower-casing,
    decimal rendering, LINQ `Distinct`, and `AppendLine` with a `"\n"` line end.
  - `Ordinal` holds ordinal string order and the sort of a set.
  - `Symbols` holds types, parameters, events and interfaces, as the symbol
    API reports them.
  - `Host` holds the generator context and the `StringBuilder`. The context
    records every `AddSource` and `ReportDiagnostic` as an output event.
- `EventWrapper`: the arity-branching `BuildEventWrapper`/`BuildEventWrappers`
  synthesiser. The R3 generator and the legacy generator share it character
  for character, so it is written once.
- `R3Generator`: the R3 extension generator. It adds a debug marker, an
  `OBS001` count, and one file per interface that has events of its own. The
  usings are the interface namespace and four fixed ones, de-duplicated.
- `LegacyGenerator`: the System.Reactive variant, with fixed usings and no
  diagnostics.
- `ObservablesGenerator`: the `Observables` extension generator.
  - It collects the namespaces an interface needs in a hash set and sorts them.
  - It delegates the members to a wrapper generator.
  - A file is added only when the parser reports no error; otherwise it
    reports `OBS998`.
  - An exception stops the run with `OBS999`.
- `BuiltInGenerator`: the built-in binder generator.
  - Per interface `I<Type>` it adds a `partial class <Type>`.
  - Every signal gets a connected flag, an `On<Signal>` property and a
    `Connect<Signal>` method subscribing `EmitSignal`.
  - Signals with more than five parameters are skipped with `OBSBUILTIN002`.
  - An exception stops the run with `OBSBUILTIN001`.
- `BuiltInRuntime`: the state machine that the emitted members implement at
  run time. The first read of the property creates one subject, and every
  later read returns that subject.
- `NamespaceTree`: `GetNamespaceTypesRecursive`, a depth-first flatten in
  which only namespaces are entered.
- `NamespaceLookup`: `Namespace.GetNamespace`, the nearest enclosing block
  namespace, or `Global`.

Imperative source code stays imperative here.
- The `StringBuilder` becomes `Host.TextBuilder`, whose `text` the methods
  append to.
- The context becomes `Host.GeneratorContext`.
- The namespace `HashSet` becomes `ObservablesGenerator.NamespaceSet`.

Each method is proved against a function of its inputs. Examples are
`R3Generator.ExecuteOutputs` and `BuiltInGenerator.Generate`. Lemmas then
state what the source promises about those functions.

The functions that model source functions directly have no contract of
their own; the lemmas in the table below state their properties.
- `NamespaceTree.Types` models `GetNamespaceTypesRecursive`.
- `NamespaceLookup.GetNamespace` models `Namespace.GetNamespace`.
- `ObservablesGenerator.BuildUsings` models `BuildUsings`.
- `BuiltInGenerator.EmitCall` models the `emitCall` expression of
  `GeneratePartialForType`.
- `EventWrapper.RenderCall` and `EventWrapper.MemberText` model the text
  `BuildEventWrapper` appends.

The emitted accessor reads and assigns a field `_on<Signal>` that the emitted
text never declares. `BuiltInGenerator.FieldNeverDeclared` records this. The
runtime model in `BuiltInRuntime` assumes that the field exists.

## Model

| member | source | states |
|---|---|---|
| Symbols.OwnEvents | src/LokiCat.Chickensoft.GodotNodeInterfaces.R3.ObservableGenerator/ObservableExtensionGenerator.cs:69-71 | An event is kept exactly when it is declared on the interface itself; nothing else is kept. |
| Symbols.OwnEventsAppend | src/LokiCat.Chickensoft.GodotNodeInterfaces.R3.ObservableGenerator/ObservableExtensionGenerator.cs:69-71 | The filter keeps member order: it distributes over concatenation. |
| EventWrapper.BuildEventWrapper | src/LokiCat.Chickensoft.GodotNodeInterfaces.R3.ObservableGenerator/ObservableExtensionGenerator.cs:114-160 | A wrapper exists exactly when the event's type is a named delegate with an invoke method, and it subscribes to that event by name. |
| EventWrapper.ArityBranches | src/LokiCat.Chickensoft.GodotNodeInterfaces.R3.ObservableGenerator/ObservableExtensionGenerator.cs:132-160 | Zero parameters give `Observable<Unit>` and `FromEvent` with no type arguments and no conversion. One parameter gives type arguments (handler display, parameter type) and `new <handler name>(h)`. More give the tuple in both the return type and the type argument, and the tuple adapter inside `new <handler name>(...)`. The legacy generator has the same branches at src/ObservableGenerator/ObservableExtensionGenerator.cs:105-133. |
| EventWrapper.TupleBranch | src/LokiCat.Chickensoft.GodotNodeInterfaces.R3.ObservableGenerator/ObservableExtensionGenerator.cs:142-151 | For any parameter types, more than one parameter gives the stream type `Observable<(T1, ..., Tk)>`, with the types joined by ", ". The type arguments are (handler display, that tuple), and the conversion is `new <handler name>((n1, ..., nk) => h((n1, ..., nk)))`. |
| EventWrapper.TupleInDeclarationOrder | src/LokiCat.Chickensoft.GodotNodeInterfaces.R3.ObservableGenerator/ObservableExtensionGenerator.cs:142-151 | For parameter names and type displays without a comma, the tuple's type list splits back at ", " into the parameter types in declaration order. The adapter's name list splits back into the parameter names, unchanged. |
| EventWrapper.SkippedEventIsSilent | src/LokiCat.Chickensoft.GodotNodeInterfaces.R3.ObservableGenerator/ObservableExtensionGenerator.cs:116-125 | An event contributes no text exactly when its type is not a delegate or has no invoke method. The legacy generator skips the same way (src/ObservableGenerator/ObservableExtensionGenerator.cs:89-98). |
| EventWrapper.MemberShape | src/LokiCat.Chickensoft.GodotNodeInterfaces.R3.ObservableGenerator/ObservableExtensionGenerator.cs:162-164 | A kept event's text starts with the line `public static Observable<P> On<Event>AsObservable(this <iface> self, CancellationToken cancellationToken = default) =>`. P is the payload type. The line is followed by an eight-space indented body ending in `;` and a blank line. |
| EventWrapper.WrappersTextAppend | src/LokiCat.Chickensoft.GodotNodeInterfaces.R3.ObservableGenerator/ObservableExtensionGenerator.cs:106-112 | The members of a concatenation of events are the members of each part, in order. |
| EventWrapper.AllSkippedIsEmpty | src/ObservableGenerator/ObservableExtensionGenerator.cs:79-85 | When every event is skipped, the members come to the empty text. |
| EventWrapper.AppendEventWrapper | src/LokiCat.Chickensoft.GodotNodeInterfaces.R3.ObservableGenerator/ObservableExtensionGenerator.cs:114-165 | Appends exactly the member text of the event to the builder. |
| EventWrapper.AppendEventWrappers | src/LokiCat.Chickensoft.GodotNodeInterfaces.R3.ObservableGenerator/ObservableExtensionGenerator.cs:106-112 | Appends the members of all events, in order. |
| R3Generator.UsingsFirstOccurrence | src/LokiCat.Chickensoft.GodotNodeInterfaces.R3.ObservableGenerator/ObservableExtensionGenerator.cs:82-90 | The usings are the interface namespace followed by `R3`, `System`, `System.Threading` and `Chickensoft.GodotNodeInterfaces`, minus the later duplicate of the interface namespace. They are not sorted and contain no repetition. |
| R3Generator.FileIffOwnEvent | src/LokiCat.Chickensoft.GodotNodeInterfaces.R3.ObservableGenerator/ObservableExtensionGenerator.cs:73-103 | At most one output per interface. It exists exactly when some event is declared on the interface. It is the file `<short>Extensions.g.cs`, and the short name has no leading `I`. |
| R3Generator.HintNameCollision | src/LokiCat.Chickensoft.GodotNodeInterfaces.R3.ObservableGenerator/ObservableExtensionGenerator.cs:79-103 | `I<Name>` and `II<Name>` with own events are each given a file with the same hint name, `<Name>Extensions.g.cs`, because `TrimStart` drops every leading `I`. |
| R3Generator.InheritedEventsIgnored | src/LokiCat.Chickensoft.GodotNodeInterfaces.R3.ObservableGenerator/ObservableExtensionGenerator.cs:69-71 | Appending inherited events changes nothing in the output. |
| R3Generator.AllExtendOutputsAreFiles | src/LokiCat.Chickensoft.GodotNodeInterfaces.R3.ObservableGenerator/ObservableExtensionGenerator.cs:31-39 | The interfaces contribute at most one file each and no diagnostic. |
| R3Generator.ExecuteShape | src/LokiCat.Chickensoft.GodotNodeInterfaces.R3.ObservableGenerator/ObservableExtensionGenerator.cs:31-39 | A run starts with the `DebugInfo.g.cs` marker and the `OBS001` count of interfaces; all later outputs are files. |
| R3Generator.AppendUsings | src/LokiCat.Chickensoft.GodotNodeInterfaces.R3.ObservableGenerator/ObservableExtensionGenerator.cs:92-95 | Appends one `using X;` line per namespace, in order. |
| R3Generator.ExtendInterface | src/LokiCat.Chickensoft.GodotNodeInterfaces.R3.ObservableGenerator/ObservableExtensionGenerator.cs:67-104 | Adds nothing without own events. Otherwise it adds `<short>Extensions.g.cs` with the usings, `public static class <short>ObservableExtensions`, `{`, the members and `}`. |
| R3Generator.Execute | src/LokiCat.Chickensoft.GodotNodeInterfaces.R3.ObservableGenerator/ObservableExtensionGenerator.cs:31-39 | The marker, the count, then each interface's output in order. |
| LegacyGenerator.UsingsIgnoreNamespace | src/ObservableGenerator/ObservableExtensionGenerator.cs:65-68 | The using lines are fixed (`System`, `System.Reactive`, `System.Reactive.Linq`, `System.Threading`); the interface namespace does not enter the text. |
| LegacyGenerator.FileEvenIfAllSkipped | src/ObservableGenerator/ObservableExtensionGenerator.cs:53-76 | With at least one own event, the file is added even when every own event is skipped. It then holds the header and the closing brace only. |
| LegacyGenerator.NoDiagnostics | src/ObservableGenerator/ObservableExtensionGenerator.cs:32-38 | A run reports no diagnostic and adds at most one file per interface. |
| LegacyGenerator.ExtendInterface | src/ObservableGenerator/ObservableExtensionGenerator.cs:51-77 | Adds nothing without own events. Otherwise it adds `<short>Extensions.g.cs`: the four usings, `public static class <short>Extensions`, `{`, the members and `}`. |
| LegacyGenerator.Execute | src/ObservableGenerator/ObservableExtensionGenerator.cs:32-38 | Every interface's output, in order. |
| ObservablesGenerator.TypeArgMembership | src/LokiCat.GodotNodeInterfaces.Observables.ObservableGenerator/Features/Generators/ObservableExtensionGenerator.cs:174-177 | A namespace comes from the type arguments exactly when some named type argument lives in it. |
| ObservablesGenerator.ParamMembership | src/LokiCat.GodotNodeInterfaces.Observables.ObservableGenerator/Features/Generators/ObservableExtensionGenerator.cs:163-179 | A namespace comes from the parameters exactly when some parameter contributes it. |
| ObservablesGenerator.EventMembership | src/LokiCat.GodotNodeInterfaces.Observables.ObservableGenerator/Features/Generators/ObservableExtensionGenerator.cs:134-150 | A namespace comes from the events exactly when some event contributes it. |
| ObservablesGenerator.EventContribIff | src/LokiCat.GodotNodeInterfaces.Observables.ObservableGenerator/Features/Generators/ObservableExtensionGenerator.cs:136-149 | An event contributes nothing unless its type is named. Then it contributes its type's namespace, and its parameters' namespaces only when an invoke method exists. |
| ObservablesGenerator.RequiredMembership | src/LokiCat.GodotNodeInterfaces.Observables.ObservableGenerator/Features/Generators/ObservableExtensionGenerator.cs:122-154 | The required set is exactly the baseline (`System`, `System.Threading`, `R3`, `Godot`), the interface's namespace unless global, and what the events bring in. |
| ObservablesGenerator.GlobalNeverAdded | src/LokiCat.GodotNodeInterfaces.Observables.ObservableGenerator/Features/Generators/ObservableExtensionGenerator.cs:156-162 | Types in the global namespace or in none add nothing. A global interface with such events needs exactly the baseline. |
| ObservablesGenerator.OneLevelOfTypeArguments | src/LokiCat.GodotNodeInterfaces.Observables.ObservableGenerator/Features/Generators/ObservableExtensionGenerator.cs:169-177 | Only one level of type arguments is scanned: replacing the type arguments' own arguments changes nothing. |
| ObservablesGenerator.SortedNamespaces | src/LokiCat.GodotNodeInterfaces.Observables.ObservableGenerator/Features/Generators/ObservableExtensionGenerator.cs:152 | The order the usings are emitted in: strictly increasing, holding exactly the set. |
| ObservablesGenerator.NamespaceSet.AddNamespace | src/LokiCat.GodotNodeInterfaces.Observables.ObservableGenerator/Features/Generators/ObservableExtensionGenerator.cs:156-162 | Adds the namespace's display string unless it is missing or global. |
| ObservablesGenerator.NamespaceSet.ScanParameters | src/LokiCat.GodotNodeInterfaces.Observables.ObservableGenerator/Features/Generators/ObservableExtensionGenerator.cs:163-179 | Adds exactly what the parameters contribute. |
| ObservablesGenerator.GetRequiredNamespaces | src/LokiCat.GodotNodeInterfaces.Observables.ObservableGenerator/Features/Generators/ObservableExtensionGenerator.cs:122-154 | Returns the required namespaces strictly sorted: no repetition, nothing missing, nothing extra. |
| Ordinal.SortOrdinal | src/LokiCat.GodotNodeInterfaces.Observables.ObservableGenerator/Features/Generators/ObservableExtensionGenerator.cs:152 | Sorting a set yields a strictly increasing sequence of exactly its elements. |
| Ordinal.SortedUnique | src/LokiCat.GodotNodeInterfaces.Observables.ObservableGenerator/Features/Generators/ObservableExtensionGenerator.cs:152 | There is only one strictly sorted sequence of a given set, so the usings text is determined by the set. |
| ObservablesGenerator.UsingsLineByLine | src/LokiCat.GodotNodeInterfaces.Observables.ObservableGenerator/Features/Generators/ObservableExtensionGenerator.cs:99-102 | The usings text splits at `"\n"` into one `using X;` per namespace, in order. |
| ObservablesGenerator.BuildExtensionClass | src/LokiCat.GodotNodeInterfaces.Observables.ObservableGenerator/Features/Generators/ObservableExtensionGenerator.cs:104-118 | The class line, `{`, one line per wrapper in order, and `}`. |
| ObservablesGenerator.GateIff | src/LokiCat.GodotNodeInterfaces.Observables.ObservableGenerator/Features/Generators/ObservableExtensionGenerator.cs:86-97 | Exactly one output: the file if and only if no parse diagnostic is an error. Otherwise it is `OBS998`, carrying the first diagnostic of any severity. |
| ObservablesGenerator.AddSource | src/LokiCat.GodotNodeInterfaces.Observables.ObservableGenerator/Features/Generators/ObservableExtensionGenerator.cs:83-98 | Appends what the gate decides. |
| ObservablesGenerator.NoFileWithoutWrappers | src/LokiCat.GodotNodeInterfaces.Observables.ObservableGenerator/Features/Generators/ObservableExtensionGenerator.cs:63-73 | No own events, or an empty wrapper array, means no output. |
| ObservablesGenerator.ExtendKinds | src/LokiCat.GodotNodeInterfaces.Observables.ObservableGenerator/Features/Generators/ObservableExtensionGenerator.cs:56-80 | At most one output per interface. It is either `<short>Extensions.g.cs` whose text parses without error, or an `OBS998`. A throwing wrapper generator adds nothing. |
| ObservablesGenerator.ExtendInterface | src/LokiCat.GodotNodeInterfaces.Observables.ObservableGenerator/Features/Generators/ObservableExtensionGenerator.cs:56-80 | Appends exactly the interface's outputs: the usings line and the class, gated by the parser. It returns the wrapper generator's exception, if any. |
| ObservablesGenerator.ProcessOutputs | src/LokiCat.GodotNodeInterfaces.Observables.ObservableGenerator/Features/Generators/ObservableExtensionGenerator.cs:37-41 | The interfaces themselves never report `OBS999`. |
| ObservablesGenerator.StopsAtException | src/LokiCat.GodotNodeInterfaces.Observables.ObservableGenerator/Features/Generators/ObservableExtensionGenerator.cs:37-53 | Once an interface throws, the interfaces after it are not processed. |
| ObservablesGenerator.ExecuteShape | src/LokiCat.GodotNodeInterfaces.Observables.ObservableGenerator/Features/Generators/ObservableExtensionGenerator.cs:24-54 | The canary file, `OBS000` and the `OBS001` count come first. There is exactly one `OBS999`, as the last output, when some interface threw, and none otherwise. |
| ObservablesGenerator.Execute | src/LokiCat.GodotNodeInterfaces.Observables.ObservableGenerator/Features/Generators/ObservableExtensionGenerator.cs:24-54 | The canary, `OBS000`, the count, the interfaces in order up to the first exception, then `OBS999` for it. |
| BuiltInGenerator.ClassNameFor | src/LokiCat.GodotNodeInterfaces.Observables.ObservableGenerator/Features/Generators/GodotBuiltInObservableGenerator.cs:27-32 | A class name exists exactly when the interface name starts with `I`, and it is the name with exactly that one character dropped. |
| BuiltInGenerator.EmitArgs | src/LokiCat.GodotNodeInterfaces.Observables.ObservableGenerator/Features/Generators/GodotBuiltInObservableGenerator.cs:88 | `k` arguments, the `i`-th being `value.Item<i+1>`. |
| BuiltInGenerator.EmitArgsInOrder | src/LokiCat.GodotNodeInterfaces.Observables.ObservableGenerator/Features/Generators/GodotBuiltInObservableGenerator.cs:83-89 | For k > 1 the arguments read back as items 1..k in order, with no repetition; joined, they split back apart. |
| BuiltInGenerator.EmitCallLowerCase | src/LokiCat.GodotNodeInterfaces.Observables.ObservableGenerator/Features/Generators/GodotBuiltInObservableGenerator.cs:83-89 | The emit call names the signal fully lower-cased, right after `EmitSignal("`. |
| BuiltInGenerator.TwoParameterCall | src/LokiCat.GodotNodeInterfaces.Observables.ObservableGenerator/Features/Generators/GodotBuiltInObservableGenerator.cs:87-88 | A two-parameter signal passes `value.Item1, value.Item2`. |
| BuiltInGenerator.PressedExample | src/LokiCat.GodotNodeInterfaces.Observables.ObservableGenerator.Tests/GodotbuiltInObservableTest.cs:59-61 | `Pressed` with no parameter gives `EmitSignal("pressed")` and the element type `Unit`. |
| BuiltInGenerator.FiredExample | src/LokiCat.GodotNodeInterfaces.Observables.ObservableGenerator.Tests/GodotbuiltInObservableTest.cs:83 | `Fired` with two parameters gives `EmitSignal("fired", value.Item1, value.Item2)`. |
| BuiltInGenerator.TupleTypeExample | src/LokiCat.GodotNodeInterfaces.Observables.ObservableGenerator.Tests/GodotbuiltInObservableTest.cs:82 | Parameters `string` and `int` give the element type `(string, int)`. |
| BuiltInGenerator.FieldNeverDeclared | src/LokiCat.GodotNodeInterfaces.Observables.ObservableGenerator/Features/Generators/GodotBuiltInObservableGenerator.cs:110-123 | The twelve lines per signal: the flag `_<lower first><rest>Connected`, the property `On<Signal>`, and `Connect<Signal>`. `_on<Signal>` is read and assigned but appears in no declaration. |
| BuiltInGenerator.TooManyIsOneWarning | src/LokiCat.GodotNodeInterfaces.Observables.ObservableGenerator/Features/Generators/GodotBuiltInObservableGenerator.cs:91-102 | An over-cap signal adds exactly one `OBSBUILTIN002` naming the signal and the class, adds no text, and processing goes on. |
| BuiltInGenerator.WarningsCountOverCap | src/LokiCat.GodotNodeInterfaces.Observables.ObservableGenerator.Tests/GodotbuiltInObservableTest.cs:104-105 | Without an exception, the warnings are one `OBSBUILTIN002` per signal with more than five parameters, and nothing else. |
| BuiltInGenerator.StepOverCap | src/LokiCat.GodotNodeInterfaces.Observables.ObservableGenerator/Features/Generators/GodotBuiltInObservableGenerator.cs:91 | A signal that raises no exception is skipped exactly when it has more than five parameters. |
| BuiltInGenerator.FileUnlessFault | src/LokiCat.GodotNodeInterfaces.Observables.ObservableGenerator/Features/Generators/GodotBuiltInObservableGenerator.cs:126-129 | Without an exception the last output is `<class>.BuiltinObservables.g.cs`: the header, the members and `}`. It is added even when every signal was skipped, and then the member text is empty. |
| BuiltInGenerator.FaultStops | src/LokiCat.GodotNodeInterfaces.Observables.ObservableGenerator/Features/Generators/GodotBuiltInObservableGenerator.cs:78-81 | Once an event has raised an exception, later events change nothing. |
| BuiltInGenerator.FaultNoFile | src/LokiCat.GodotNodeInterfaces.Observables.ObservableGenerator/Features/Generators/GodotBuiltInObservableGenerator.cs:78-81 | After an exception no file is added; only the `OBSBUILTIN002` warnings reported before it remain, since the catch sits outside `GeneratePartialForType` (lines 21-54). |
| BuiltInGenerator.MissingInvokeFails | src/LokiCat.GodotNodeInterfaces.Observables.ObservableGenerator/Features/Generators/GodotBuiltInObservableGenerator.cs:78-81 | For an interface `I<Type>`, an own event with a non-empty name whose delegate has no invoke method, reached without an earlier exception, ends the interface with the null-reference exception. Only the `OBSBUILTIN002` warnings so far are output, and no file. |
| BuiltInGenerator.MissingInvokeEndsRun | src/LokiCat.GodotNodeInterfaces.Observables.ObservableGenerator/Features/Generators/GodotBuiltInObservableGenerator.cs:19-55 | Such an interface, reached without an earlier exception, ends the run. The outputs are the count, the earlier interfaces' outputs, its warnings and one `OBSBUILTIN001` with the null-reference message; nothing after it is processed. |
| BuiltInGenerator.SkippedInterfaces | src/LokiCat.GodotNodeInterfaces.Observables.ObservableGenerator/Features/Generators/GodotBuiltInObservableGenerator.cs:27-42 | An interface whose name does not start with `I`, or that has no own events, adds nothing. |
| BuiltInGenerator.StopsAtException | src/LokiCat.GodotNodeInterfaces.Observables.ObservableGenerator/Features/Generators/GodotBuiltInObservableGenerator.cs:21-54 | Once an interface raised an exception, the rest are not processed, and the run ends with one `OBSBUILTIN001` carrying its message. |
| BuiltInGenerator.ExecuteShape | src/LokiCat.GodotNodeInterfaces.Observables.ObservableGenerator/Features/Generators/GodotBuiltInObservableGenerator.cs:19-55 | A run opens with the `OBS001` count. It holds exactly one `OBSBUILTIN001` when an interface raised an exception, and none otherwise: no interface reports it itself. |
| BuiltInGenerator.GeneratePartialForType | src/LokiCat.GodotNodeInterfaces.Observables.ObservableGenerator/Features/Generators/GodotBuiltInObservableGenerator.cs:57-130 | Appends the warnings and then the file, or stops at the first exception; it returns that exception's message. |
| BuiltInGenerator.ProcessInterface | src/LokiCat.GodotNodeInterfaces.Observables.ObservableGenerator/Features/Generators/GodotBuiltInObservableGenerator.cs:25-44 | Appends exactly one interface's outputs. |
| BuiltInGenerator.Execute | src/LokiCat.GodotNodeInterfaces.Observables.ObservableGenerator/Features/Generators/GodotBuiltInObservableGenerator.cs:19-55 | The `OBS001` count, then the interfaces in order up to the first exception, then `OBSBUILTIN001` for it. |
| BuiltInRuntime.SignalBinding.Connect | src/LokiCat.GodotNodeInterfaces.Observables.ObservableGenerator/Features/Generators/GodotBuiltInObservableGenerator.cs:115-123 | The first call sets the flag and returns a fresh subject subscribed to the emit call. A later call returns the field unchanged. |
| BuiltInRuntime.SignalBinding.Access | src/LokiCat.GodotNodeInterfaces.Observables.ObservableGenerator/Features/Generators/GodotBuiltInObservableGenerator.cs:112-113 | The first access creates the one subject. Every later access returns the same subject, and exactly one subject is ever created. |
| BuiltInRuntime.RepeatedAccess | src/LokiCat.GodotNodeInterfaces.Observables.ObservableGenerator/Features/Generators/GodotBuiltInObservableGenerator.cs:110-123 | However often the property is read, every read returns the same subject, which carries the single subscription. |
| NamespaceTree.TypesAppend | src/LokiCat.Chickensoft.GodotNodeInterfaces.R3.ObservableGenerator/RoslynExtensions.cs:10-22 | The members of a concatenation yield the concatenation of what each part yields. |
| NamespaceTree.ChildSplicedInPlace | src/LokiCat.Chickensoft.GodotNodeInterfaces.R3.ObservableGenerator/RoslynExtensions.cs:14-17 | A child namespace's types appear exactly at that child's position (depth-first pre-order). |
| NamespaceTree.FlatInMemberOrder | src/LokiCat.Chickensoft.GodotNodeInterfaces.R3.ObservableGenerator/RoslynExtensions.cs:18-20 | Named types directly in a namespace are yielded one each, in member order. |
| NamespaceTree.LengthIsNamedCount | src/LokiCat.Chickensoft.GodotNodeInterfaces.R3.ObservableGenerator/RoslynExtensions.cs:8-23 | The number of types yielded equals the number of named types at the namespace levels of the subtree. |
| NamespaceTree.EmptyIffNoNamedTypes | src/LokiCat.Chickensoft.GodotNodeInterfaces.R3.ObservableGenerator/RoslynExtensions.cs:8-23 | Nothing is yielded exactly when no namespace of the tree holds a named type; an empty namespace yields nothing. |
| NamespaceTree.YieldedIffNamespaceMember | src/LokiCat.Chickensoft.GodotNodeInterfaces.R3.ObservableGenerator/RoslynExtensions.cs:12-21 | A type is yielded exactly when it is a named-type member of the namespace or is yielded by one of its child namespaces. |
| NamespaceTree.NestedTypeNotYielded | src/LokiCat.Chickensoft.GodotNodeInterfaces.R3.ObservableGenerator/RoslynExtensions.cs:18-20 | A type declared inside another type is not yielded: the outer type alone is. |
| NamespaceLookup.NearestBlock | src/LokiCat.GodotNodeInterfaces.Observables.ObservableGenerator/Features/SyntaxHelpers/Namespace.cs:10 | The result is the name of the first block namespace declaration among the ancestors. |
| NamespaceLookup.NoBlockIsGlobal | src/LokiCat.GodotNodeInterfaces.Observables.ObservableGenerator/Features/SyntaxHelpers/Namespace.cs:11 | Without a block namespace among the ancestors, the result is `Global`. |
| NamespaceLookup.GetNamespaceNearest | src/LokiCat.GodotNodeInterfaces.Observables.ObservableGenerator/Features/SyntaxHelpers/Namespace.cs:9-11 | Either the name of the nearest block namespace ancestor, or `Global` when there is none. |
| NamespaceLookup.SelfNotConsidered | src/LokiCat.GodotNodeInterfaces.Observables.ObservableGenerator/Features/SyntaxHelpers/Namespace.cs:10 | The node's own kind does not matter: a namespace declaration gets the name of the namespace around it. |
| NamespaceLookup.FileScopedIsGlobal | src/LokiCat.GodotNodeInterfaces.Observables.ObservableGenerator/Features/SyntaxHelpers/Namespace.cs:10-11 | A node in a file-scoped namespace with no block namespace around it gets `Global`. |
| Text.SplitJoin | src/LokiCat.Chickensoft.GodotNodeInterfaces.R3.ObservableGenerator/ObservableExtensionGenerator.cs:144-145 | `string.Join` is undone by splitting at the separator, when there is at least one piece and no piece contains the separator's first character (the split recognises the separator by that character). |
| Text.TrimLeading | src/LokiCat.Chickensoft.GodotNodeInterfaces.R3.ObservableGenerator/ObservableExtensionGenerator.cs:79 | `TrimStart('I')` removes exactly the leading run of `I`: the result is a suffix, does not start with `I`, and everything removed is `I`. |
| Text.ToLowerAscii | src/LokiCat.GodotNodeInterfaces.Observables.ObservableGenerator/Features/Generators/GodotBuiltInObservableGenerator.cs:85-88 | Lower-casing keeps the length and lowers every character. |
| Text.Distinct | src/LokiCat.Chickensoft.GodotNodeInterfaces.R3.ObservableGenerator/ObservableExtensionGenerator.cs:82-90 | LINQ `Distinct`: the result has no repetition, holds exactly the input's elements, and is no longer than the input. |
| Text.DistinctFront | src/LokiCat.Chickensoft.GodotNodeInterfaces.R3.ObservableGenerator/ObservableExtensionGenerator.cs:82-90 | `Distinct` keeps the first occurrence: on a front element followed by a list without repetition, it drops only the later copies of the front element. |

## Left out

- Interface discovery is not modelled. This covers `GetInterfaces` in both extension generators (the name and namespace filters) and `ContextExtensions.GetGodotNodeInterfaces`. These are lookups in the compiler's symbol graph; the interface list is an input of each `Execute`. `OBS001` is modelled with the count equal to the length of that list.
- The C# parser (`CSharpSyntaxTree.ParseText` and its diagnostics) is an input function in `ObservablesGenerator.Collaborators`.
- The `ShortName()` extension and the `Observables` wrapper generator are also input functions in `Collaborators`. Their code is not part of this model.
- `ToDisplayString`, `SymbolEqualityComparer` and `DelegateInvokeMethod` are taken as fields of the symbol datatypes. The global namespace displays as `<global namespace>`.
- `AppendLine` ends lines with `"\n"`, not the platform newline.
- ObservablesGenerator.SortedNamespaces: the usings are sorted in ordinal order, while `OrderBy` uses the current culture's comparer. The two can order differently for names whose order is case- or culture-dependent.
- Host.GeneratorContext.AddSource: hint names are assumed distinct. The compiler's `AddSource` throws when a generator reuses a hint name, and the model always appends. That loses three behaviours. The R3 generator fails as a whole; `R3Generator.HintNameCollision` shows two interfaces that reach this. The `Observables` generator reports `OBS999` and stops. The built-in generator reports `OBSBUILTIN001` and stops.
- BuiltInGenerator.ClassNameFor: the leading `I` is compared by character code, while `StartsWith("I")` compares with the current culture. The two can differ, for example for an `I` followed by a combining mark.
- EventWrapper.TupleInDeclarationOrder: the split-back round trip is stated only for comma-free type displays. A display such as `Dictionary<string, int>` holds ", ", so the tuple text is then ambiguous to split. The text itself is exact for every type (`EventWrapper.TupleBranch`).
- BuiltInGenerator.ConnectedFlag: the first character is lowered only when it is an ASCII letter (`Text.LowerChar`), while `char.ToLowerInvariant` also lowers non-ASCII letters.
- Text.ToLowerAscii: only ASCII letters are lowered; `ToLowerInvariant` also lowers non-ASCII letters.
- The built-in generator's exceptions are modelled by .NET's default message. These are indexing an empty signal name and `.Length` of the default parameter array when there is no invoke method. The message's stack trace is not modelled, and neither is `ex.ToString()` in `OBS999`; `OBS999` and `OBS998` carry a string.
- `SourceText.From` and `Encoding.UTF8` are not modelled: a file is its hint name and text.
- Diagnostic categories, `isEnabledByDefault` and `Location.None` are not modelled.
- The run-time behaviour of R3 `Observable.FromEvent`, `Subject` and `AddTo` is not modelled, beyond the accessor state machine in `BuiltInRuntime`.
- The generators' `Initialize` no-ops, and the `ToString` override, are not modelled.
- Concurrency is not modelled: the generators run once per compilation, on one thread.
