/** What a generator can do to the outside world: add a source file and report
    a diagnostic (`GeneratorExecutionContext.AddSource` / `ReportDiagnostic`),
    both recorded as output events; and the `StringBuilder` the generators
    assemble text with. */
module Host {
  import opened Text
  import opened Symbols

  datatype Severity = Hidden | Info | Warning | Error

  /** A reported diagnostic: descriptor id and title, severity, formatted message. */
  datatype Diagnostic = Diagnostic(id: string, title: string, severity: Severity, message: string)

  /** The outputs of (part of) a run, and the message of the exception that
      ended it, if any. */
  datatype Run = Run(outputs: seq<Output>, exception: Option<string>)

  datatype Output =
    | SourceAdded(hintName: string, text: string)
    | Reported(diagnostic: Diagnostic)

  /** The generator execution context, reduced to the outputs it has received. */
  class GeneratorContext {
    var outputs: seq<Output>

    constructor ()
      ensures outputs == []
    {
      outputs := [];
    }

    method AddSource(hintName: string, text: string)
      modifies this
      ensures outputs == old(outputs) + [SourceAdded(hintName, text)]
    {
      outputs := outputs + [SourceAdded(hintName, text)];
    }

    method ReportDiagnostic(d: Diagnostic)
      modifies this
      ensures outputs == old(outputs) + [Reported(d)]
    {
      outputs := outputs + [Reported(d)];
    }
  }

  /** A `StringBuilder` that is only ever appended to. */
  class TextBuilder {
    var text: string

    constructor ()
      ensures text == ""
    {
      text := "";
    }

    method AppendLine(line: string)
      modifies this
      ensures text == old(text) + Line(line)
    {
      text := text + Line(line);
    }

    /** Consecutive `AppendLine` calls, one per element. */
    method AppendLines(lines: seq<string>)
      modifies this
      ensures text == old(text) + Lines(lines)
    {
      for i := 0 to |lines|
        invariant text == old(text) + Lines(lines[..i])
      {
        AppendLine(lines[i]);
        LinesStep(lines, i);
        AppendAssoc(old(text), Lines(lines[..i]), Line(lines[i]));
      }
      assert lines[..|lines|] == lines;
    }
  }

  /** The info diagnostic the interface discovery reports before any interface is processed. */
  function FoundInterfaces(count: nat): Diagnostic
  {
    Diagnostic("OBS001", "Observe", Info, "Found " + NatToString(count) + " GodotNodeInterfaces interfaces")
  }

  function CountReported(outputs: seq<Output>, id: string): nat
  {
    if outputs == [] then 0
    else CountReported(outputs[..|outputs| - 1], id)
         + (if outputs[|outputs| - 1].Reported? && outputs[|outputs| - 1].diagnostic.id == id then 1 else 0)
  }

  lemma {:induction false} CountReportedAppend(a: seq<Output>, b: seq<Output>, id: string)
    ensures CountReported(a + b, id) == CountReported(a, id) + CountReported(b, id)
  {
    if b != [] {
      CountReportedAppend(a, b[..|b| - 1], id);
      assert (a + b)[..|a + b| - 1] == a + b[..|b| - 1];
    } else {
      assert a + b == a;
    }
  }

  /** No diagnostic with that id, nothing counted. */
  lemma {:induction false} CountReportedAbsent(outputs: seq<Output>, id: string)
    requires forall o :: o in outputs ==> !(o.Reported? && o.diagnostic.id == id)
    ensures CountReported(outputs, id) == 0
  {
    if outputs != [] {
      CountReportedAbsent(outputs[..|outputs| - 1], id);
      assert outputs[|outputs| - 1] in outputs;
    }
  }
}
