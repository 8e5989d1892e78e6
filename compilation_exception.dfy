/**
 * Compiler diagnostics and the exception that reports a failed compilation
 * (src/RoslynCodeCompiler/CompilationException.cs).
 */
module CompilationFailure {
  import opened Text

  /** `Microsoft.CodeAnalysis.DiagnosticSeverity`. */
  datatype Severity = Hidden | Info | Warning | Error

  /** The parts of a Roslyn `Diagnostic` the compiler front end reads. */
  datatype Diagnostic = Diagnostic(severity: Severity, isWarningAsError: bool, message: string)

  /** A `CompilationException`: its `Errors` property and its `Message`. */
  datatype CompilationException = CompilationException(errors: seq<Diagnostic>, message: string)

  const HeaderStart := "Compilation failed with "
  const HeaderEnd := " errors:\n"

  /** The first line of the message, with its line break. */
  function Header(count: nat): string
  {
    HeaderStart + Decimal(count) + HeaderEnd
  }

  /** `GetMessage()` of each diagnostic, in order. */
  function Messages(errors: seq<Diagnostic>): (r: seq<string>)
    ensures |r| == |errors|
    ensures forall i :: 0 <= i < |errors| ==> r[i] == errors[i].message
  {
    if errors == [] then [] else [errors[0].message] + Messages(errors[1..])
  }

  /** The constructor: `Errors` is the given sequence and the message is the header
      followed by the messages joined with line breaks. */
  function NewCompilationException(errors: seq<Diagnostic>): (e: CompilationException)
    ensures e.errors == errors
    ensures Header(|errors|) <= e.message
  {
    CompilationException(errors, Header(|errors|) + Join(Messages(errors), "\n"))
  }

  /** With no diagnostics the message is the header alone. */
  lemma NoErrorsMessage()
    ensures NewCompilationException([]).message == "Compilation failed with 0 errors:\n"
  {
    assert Decimal(0) == "0";
  }

  /** The number after `"Compilation failed with "` reads back as the number of
      diagnostics. */
  lemma CountInMessage(errors: seq<Diagnostic>)
    ensures var m := NewCompilationException(errors).message;
      HeaderStart <= m && DigitsValue(LeadingDigits(m[|HeaderStart|..])) == |errors|
  {
    var d := Decimal(|errors|);
    var rest := HeaderEnd + Join(Messages(errors), "\n");
    var m := NewCompilationException(errors).message;
    assert m == HeaderStart + d + rest;
    assert m[|HeaderStart|..] == d + rest;
    LeadingDigitsOf(d, rest);
    DecimalRoundTrip(|errors|);
  }

  /** After the header, splitting the message at line breaks gives back every diagnostic's
      message in order, provided there is at least one and none spans several lines: the
      messages are joined with no trailing separator. */
  lemma MessagesRecoverable(errors: seq<Diagnostic>)
    requires errors != []
    requires forall i :: 0 <= i < |errors| ==> '\n' !in errors[i].message
    ensures var m := NewCompilationException(errors).message;
      Split(m[|Header(|errors|)|..], {'\n'}) == Messages(errors)
  {
    var ms := Messages(errors);
    forall i | 0 <= i < |ms| ensures FreeOf(ms[i], {'\n'}) {
      assert ms[i] == errors[i].message;
    }
    SplitJoin(ms, '\n');
    var m := NewCompilationException(errors).message;
    assert m[|Header(|errors|)|..] == Join(ms, "\n");
  }
}
