/**
 * The diagnostic side of the wrapper (src/index.ts, and the method of the
 * same name in src/context.ts): how a diagnostic argument is normalised
 * before it is printed, which summary line a count produces, the count a
 * one-shot compilation reports, and how options passed programmatically are
 * checked and merged over the defaults. Console output is modelled as the
 * sequence of `Output` lines a call produces.
 */
module Diagnostics {
  import opened Wrappers

  /** A compiler diagnostic; the wrapper looks only at its code and passes it on whole. */
  datatype Diagnostic = Diagnostic(code: int, message: string)

  /** What `assertDiagnostics` may be given: nothing, one diagnostic, or a list. */
  datatype DiagnosticsArg = Absent | One(d: Diagnostic) | Many(ds: seq<Diagnostic>)

  /** One thing written to the console. */
  datatype Output =
    | Formatted(batch: seq<Diagnostic>)   // formatDiagnosticsWithColorAndContext of the batch
    | SuppressedErrors(count: nat)        // "warning Suppressed Typescript errors: <count>"
    | NoErrorsFound                       // "info No Typescript errors found."
    | CompletedSuccessfully               // "info Compilation completed successfully."
    | WatchingForChanges                  // "info Watching for file changes..."

  /** The diagnostics an argument stands for. */
  function Listed(arg: DiagnosticsArg): seq<Diagnostic>
  {
    match arg
    case Absent => []
    case One(d) => [d]
    case Many(ds) => ds
  }

  /**
   * `assertDiagnostics`: the batch handed to the formatter, if any. A single
   * diagnostic is wrapped in a list; nothing at all and an empty list print
   * nothing.
   */
  function AssertDiagnostics(arg: DiagnosticsArg): (printed: Option<seq<Diagnostic>>)
    ensures printed.Some? ==> printed.value != []
    ensures printed == (if Listed(arg) == [] then None else Some(Listed(arg)))
  {
    match arg
    case Absent => None
    case One(d) => Some([d])
    case Many(ds) => if |ds| == 0 then None else Some(ds)
  }

  /** The console lines `assertDiagnostics` writes: one formatted batch of every listed diagnostic, or nothing. */
  function Printed(arg: DiagnosticsArg): (r: seq<Output>)
    ensures r == (if Listed(arg) == [] then [] else [Formatted(Listed(arg))])
  {
    match AssertDiagnostics(arg)
    case None => []
    case Some(batch) => [Formatted(batch)]
  }

  /** `printSuppression(numErrors)`. */
  function PrintSuppression(numErrors: nat): (r: seq<Output>)
    ensures |r| == 2 && r[1] == CompletedSuccessfully
    ensures r[0] == SuppressedErrors(numErrors) <==> numErrors > 0
    ensures r[0] == NoErrorsFound <==> numErrors == 0
  {
    if numErrors > 0 then [SuppressedErrors(numErrors), CompletedSuccessfully]
    else [NoErrorsFound, CompletedSuccessfully]
  }

  /** The count a summary line states: a warning's number, or none for "no errors". */
  function CountIn(line: Output): nat
  {
    if line.SuppressedErrors? then line.count else 0
  }

  /** Whatever the count, the summary line states it back. */
  lemma SummaryStatesCount(numErrors: nat)
    ensures CountIn(PrintSuppression(numErrors)[0]) == numErrors
  {
  }

  /** The diagnostics a one-shot compilation collects. */
  function Collected(pre: seq<Diagnostic>, emitSkipped: bool, emitted: seq<Diagnostic>): seq<Diagnostic>
  {
    if emitSkipped then pre else pre + emitted
  }

  /**
   * One-shot compilation after `emit`: the pre-emit diagnostics are copied,
   * the emit diagnostics are appended only when emission was not skipped,
   * and the list is printed and then summarised.
   */
  method OneShot(pre: seq<Diagnostic>, emitSkipped: bool, emitted: seq<Diagnostic>) returns (out: seq<Output>)
    ensures |out| >= 2 && out[|out| - 1] == CompletedSuccessfully
    ensures CountIn(out[|out| - 2]) == if emitSkipped then |pre| else |pre| + |emitted|
    ensures out[..|out| - 2] == Printed(Many(Collected(pre, emitSkipped, emitted)))
    ensures out[|out| - 2..] == PrintSuppression(|Collected(pre, emitSkipped, emitted)|)
  {
    var diagnostics := pre;
    if !emitSkipped {
      diagnostics := diagnostics + emitted;
    }
    out := Printed(Many(diagnostics));
    var summary := PrintSuppression(|diagnostics|);
    SummaryStatesCount(|diagnostics|);
    out := out + summary;
    assert out[..|out| - 2] == Printed(Many(diagnostics));
    assert out[|out| - 2..] == summary;
  }

  /** A JavaScript value, as far as the options check looks at it. */
  datatype JsValue = Undefined | Null | Bool(b: bool) | Num(n: int) | Str(s: string) | Obj

  /** JavaScript truthiness. */
  predicate Truthy(v: JsValue)
  {
    match v
    case Undefined => false
    case Null => false
    case Bool(b) => b
    case Num(n) => n != 0
    case Str(s) => s != ""
    case Obj => true
  }

  /** `args.<name>`: a property the caller did not supply reads as `undefined`. */
  function Get(args: map<string, JsValue>, name: string): JsValue
  {
    if name in args then args[name] else Undefined
  }

  /** The `AssertionError` a failed `assert` throws. */
  datatype ConfigError = AssertionError(message: string)

  /** The defaults: the compiler and project paths derived from the working directory, watch and help off. */
  function DefaultArgs(compilerPath: string, projectPath: string): map<string, JsValue>
  {
    map["compiler" := Str(compilerPath), "project" := Str(projectPath), "watch" := Bool(false), "help" := Bool(false)]
  }

  /** The check on one option: only a truthy value is checked, and it must be of the named type. */
  predicate Passes(v: JsValue, wantsString: bool)
  {
    !Truthy(v) || (if wantsString then v.Str? else v.Bool?)
  }

  /**
   * Options passed programmatically: `compiler`, `project` and `watch` are
   * checked in that order, then `Object.assign` copies every supplied
   * property over the defaults.
   */
  function MergeArgs(args: map<string, JsValue>, defaults: map<string, JsValue>): (r: Result<map<string, JsValue>, ConfigError>)
    ensures r.Success? <==>
              Passes(Get(args, "compiler"), true) && Passes(Get(args, "project"), true) && Passes(Get(args, "watch"), false)
    ensures !Passes(Get(args, "compiler"), true) ==>
              r == Failure(AssertionError("Option \"compiler\" must be of type string"))
    ensures Passes(Get(args, "compiler"), true) && !Passes(Get(args, "project"), true) ==>
              r == Failure(AssertionError("Option \"project\" must be of type string"))
    ensures Passes(Get(args, "compiler"), true) && Passes(Get(args, "project"), true) && !Passes(Get(args, "watch"), false) ==>
              r == Failure(AssertionError("Option \"watch\" must be of type boolean"))
    ensures r.Success? ==> r.value.Keys == defaults.Keys + args.Keys
    ensures r.Success? ==> forall k :: k in args ==> r.value[k] == args[k]
    ensures r.Success? ==> forall k :: k in defaults && k !in args ==> r.value[k] == defaults[k]
  {
    var compiler := Get(args, "compiler");
    var project := Get(args, "project");
    var watch := Get(args, "watch");
    if Truthy(compiler) && !compiler.Str? then Failure(AssertionError("Option \"compiler\" must be of type string"))
    else if Truthy(project) && !project.Str? then Failure(AssertionError("Option \"project\" must be of type string"))
    else if Truthy(watch) && !watch.Bool? then Failure(AssertionError("Option \"watch\" must be of type boolean"))
    else Success(defaults + args)
  }

  /**
   * A falsy value is never checked, so it passes whatever its type and, once
   * supplied, replaces the default: `{compiler: 0}` leaves `compiler` as 0.
   */
  lemma FalsyValueOverridesDefault(args: map<string, JsValue>, compilerPath: string, projectPath: string, name: string)
    requires name in args && !Truthy(args[name])
    requires name != "compiler" ==> Passes(Get(args, "compiler"), true)
    requires name != "project" ==> Passes(Get(args, "project"), true)
    requires name != "watch" ==> Passes(Get(args, "watch"), false)
    ensures MergeArgs(args, DefaultArgs(compilerPath, projectPath)).Success?
    ensures MergeArgs(args, DefaultArgs(compilerPath, projectPath)).value[name] == args[name]
  {
  }

  /** With nothing supplied, the defaults stand. */
  lemma EmptyArgsGiveDefaults(compilerPath: string, projectPath: string)
    ensures MergeArgs(map[], DefaultArgs(compilerPath, projectPath)) == Success(DefaultArgs(compilerPath, projectPath))
  {
    var defaults := DefaultArgs(compilerPath, projectPath);
    assert defaults + map[] == defaults;
  }
}
