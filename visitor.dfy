/**
 * The import-specifier visitor of the transformer (`visitor` and
 * `isDynamicImport` in src/context.ts) over a closed syntax-tree datatype.
 *
 * Three node shapes are candidates: an import or export declaration with a
 * module specifier, a call whose callee is the `import` keyword, and an
 * import type whose argument is a literal type holding a string literal.
 * A candidate whose path the rewrite rule changes is rebuilt with the new
 * path and not descended into; every other node is rebuilt from its
 * visited children.
 */
module Visitor {
  import opened Wrappers
  import opened Rewrite

  /**
   * The syntax nodes the visitor tells apart. `text` is a node's source
   * text, what `getText(sourceFile)` returns; a string literal's `value`
   * is its decoded `.text`. Every other kind of node is `Other`.
   */
  datatype Node =
    | ImportDeclaration(moduleSpecifier: Option<Node>, children: seq<Node>)
    | ExportDeclaration(moduleSpecifier: Option<Node>, children: seq<Node>)
    | CallExpression(callee: Node, arguments: seq<Node>, text: string)
    | ImportKeyword
    | ImportTypeNode(argument: Node, children: seq<Node>)
    | LiteralTypeNode(literal: Node)
    | StringLiteral(text: string, value: string)
    | Other(text: string, children: seq<Node>)

  /** What a visit needs besides the node: the file, the working directory, the options and the pattern table. */
  datatype Context = Context(fileName: string, cwd: string, options: TransformOptions, table: seq<Entry>)

  /** `node.arguments[0].getText` on a dynamic import without arguments throws. */
  datatype VisitError = MissingDynamicImportArgument

  /** `getText(sourceFile)` of a node that stands where an expression does. */
  function GetText(n: Node): string
  {
    match n
    case CallExpression(_, _, text) => text
    case StringLiteral(text, _) => text
    case Other(text, _) => text
    case ImportKeyword => "import"
    case _ => ""
  }

  /** `t.substr(1, t.length - 2)`: the text without its first and last character. */
  function StripQuotes(t: string): (r: string)
    ensures |t| >= 2 ==> t == [t[0]] + r + [t[|t| - 1]]
    ensures |t| < 2 ==> r == ""
  {
    if |t| >= 2 then t[1..|t| - 1] else ""
  }

  /** `isDynamicImport`: a call whose callee is the `import` keyword. */
  predicate IsDynamicImport(n: Node)
    ensures IsDynamicImport(n) ==> n.CallExpression? && GetText(n.callee) == "import"
  {
    n.CallExpression? && n.callee.ImportKeyword?
  }

  /**
   * The three shapes the visitor treats as import references: a declaration
   * with a module specifier, a dynamic import, and an import type whose
   * argument is a literal type holding a string literal.
   */
  predicate IsCandidate(n: Node)
    ensures IsCandidate(n) <==>
              ((n.ImportDeclaration? || n.ExportDeclaration?) && n.moduleSpecifier.Some?) ||
              IsDynamicImport(n) ||
              (n.ImportTypeNode? && n.argument.LiteralTypeNode? && n.argument.literal.StringLiteral?)
  {
    match n
    case ImportDeclaration(spec, _) => spec.Some?
    case ExportDeclaration(spec, _) => spec.Some?
    case CallExpression(callee, _, _) => callee == ImportKeyword
    case ImportTypeNode(argument, _) => argument.LiteralTypeNode? && argument.literal.StringLiteral?
    case _ => false
  }

  /**
   * The path the visitor reads off a node: the specifier's or first
   * argument's source text without its quotes, or an import type's literal
   * value; the empty path for any other node.
   */
  function ExtractPath(n: Node): (r: Result<string, VisitError>)
    ensures !IsCandidate(n) ==> r == Success("")
    ensures r.Failure? <==> IsDynamicImport(n) && |n.arguments| == 0
    ensures n.ImportTypeNode? && IsCandidate(n) ==> r == Success(n.argument.literal.value)
    ensures IsDynamicImport(n) && |n.arguments| > 0 ==> r == Success(StripQuotes(GetText(n.arguments[0])))
    ensures (n.ImportDeclaration? || n.ExportDeclaration?) && IsCandidate(n) ==>
              r == Success(StripQuotes(GetText(n.moduleSpecifier.value)))
  {
    if (n.ImportDeclaration? || n.ExportDeclaration?) && n.moduleSpecifier.Some? then
      Success(StripQuotes(GetText(n.moduleSpecifier.value)))
    else if IsDynamicImport(n) then
      if |n.arguments| == 0 then Failure(MissingDynamicImportArgument)
      else Success(StripQuotes(GetText(n.arguments[0])))
    else if n.ImportTypeNode? && n.argument.LiteralTypeNode? && n.argument.literal.StringLiteral? then
      Success(n.argument.literal.value)
    else Success("")
  }

  /** The literal the node factory creates for a new path, as it is printed. */
  function NewStringLiteral(path: string): Node
  {
    StringLiteral("\"" + path + "\"", path)
  }

  /** The placeholder `Skeleton` puts where a module path stood. */
  function Hole(): Node
  {
    Other("", [])
  }

  /**
   * A node with its own module path blanked out. A dynamic import loses its
   * arguments: rewriting one keeps only the new path.
   */
  function Skeleton(n: Node): Node
  {
    if !IsCandidate(n) then n
    else match n
      case ImportDeclaration(_, cs) => ImportDeclaration(Some(Hole()), cs)
      case ExportDeclaration(_, cs) => ExportDeclaration(Some(Hole()), cs)
      case CallExpression(callee, _, text) => CallExpression(callee, [], text)
      case ImportTypeNode(_, cs) => ImportTypeNode(Hole(), cs)
  }

  /**
   * The clone-then-assign step: a node of the same kind whose module path
   * is `path` and which differs from `n` nowhere else; a rewritten dynamic
   * import keeps exactly one argument.
   */
  function WithPath(n: Node, path: string): (r: Node)
    requires IsCandidate(n)
    ensures IsCandidate(r) && Skeleton(r) == Skeleton(n)
    ensures ExtractPath(r) == Success(path)
    ensures IsDynamicImport(n) ==> |r.arguments| == 1
  {
    var lit := NewStringLiteral(path);
    assert StripQuotes(lit.text) == path by {
      assert lit.text[1..|lit.text| - 1] == path;
    }
    match n
    case ImportDeclaration(_, cs) => ImportDeclaration(Some(lit), cs)
    case ExportDeclaration(_, cs) => ExportDeclaration(Some(lit), cs)
    case CallExpression(callee, _, text) => CallExpression(callee, [lit], text)
    case ImportTypeNode(_, cs) => ImportTypeNode(LiteralTypeNode(lit), cs)
  }

  /** The rewrite rule applied to a path found in the context's file. */
  function Rewritten(ctx: Context, path: string): string
  {
    RewritePath(path, ctx.fileName, ctx.cwd, ctx.options, ctx.table)
  }

  /** The visitor: rewrite a candidate whose path changes, otherwise visit the children. */
  function Visit(n: Node, ctx: Context): (r: Result<Node, VisitError>)
    decreases n, 1
    ensures r.Failure? ==> ExtractPath(n).Failure? || VisitEachChild(n, ctx).Failure?
    ensures ExtractPath(n).Failure? ==> r == Failure(MissingDynamicImportArgument)
    ensures !IsCandidate(n) ==> r == VisitEachChild(n, ctx)
    ensures ExtractPath(n).Success? &&
            (ExtractPath(n).value == "" || Rewritten(ctx, ExtractPath(n).value) == ExtractPath(n).value) ==>
              r == VisitEachChild(n, ctx)
    ensures IsCandidate(n) && ExtractPath(n).Success? && ExtractPath(n).value != "" &&
            Rewritten(ctx, ExtractPath(n).value) != ExtractPath(n).value ==>
              r == Success(WithPath(n, Rewritten(ctx, ExtractPath(n).value)))
  {
    var path :- ExtractPath(n);
    if path != "" && Rewritten(ctx, path) != path then Success(WithPath(n, Rewritten(ctx, path)))
    else VisitEachChild(n, ctx)
  }

  /**
   * `visitEachChild`: a node of the same kind and text rebuilt from its
   * visited children, in source order; a leaf comes back as it is.
   */
  function VisitEachChild(n: Node, ctx: Context): (r: Result<Node, VisitError>)
    decreases n, 0
    ensures n.ImportKeyword? || n.StringLiteral? ==> r == Success(n)
    ensures n.ImportDeclaration? || n.ExportDeclaration? ==>
              (r.Failure? <==> VisitOption(n.moduleSpecifier, ctx).Failure? || VisitAll(n.children, ctx).Failure?)
    ensures n.CallExpression? ==> (r.Failure? <==> Visit(n.callee, ctx).Failure? || VisitAll(n.arguments, ctx).Failure?)
    ensures n.ImportTypeNode? ==> (r.Failure? <==> Visit(n.argument, ctx).Failure? || VisitAll(n.children, ctx).Failure?)
    ensures n.LiteralTypeNode? ==> (r.Failure? <==> Visit(n.literal, ctx).Failure?)
    ensures n.Other? ==> (r.Failure? <==> VisitAll(n.children, ctx).Failure?)
    ensures (n.ImportDeclaration? || n.ExportDeclaration?) && r.Success? ==>
              r.value.ImportDeclaration? == n.ImportDeclaration? && r.value.ExportDeclaration? == n.ExportDeclaration? &&
              VisitOption(n.moduleSpecifier, ctx) == Success(r.value.moduleSpecifier) &&
              VisitAll(n.children, ctx) == Success(r.value.children)
    ensures n.CallExpression? && r.Success? ==>
              r.value.CallExpression? && r.value.text == n.text &&
              Visit(n.callee, ctx) == Success(r.value.callee) && VisitAll(n.arguments, ctx) == Success(r.value.arguments)
    ensures n.ImportTypeNode? && r.Success? ==>
              r.value.ImportTypeNode? &&
              Visit(n.argument, ctx) == Success(r.value.argument) && VisitAll(n.children, ctx) == Success(r.value.children)
    ensures n.LiteralTypeNode? && r.Success? ==>
              r.value.LiteralTypeNode? && Visit(n.literal, ctx) == Success(r.value.literal)
    ensures n.Other? && r.Success? ==>
              r.value.Other? && r.value.text == n.text && VisitAll(n.children, ctx) == Success(r.value.children)
  {
    match n
    case ImportDeclaration(spec, cs) =>
      var spec' :- VisitOption(spec, ctx);
      var cs' :- VisitAll(cs, ctx);
      Success(ImportDeclaration(spec', cs'))
    case ExportDeclaration(spec, cs) =>
      var spec' :- VisitOption(spec, ctx);
      var cs' :- VisitAll(cs, ctx);
      Success(ExportDeclaration(spec', cs'))
    case CallExpression(callee, args, text) =>
      var callee' :- Visit(callee, ctx);
      var args' :- VisitAll(args, ctx);
      Success(CallExpression(callee', args', text))
    case ImportKeyword => Success(n)
    case ImportTypeNode(argument, cs) =>
      var argument' :- Visit(argument, ctx);
      var cs' :- VisitAll(cs, ctx);
      Success(ImportTypeNode(argument', cs'))
    case LiteralTypeNode(literal) =>
      var literal' :- Visit(literal, ctx);
      Success(LiteralTypeNode(literal'))
    case StringLiteral(_, _) => Success(n)
    case Other(text, cs) =>
      var cs' :- VisitAll(cs, ctx);
      Success(Other(text, cs'))
  }

  function VisitOption(o: Option<Node>, ctx: Context): (r: Result<Option<Node>, VisitError>)
    decreases o
    ensures r.Success? ==> r.value.Some? == o.Some?
    ensures r.Success? && o.Some? ==> Visit(o.value, ctx) == Success(r.value.value)
    ensures o.Some? ==> (r.Failure? <==> Visit(o.value, ctx).Failure?)
  {
    match o
    case None => Success(None)
    case Some(n) =>
      var n' :- Visit(n, ctx);
      Success(Some(n'))
  }

  function VisitAll(ns: seq<Node>, ctx: Context): (r: Result<seq<Node>, VisitError>)
    decreases ns
    ensures r.Success? ==> |r.value| == |ns|
    ensures r.Success? ==> forall k :: 0 <= k < |ns| ==> Visit(ns[k], ctx) == Success(r.value[k])
    ensures r.Failure? <==> exists k :: 0 <= k < |ns| && Visit(ns[k], ctx).Failure?
  {
    if ns == [] then Success([])
    else
      var first :- Visit(ns[0], ctx);
      var rest :- VisitAll(ns[1..], ctx);
      assert forall k :: 1 <= k < |ns| ==> ns[k] == ns[1..][k - 1];
      Success([first] + rest)
  }

  /** No node of the tree has a path the rewrite rule changes, and no dynamic import lacks its argument. */
  predicate Stable(n: Node, ctx: Context)
  {
    ExtractPath(n).Success? &&
    (ExtractPath(n).value == "" || Rewritten(ctx, ExtractPath(n).value) == ExtractPath(n).value) &&
    match n
    case ImportDeclaration(spec, cs) => StableOption(spec, ctx) && StableAll(cs, ctx)
    case ExportDeclaration(spec, cs) => StableOption(spec, ctx) && StableAll(cs, ctx)
    case CallExpression(callee, args, _) => Stable(callee, ctx) && StableAll(args, ctx)
    case ImportKeyword => true
    case ImportTypeNode(argument, cs) => Stable(argument, ctx) && StableAll(cs, ctx)
    case LiteralTypeNode(literal) => Stable(literal, ctx)
    case StringLiteral(_, _) => true
    case Other(_, cs) => StableAll(cs, ctx)
  }

  predicate StableOption(o: Option<Node>, ctx: Context)
  {
    match o
    case None => true
    case Some(n) => Stable(n, ctx)
  }

  predicate StableAll(ns: seq<Node>, ctx: Context)
  {
    if ns == [] then true else Stable(ns[0], ctx) && StableAll(ns[1..], ctx)
  }

  /** A tree with nothing to rewrite comes back exactly as it went in. */
  lemma {:induction false} VisitStable(n: Node, ctx: Context)
    requires Stable(n, ctx)
    decreases n
    ensures Visit(n, ctx) == Success(n)
  {
    match n
    case ImportDeclaration(spec, cs) =>
      VisitOptionStable(spec, ctx);
      VisitAllStable(cs, ctx);
    case ExportDeclaration(spec, cs) =>
      VisitOptionStable(spec, ctx);
      VisitAllStable(cs, ctx);
    case CallExpression(callee, args, _) =>
      VisitStable(callee, ctx);
      VisitAllStable(args, ctx);
    case ImportKeyword =>
    case ImportTypeNode(argument, cs) =>
      VisitStable(argument, ctx);
      VisitAllStable(cs, ctx);
    case LiteralTypeNode(literal) =>
      VisitStable(literal, ctx);
    case StringLiteral(_, _) =>
    case Other(_, cs) =>
      VisitAllStable(cs, ctx);
  }

  lemma {:induction false} VisitOptionStable(o: Option<Node>, ctx: Context)
    requires StableOption(o, ctx)
    decreases o
    ensures VisitOption(o, ctx) == Success(o)
  {
    if o.Some? {
      VisitStable(o.value, ctx);
    }
  }

  lemma {:induction false} VisitAllStable(ns: seq<Node>, ctx: Context)
    requires StableAll(ns, ctx)
    decreases ns
    ensures VisitAll(ns, ctx) == Success(ns)
  {
    if ns != [] {
      VisitStable(ns[0], ctx);
      VisitAllStable(ns[1..], ctx);
      assert [ns[0]] + ns[1..] == ns;
    }
  }

  /** `m` is the candidate `n` rebuilt with a module path different from its own. */
  ghost predicate Rewrites(m: Node, n: Node)
  {
    IsCandidate(n) && exists p :: ExtractPath(n) != Success(p) && m == WithPath(n, p)
  }

  /**
   * `m` is `n` with some candidates rewritten and nothing else changed:
   * either `m` rewrites `n` itself, or it is a node of the same kind and
   * text whose children, in order, are related to those of `n`.
   */
  ghost predicate Related(m: Node, n: Node)
    decreases n
  {
    Rewrites(m, n) ||
    match n
    case ImportDeclaration(spec, cs) =>
      m.ImportDeclaration? && RelatedOption(m.moduleSpecifier, spec) && RelatedAll(m.children, cs)
    case ExportDeclaration(spec, cs) =>
      m.ExportDeclaration? && RelatedOption(m.moduleSpecifier, spec) && RelatedAll(m.children, cs)
    case CallExpression(callee, args, text) =>
      m.CallExpression? && m.text == text && Related(m.callee, callee) && RelatedAll(m.arguments, args)
    case ImportKeyword => m == n
    case ImportTypeNode(argument, cs) =>
      m.ImportTypeNode? && Related(m.argument, argument) && RelatedAll(m.children, cs)
    case LiteralTypeNode(literal) => m.LiteralTypeNode? && Related(m.literal, literal)
    case StringLiteral(_, _) => m == n
    case Other(text, cs) => m.Other? && m.text == text && RelatedAll(m.children, cs)
  }

  ghost predicate RelatedOption(a: Option<Node>, o: Option<Node>)
    decreases o
  {
    match o
    case None => a.None?
    case Some(n) => a.Some? && Related(a.value, n)
  }

  ghost predicate RelatedAll(ms: seq<Node>, ns: seq<Node>)
    decreases ns
  {
    |ms| == |ns| && forall k :: 0 <= k < |ns| ==> Related(ms[k], ns[k])
  }

  /**
   * The visitor changes module paths and nothing else: every node of the
   * result is either a rewritten candidate or the node it came from with
   * the same kind, text and number of children, down to the leaves.
   */
  lemma {:induction false} VisitRelated(n: Node, ctx: Context)
    requires Visit(n, ctx).Success?
    decreases n
    ensures Related(Visit(n, ctx).value, n)
  {
    var path := ExtractPath(n).value;
    if path != "" && Rewritten(ctx, path) != path {
      var p := Rewritten(ctx, path);
      assert ExtractPath(n) != Success(p) && Visit(n, ctx).value == WithPath(n, p);
    } else {
      match n
      case ImportDeclaration(spec, cs) =>
        VisitOptionRelated(spec, ctx);
        VisitAllRelated(cs, ctx);
      case ExportDeclaration(spec, cs) =>
        VisitOptionRelated(spec, ctx);
        VisitAllRelated(cs, ctx);
      case CallExpression(callee, args, _) =>
        VisitRelated(callee, ctx);
        VisitAllRelated(args, ctx);
      case ImportKeyword =>
      case ImportTypeNode(argument, cs) =>
        VisitRelated(argument, ctx);
        VisitAllRelated(cs, ctx);
      case LiteralTypeNode(literal) =>
        VisitRelated(literal, ctx);
      case StringLiteral(_, _) =>
      case Other(_, cs) =>
        VisitAllRelated(cs, ctx);
    }
  }

  lemma {:induction false} VisitOptionRelated(o: Option<Node>, ctx: Context)
    requires VisitOption(o, ctx).Success?
    decreases o
    ensures RelatedOption(VisitOption(o, ctx).value, o)
  {
    if o.Some? {
      VisitRelated(o.value, ctx);
    }
  }

  lemma {:induction false} VisitAllRelated(ns: seq<Node>, ctx: Context)
    requires VisitAll(ns, ctx).Success?
    decreases ns
    ensures RelatedAll(VisitAll(ns, ctx).value, ns)
  {
    var r := VisitAll(ns, ctx).value;
    forall k | 0 <= k < |ns| ensures Related(r[k], ns[k]) {
      VisitRelated(ns[k], ctx);
    }
  }

  /** A literal type holding a string literal is left as it is. */
  lemma VisitLiteralType(argument: Node, ctx: Context)
    requires argument.LiteralTypeNode? && argument.literal.StringLiteral?
    ensures Visit(argument, ctx) == Success(argument)
  {
  }
}
