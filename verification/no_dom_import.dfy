/**
  Rule `no-dom-import`: a test file should import its Testing Library
  framework package, not DOM Testing Library itself.  With a framework
  configured, the diagnostic names the corrected module and carries a fix
  that rewrites the module name inside the import's source text.
 */
module NoDomImport {
  import opened Syntax
  import opened Text

  /** `DOM_TESTING_LIBRARY_MODULES`. */
  const DomTestingLibraryModules: seq<string> := ["dom-testing-library", "@testing-library/dom"]

  /** A text edit: replace the source text of `target` by `text`. */
  datatype Fix = Fix(target: Node, text: string)

  datatype Diagnostic =
    | NoDomImportDiagnostic(node: Node)
      // `moduleName` is the corrected module name; `fix` is None where the fixer
      // would read the raw text of a node that is not a literal
    | NoDomImportFrameworkDiagnostic(node: Node, moduleName: string, fix: Option<Fix>)

  /** `moduleName.replace('dom', framework)`. */
  function CorrectModuleName(moduleName: string, framework: string): string {
    ReplaceFirst(moduleName, "dom", framework)
  }

  /** The literal whose raw text the fixer rewrites: the first `require` argument, or the import's source. */
  function FixTarget(node: Node, parent: Option<Node>): Option<Node> {
    if node == Ident("require") then
      match parent
      case Some(Call(_, args)) => if |args| > 0 then Some(args[0]) else None
      case _ => None
    else if node.ImportDecl? then Some(node.source)
    else None
  }

  /** `name.raw.replace(moduleName, correctModuleName)` on the fix target. */
  function FixFor(target: Option<Node>, moduleName: string, correctModuleName: string): Option<Fix> {
    match target
    case Some(Literal(v, raw)) => Some(Fix(target.value, ReplaceFirst(raw, moduleName, correctModuleName)))
    case _ => None
  }

  /** `report(node, moduleName)`; `parent` is the node's parent (the `require` call for a `require` callee). */
  function Report(node: Node, parent: Option<Node>, moduleName: string, framework: string): (d: Diagnostic)
    ensures framework == "" <==> d.NoDomImportDiagnostic?
    ensures d.node == node
    ensures d.NoDomImportFrameworkDiagnostic? ==> d.moduleName == CorrectModuleName(moduleName, framework)
  {
    if framework != "" then
      var correctModuleName := CorrectModuleName(moduleName, framework);
      NoDomImportFrameworkDiagnostic(node, correctModuleName,
                                     FixFor(FixTarget(node, parent), moduleName, correctModuleName))
    else NoDomImportDiagnostic(node)
  }

  /** A string literal naming one of the DOM modules. */
  predicate IsDomModuleLiteral(arg: Node) {
    arg.Literal? && arg.value.StringValue? && arg.value.str in DomTestingLibraryModules
  }

  /** `args.find(arg => isLiteral(arg) && typeof arg.value === 'string' && DOM_TESTING_LIBRARY_MODULES.includes(arg.value))`, as the module name. */
  function FirstDomModuleArgument(args: seq<Node>): (m: Option<string>)
    decreases |args|
    ensures m.None? <==> forall i :: 0 <= i < |args| ==> !IsDomModuleLiteral(args[i])
    ensures m.Some? ==> m.value in DomTestingLibraryModules
    ensures m.Some? ==> exists i :: 0 <= i < |args| && IsDomModuleLiteral(args[i]) && args[i].value.str == m.value &&
                                    forall j :: 0 <= j < i ==> !IsDomModuleLiteral(args[j])
  {
    if |args| == 0 then None
    else if IsDomModuleLiteral(args[0]) then Some(args[0].value.str)
    else
      var m := FirstDomModuleArgument(args[1..]);
      assert forall i :: 0 < i < |args| ==> args[i] == args[1..][i - 1];
      if m.Some? then
        assert exists i :: 0 <= i < |args[1..]| && IsDomModuleLiteral(args[1..][i]) && args[1..][i].value.str == m.value &&
                           forall j :: 0 <= j < i ==> !IsDomModuleLiteral(args[1..][j]);
        var i :| 0 <= i < |args[1..]| && IsDomModuleLiteral(args[1..][i]) && args[1..][i].value.str == m.value &&
                 forall j :: 0 <= j < i ==> !IsDomModuleLiteral(args[1..][j]);
        assert IsDomModuleLiteral(args[i + 1]) && forall j :: 0 <= j < i + 1 ==> !IsDomModuleLiteral(args[j]);
        m
      else m
  }

  /**
    The `Program:exit` handler, given the import node that
    `getTestingLibraryImportNode` found (None when there is none).
    It yields at most one diagnostic per file.
   */
  function ProgramExit(importNode: Option<Node>, framework: string): (d: Option<Diagnostic>)
    ensures importNode.None? ==> d.None?
    ensures importNode.Some? && !importNode.value.ImportDecl? && !importNode.value.Call? ==> d.None?
    // import { foo } from 'bar': reported iff the source is exactly one of the DOM modules
    ensures importNode.Some? && importNode.value.ImportDecl? ==>
              (d.Some? <==> IsDomModuleLiteral(importNode.value.source)) &&
              (d.Some? ==> d.value.node == importNode.value &&
                           d.value == Report(importNode.value, None, importNode.value.source.value.str, framework))
    // const { foo } = require('bar'): reported iff some argument is a DOM module string literal,
    // on the callee, for the first such argument
    ensures importNode.Some? && importNode.value.Call? ==>
              (d.Some? <==> exists i :: 0 <= i < |importNode.value.args| && IsDomModuleLiteral(importNode.value.args[i])) &&
              (d.Some? ==> d.value.node == importNode.value.callee &&
                           d.value == Report(importNode.value.callee, importNode, FirstDomModuleArgument(importNode.value.args).value, framework))
  {
    match importNode
    case None => None
    case Some(n) =>
      if n.ImportDecl? then
        if IsDomModuleLiteral(n.source) then Some(Report(n, None, n.source.value.str, framework)) else None
      else if n.Call? then
        match FirstDomModuleArgument(n.args)
        case None => None
        case Some(m) => Some(Report(n.callee, importNode, m, framework))
      else None
  }

  /** The first `dom` in `@testing-library/dom` is its last segment: it becomes `@testing-library/<framework>`. */
  lemma CorrectedScopedModuleName(framework: string)
    ensures CorrectModuleName("@testing-library/dom", framework) == "@testing-library/" + framework
  {
    var scoped := "@testing-library/";
    assert 'd' !in scoped;
    ReplaceAfterFreePrefix(scoped, "dom", "", framework);
    assert scoped + "dom" + "" == "@testing-library/dom";
    assert scoped + framework + "" == "@testing-library/" + framework;
  }

  /** `dom-testing-library` becomes `<framework>-testing-library`. */
  lemma CorrectedUnscopedModuleName(framework: string)
    ensures CorrectModuleName("dom-testing-library", framework) == framework + "-testing-library"
  {
    var s := "dom-testing-library";
    assert s[0..3] == "dom";
    assert OccursAt(s, "dom", 0);
    assert s[3..] == "-testing-library";
    assert s[..0] == "";
  }

  /** A quote character around a module name in a literal's source text. */
  predicate IsQuote(q: char) {
    q == '\'' || q == '"' || q == '`'
  }

  /**
    The fix for `import ... from '<dom module>'` replaces only the module name
    inside the quotes, so the quote characters the user wrote are kept.
   */
  lemma ImportFixKeepsQuotes(m: string, q: char, framework: string)
    requires m in DomTestingLibraryModules && IsQuote(q) && framework != ""
    ensures var source := Literal(StringValue(m), [q] + m + [q]);
            ProgramExit(Some(ImportDecl(source)), framework) ==
              Some(NoDomImportFrameworkDiagnostic(ImportDecl(source), CorrectModuleName(m, framework),
                     Some(Fix(source, [q] + CorrectModuleName(m, framework) + [q]))))
  {
    ReplaceKeepsQuotes(q, m, CorrectModuleName(m, framework));
  }

  /** The same for `require('<dom module>')`: the fix rewrites the argument between its quotes. */
  lemma RequireFixKeepsQuotes(m: string, q: char, framework: string)
    requires m in DomTestingLibraryModules && IsQuote(q) && framework != ""
    ensures var arg := Literal(StringValue(m), [q] + m + [q]);
            ProgramExit(Some(Call(Ident("require"), [arg])), framework) ==
              Some(NoDomImportFrameworkDiagnostic(Ident("require"), CorrectModuleName(m, framework),
                     Some(Fix(arg, [q] + CorrectModuleName(m, framework) + [q]))))
  {
    ReplaceKeepsQuotes(q, m, CorrectModuleName(m, framework));
    var arg := Literal(StringValue(m), [q] + m + [q]);
    assert FirstDomModuleArgument([arg]) == Some(m);
  }
}
