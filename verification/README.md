# Decision logic of five testing-library ESLint rules, in Dafny

This project models the decision logic of five rules from `eslint-plugin-testing-library`. Given the syntax-tree nodes ESLint hands each rule, it states when a rule reports, how many diagnostics it issues, where it issues them, and which text it computes.

- `await-async-utils`: the promise returned by an async util (`waitFor`, ...) must be handled, and so must the promise of a user function that wraps one. The rule keeps a per-file, append-only list of wrapper-function names. The list grows in traversal order. It is modelled as the class `AsyncUtilsRule`, whose fields are that list and the diagnostics issued so far. The pure functions `Step` and `Run` give the same state after one visit and after a whole traversal.
- `no-wait-for-multiple-assertions`: inside a `waitFor` callback, every `expect` statement after the first is reported.
- `prefer-query-wait-disappearance` (file `prefer-query-by-disappearance.ts`): a `getBy*`/`findBy*` query inside `waitForElementToBeRemoved` should be a `queryBy*` query. The argument may be a direct call, a block-bodied function or arrow, or an implicit-return arrow.
- `no-dom-import`: importing `dom-testing-library` or `@testing-library/dom` is reported. With a framework configured, the report gives the corrected module name and the text of the fix.
- `consistent-data-testid`: a test-id attribute value must match a pattern. In the pattern, `{fileName}` stands for the linted file's name. For an `index` file it stands for the parent directory's name.

Files:
- `syntax.dfy` (module `Syntax`): the node kinds the rules inspect, plus `Other` for every other kind.
- `text.dfy` (module `Text`): JavaScript's `String.prototype.replace` with a string pattern, which replaces the first occurrence only, and `String.prototype.split` on one character. `split` has its round-trip (`JoinSplit`, `SplitJoin`) and segment lemmas. `replace` is characterised by the first occurrence it substitutes, with lemmas for an occurrence right after a prefix that cannot hold the pattern and for a value between quotes.
- One file per rule.

The detection helpers come from `node-utils` and `create-testing-library-rule`. Those modules are not part of this model. In `await-async-utils`, `no-wait-for-multiple-assertions` and `prefer-query-wait-disappearance` the helpers are function-typed fields of a per-rule `Helpers` record. In `no-dom-import` the answer of `getTestingLibraryImportNode` is the `importNode` parameter of `ProgramExit`, and in `consistent-data-testid` the path `getFilename` returns and the regular-expression test are parameters of the handler. Every property proved here holds for any behaviour of those helpers. For `await-async-utils`, each visit carries its own `Helpers`. This lets the answers depend on where the identifier sits in the file.

In `await-async-utils`, a util whose result has zero variable references is reported unless the identifier's own promise is handled (`lib/rules/await-async-utils.ts:64-73`). The model does the same.

## Model

| member | source | states |
|---|---|---|
| `AwaitAsyncUtils.WrapperPush` | lib/rules/await-async-utils.ts:36-42 | a visit registers at most one wrapper name. It registers one exactly when the identifier is an async util with an innermost returning function, and the name is that function's name |
| `AwaitAsyncUtils.Verdict` | lib/rules/await-async-utils.ts:45-98 | every diagnostic cites the visited identifier by its own name. An async util never yields the wrapper message. No closest call, or a call without a parent, means no report. With zero references: report iff the identifier's promise is unhandled. With references: report iff some reference is unhandled. A non-util identifier is reported iff its name was registered earlier and its promise is unhandled |
| `AwaitAsyncUtils.Step` | lib/rules/await-async-utils.ts:44-98 | definition of one identifier visit: the pushed name and the verdict against the names registered before it; properties in `VisitIdentifier`, `InertVisit` and `ForwardOnly` |
| `AwaitAsyncUtils.Run` | lib/rules/await-async-utils.ts:34-98 | definition of the per-file state after a traversal; properties in `RunGrows`, `RunBounds`, `WrapperListContents` and `ForwardOnly` |
| `AwaitAsyncUtils.AsyncUtilsRule.constructor` | lib/rules/await-async-utils.ts:34 | a fresh rule starts with an empty wrapper list and no diagnostics |
| `AwaitAsyncUtils.AsyncUtilsRule.DetectAsyncUtilWrapper` | lib/rules/await-async-utils.ts:36-42 | the wrapper list becomes the old list plus the pushed name, if any |
| `AwaitAsyncUtils.AsyncUtilsRule.VisitIdentifier` | lib/rules/await-async-utils.ts:45-98 | the new list and diagnostics are exactly one `Step` from the old ones. The early-exit loop over references reports iff some reference is unhandled |
| `AwaitAsyncUtils.Traverse` | lib/rules/await-async-utils.ts:44-98 | visiting identifiers in source order drives the object through `Run` |
| `AwaitAsyncUtils.RunGrows` | lib/rules/await-async-utils.ts:34-42 | the wrapper list and the diagnostics after any prefix of the traversal are prefixes of the later ones. Nothing is removed or reordered |
| `AwaitAsyncUtils.RunBounds` | lib/rules/await-async-utils.ts:66-91 | over n visits there are at most n wrapper names and at most n diagnostics, because every report path returns |
| `AwaitAsyncUtils.WrapperListContents` | lib/rules/await-async-utils.ts:39-41 | a name is in the list iff some visit so far was an async util inside a returning function of that name |
| `AwaitAsyncUtils.ForwardOnly` | lib/rules/await-async-utils.ts:88-96 | a non-util identifier gets the wrapper diagnostic iff an earlier visit registered its name and its promise is unhandled. The list is unchanged by that visit |
| `AwaitAsyncUtils.InertVisit` | lib/rules/await-async-utils.ts:45-98 | an identifier that is neither an async util nor a registered wrapper changes neither the list nor the diagnostics |
| `NoWaitForMultipleAssertions.IsExpectStatement` | lib/rules/no-wait-for-multiple-assertions.ts:32-43 | definition of the filter callback; properties in `GetExpectNodes` |
| `NoWaitForMultipleAssertions.InsideWaitFor` | lib/rules/no-wait-for-multiple-assertions.ts:47-61 | definition of the guards; properties in `ReportMultipleAssertion` |
| `NoWaitForMultipleAssertions.GetExpectNodes` | lib/rules/no-wait-for-multiple-assertions.ts:29-44 | the result is an order-preserving subsequence of the body. A statement is kept iff it is an expression statement whose property identifier is `expect`, with each kept statement keeping its multiplicity |
| `NoWaitForMultipleAssertions.ReportAllButFirst` | lib/rules/no-wait-for-multiple-assertions.ts:69-76 | the reporting loop yields one diagnostic per `expect` node except the first, in order |
| `NoWaitForMultipleAssertions.ReportMultipleAssertion` | lib/rules/no-wait-for-multiple-assertions.ts:46-77 | nothing is reported without a parent, without a call identifier, outside `waitFor`, or with at most one `expect`. Otherwise there are exactly n-1 reports, the i-th at the (i+1)-th `expect` statement, so the first is never reported |
| `PreferQueryByDisappearance.IsWaitForElementToBeRemoved` | lib/rules/prefer-query-by-disappearance.ts:42-50 | definition; properties in `Check` |
| `PreferQueryByDisappearance.IsReportableExpression` | lib/rules/prefer-query-by-disappearance.ts:52-69 | definition; properties in `MemberObjectIrrelevant` and `QueriesOnlyNeverReported` |
| `PreferQueryByDisappearance.IsNonCallbackViolation` | lib/rules/prefer-query-by-disappearance.ts:71-84 | definition; properties in `NonCallNeverNonCallbackViolation` and `QualifiedQueryCallDecidedAlike` |
| `PreferQueryByDisappearance.IsReturnViolation` | lib/rules/prefer-query-by-disappearance.ts:86-92 | definition; properties in `OnlyCallStatementsViolate` |
| `PreferQueryByDisappearance.IsNonReturnViolation` | lib/rules/prefer-query-by-disappearance.ts:94-107 | definition; properties in `OnlyCallStatementsViolate` |
| `PreferQueryByDisappearance.IsFunctionExpressionViolation` | lib/rules/prefer-query-by-disappearance.ts:109-120 | definition; properties in `SomeStatementViolationIffExists` and `StatementOrderIrrelevant` |
| `PreferQueryByDisappearance.IsArrowFunctionBodyViolation` | lib/rules/prefer-query-by-disappearance.ts:122-133 | definition; properties in `ArrowChecksExclusive` and `StatementOrderIrrelevant` |
| `PreferQueryByDisappearance.IsArrowFunctionImplicitReturnViolation` | lib/rules/prefer-query-by-disappearance.ts:135-150 | definition; properties in `ArrowChecksExclusive` |
| `PreferQueryByDisappearance.IsStatementViolation` | lib/rules/prefer-query-by-disappearance.ts:117-118 | definition of the `.some` callback; properties in `OnlyCallStatementsViolate` |
| `PreferQueryByDisappearance.SomeStatementViolation` | lib/rules/prefer-query-by-disappearance.ts:116-119 | definition; properties in `SomeStatementViolationIffExists` and `StatementOrderIrrelevant` |
| `PreferQueryByDisappearance.IsArrowFunctionViolation` | lib/rules/prefer-query-by-disappearance.ts:152-157 | definition; properties in `ArrowChecksExclusive` and `Check` |
| `PreferQueryByDisappearance.IsViolation` | lib/rules/prefer-query-by-disappearance.ts:166-170 | definition of the three-way condition; properties in `Check` and `QueriesOnlyNeverReported` |
| `PreferQueryByDisappearance.Check` | lib/rules/prefer-query-by-disappearance.ts:159-178 | no report unless the call is `waitForElementToBeRemoved`. At most one report, at `arguments[0]`, issued iff that argument is a non-callback, arrow or function-expression violation |
| `PreferQueryByDisappearance.MemberObjectIrrelevant` | lib/rules/prefer-query-by-disappearance.ts:52-69 | the object of a member expression plays no part in whether it is reportable: `a.q` and `b.q` are decided alike, and like `q` itself when `q` is not a member expression |
| `PreferQueryByDisappearance.QualifiedQueryCallDecidedAlike` | lib/rules/prefer-query-by-disappearance.ts:71-84 | as the first argument, `screen.getByText(...)` is a violation iff `getByText(...)` is |
| `PreferQueryByDisappearance.QueriesOnlyNeverReported` | lib/rules/prefer-query-by-disappearance.ts:65-68 | when no identifier is a get or find variant, as with `queryBy*` only, no call is reported |
| `PreferQueryByDisappearance.SomeStatementViolationIffExists` | lib/rules/prefer-query-by-disappearance.ts:116-119 | the `.some` over a block's statements holds iff some statement is a return-violation or a non-return-violation |
| `PreferQueryByDisappearance.StatementOrderIrrelevant` | lib/rules/prefer-query-by-disappearance.ts:129-132 | rearranging a block's statements does not change whether it violates |
| `PreferQueryByDisappearance.OnlyCallStatementsViolate` | lib/rules/prefer-query-by-disappearance.ts:86-107 | a statement that is neither `return <call>` nor `<call>;` never counts as a violation |
| `PreferQueryByDisappearance.ArrowChecksExclusive` | lib/rules/prefer-query-by-disappearance.ts:122-150 | for one arrow, the block-body and implicit-return violations never both hold |
| `PreferQueryByDisappearance.NonCallNeverNonCallbackViolation` | lib/rules/prefer-query-by-disappearance.ts:71-84 | a first argument that is not a call is never a non-callback violation |
| `NoDomImport.CorrectModuleName` | lib/rules/no-dom-import.ts:48 | definition; properties in `CorrectedScopedModuleName` and `CorrectedUnscopedModuleName` |
| `NoDomImport.FixTarget` | lib/rules/no-dom-import.ts:47-67 | definition: the first `require` argument or the import source; properties in `ImportFixKeepsQuotes` and `RequireFixKeepsQuotes` |
| `NoDomImport.FixFor` | lib/rules/no-dom-import.ts:61-71 | definition; properties in `ImportFixKeepsQuotes` and `RequireFixKeepsQuotes` |
| `NoDomImport.IsDomModuleLiteral` | lib/rules/no-dom-import.ts:102-107 | definition; properties in `FirstDomModuleArgument` and `ProgramExit` |
| `NoDomImport.Report` | lib/rules/no-dom-import.ts:42-81 | an empty framework gives `noDomImport` with no fix. A non-empty one gives `noDomImportFramework` with the corrected name. Both are at the given node |
| `NoDomImport.FirstDomModuleArgument` | lib/rules/no-dom-import.ts:102-107 | yields the value of the first argument that is a string literal naming a DOM module. It yields nothing iff no argument is one |
| `NoDomImport.ProgramExit` | lib/rules/no-dom-import.ts:84-115 | nothing without an import node, or for a node of another kind. An import is reported iff its source is exactly a DOM module. A `require` call is reported, on its callee, iff some argument is a DOM module literal, naming the first one. At most one report per file |
| `NoDomImport.CorrectedScopedModuleName` | lib/rules/no-dom-import.ts:48 | `@testing-library/dom` becomes `@testing-library/<framework>` |
| `NoDomImport.CorrectedUnscopedModuleName` | lib/rules/no-dom-import.ts:48 | `dom-testing-library` becomes `<framework>-testing-library`. Only the first `dom` is replaced |
| `NoDomImport.ImportFixKeepsQuotes` | lib/rules/no-dom-import.ts:66-71 | for an import of a quoted DOM module, the fix text is the corrected name between the same quote characters |
| `NoDomImport.RequireFixKeepsQuotes` | lib/rules/no-dom-import.ts:56-64 | the same for `require('<DOM module>')`: the fix rewrites the first argument and keeps its quotes |
| `ConsistentDataTestId.GetFileNameData` | lib/rules/consistent-data-testid.ts:72-81 | definition; properties in `FileNameIsStemOfFinalSegment`, `IndexWithoutDirectory` and `IndexUsesParentDirectory` |
| `ConsistentDataTestId.TestIdValidatorPattern` | lib/rules/consistent-data-testid.ts:83-85 | definition; properties in `PlaceholderReplacedOnce`, `PlaceholderDeletedWithoutFileName` and `PlaceholderAfterQuantifier` |
| `ConsistentDataTestId.FileNameIsStemOfFinalSegment` | lib/rules/consistent-data-testid.ts:72-81 | the file name is the last `/`-segment of the path up to its first `.`, whenever that is not `index` |
| `ConsistentDataTestId.IndexWithoutDirectory` | lib/rules/consistent-data-testid.ts:74-79 | an `index` file with no `/` in its path has an undefined file name |
| `ConsistentDataTestId.IndexUsesParentDirectory` | lib/rules/consistent-data-testid.ts:74-79 | for `<dirs>/<index file>`, the file name is the last segment of `<dirs>` |
| `ConsistentDataTestId.PlaceholderReplacedOnce` | lib/rules/consistent-data-testid.ts:83-85 | for any text `before` in which `{fileName}` does not start, the first `{fileName}` after it is replaced by the file name and any later placeholder stays as written |
| `ConsistentDataTestId.PlaceholderDeletedWithoutFileName` | lib/rules/consistent-data-testid.ts:107-108 | under the same condition, an undefined file name replaces the first `{fileName}` by the empty string |
| `ConsistentDataTestId.PlaceholderAfterQuantifier` | lib/rules/consistent-data-testid.ts:83-85 | in `^[a-z]{2}-{fileName}$` the regex quantifier `{2}` is left alone and the placeholder is substituted |
| `ConsistentDataTestId.IsTestIdAttribute` | lib/rules/consistent-data-testid.ts:87-93 | definition; properties in `OnJsxIdentifier` and `DefaultMatchesDataTestIdOnly` |
| `ConsistentDataTestId.DefaultMatchesDataTestIdOnly` | lib/rules/consistent-data-testid.ts:61-66 | with the default option, an attribute is a test id iff its name is `data-testid` |
| `ConsistentDataTestId.OnJsxIdentifier` | lib/rules/consistent-data-testid.ts:96-121 | no report unless the parent is a JSX attribute with a literal value and a test-id name. A string option means equality, an array means membership, and no option matches nothing. An empty or non-string value is never reported. A non-empty string value failing the substituted pattern is reported with that attribute, value and pattern |
| `Text.IndexOf` | lib/rules/no-dom-import.ts:48 | the result is the first index at which the pattern occurs. It is None iff the pattern occurs nowhere |
| `Text.ReplaceFirst` | lib/rules/no-dom-import.ts:63 | the first occurrence of the pattern is replaced and the rest is kept. Without an occurrence the string is returned unchanged |
| `Text.ReplaceKeepsQuotes` | lib/rules/no-dom-import.ts:60-63 | replacing a literal's value inside its quoted source text keeps both quote characters |
| `Text.Split` | lib/rules/consistent-data-testid.ts:73 | `split` never returns an empty array, and no piece contains the separator |
| `Text.JoinSplit` | lib/rules/consistent-data-testid.ts:73 | joining the pieces of a split gives back the original string |
| `Text.SplitJoin` | lib/rules/consistent-data-testid.ts:73 | splitting separator-free pieces joined by the separator gives back the pieces |
| `Text.SplitLastIsFinal` | lib/rules/consistent-data-testid.ts:74 | the last piece (`pop`) is the text after the last separator |
| `Text.SplitFirstIsLeading` | lib/rules/consistent-data-testid.ts:76 | the first piece (`shift`) is the text before the first separator |
| `Text.ReplaceAfterFreePrefix` | lib/rules/no-dom-import.ts:48 | when the pattern's first character does not occur in the prefix before an occurrence, `replace` substitutes exactly that occurrence (used for `@testing-library/dom`) |
| `Text.SplitMany` | lib/rules/consistent-data-testid.ts:75 | there is a second-to-last piece iff the separator occurs |

## Left out

- The bodies of the detection helpers: `isAsyncUtil`, `isGetQueryVariant`, `isFindQueryVariant`, `isPromiseHandled`, `getPropertyIdentifierNode`, `getInnermostReturningFunction`, `getFunctionName`, `getVariableReferences`, `findClosestCallExpressionNode` and `getTestingLibraryImportNode`. They live in `node-utils` and `create-testing-library-rule`, which are not part of this model. Here they are parameters with arbitrary behaviour.
- Node identity: nodes are values, so two structurally equal occurrences cannot be told apart. Parent links and scopes are not in the tree. Whatever a rule learns from them comes through the helpers.
- `getVariableReferences` is taken to always return an array, so `references &&` is always true. If it returned `undefined`, the source's `else` branch would iterate `undefined` and throw.
- In `prefer-query-wait-disappearance`, with no arguments, `arguments[0]` is `undefined`. The model then reports nothing, assuming the `is*` node checks answer false on `undefined`.
- In `no-dom-import`, the fix text is `None` where the fixer would read `.raw` from a node that is not a literal. That happens when the first `require` argument is not a literal, or when a non-`require` callee is taken for an import declaration. The source would throw there.
- Regular expressions: building the `RegExp` and `regex.test` are a parameter `(pattern, value) -> bool`. A pattern that fails to compile, which would throw, is not modelled.
- JavaScript's special `$` replacement patterns in `String.prototype.replace` are not modelled. Replacement is plain first-occurrence substitution.
- Applying the fix's text edit to the file is not modelled, only the computed replacement text.
- ESLint plumbing is not modelled: rule metadata, option schemas, message strings, `createTestingLibraryRule` / `RuleCreator`, selector dispatch and the scope manager. `context.report` becomes a returned or appended diagnostic record.
- The default `testIdAttribute` (`data-testid`) comes from ESLint's option defaulting. It is recorded as a constant, and the handler takes whatever option it is given.
- Resolving aliases, deciding whether a promise is handled and classifying side effects happen in `node-utils`, which is not part of this model. Here they are the `Helpers` parameters `getVariableReferences`, `isPromiseHandled` and friends.
- The rule `no-wait-for-side-effects` is not part of this model.
