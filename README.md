# tsc-suppress, modelled in Dafny

tsc-suppress wraps the TypeScript compiler. It prints every diagnostic the
compiler produces but never lets one fail the build. It also offers a
transformer that rewrites module paths in import and export declarations,
in dynamic `import(...)` calls and in import types. This project models and
proves three pieces of that logic.

- **The path rewrite rule** (`rewritePath`, src/context.ts). Precedence is
  first applicable wins:
  - the first alias entry whose pattern tests true;
  - a non-empty answer from the user's `rewrite` callback;
  - the project rule, for paths starting with `.`;
  - otherwise the path unchanged.

  The alias patterns are JavaScript regular expressions built with flags
  `gi`. `pattern.dfy` gives them meaning for the fragment alias tables are
  written in:
  - a leading `^`;
  - `.` for any character except a line terminator;
  - `\x` for x itself, when x is not an ASCII letter or digit;
  - any character that is not a JavaScript syntax character
    (`^ $ \ . * + ? ( ) [ ] { } |`) for itself.

  Any other use of a syntax character, and an escaped letter or digit, is
  refused as unsupported instead of being read as a literal.

  Matching ignores ASCII letter case, and replacement is global.
  `paths.dfy` models the POSIX `path.resolve(path.dirname(file), p)` as a
  segment normaliser, and JavaScript's `s.split(sep)[1]`.
- **The import visitor** (`visitor` and `isDynamicImport`,
  src/context.ts), over a closed syntax-tree datatype.
- **The diagnostic session logic** (src/index.ts):
  - `assertDiagnostics`, and its copy in `CompilerContext`;
  - the `printSuppression` choice;
  - the one-shot count;
  - the check and merge of programmatic options;
  - the watch-mode buffer, a `WatchSession` class whose reporter callbacks
    update the buffer in place. Its ghost history of callbacks gives the
    invariant that the buffer holds exactly the diagnostics kept since the
    last start status.

Console output is modelled as the sequence of `Output` values a call
writes. The working directory is a parameter. The rewrite callback is a
function-valued option.

Three behaviours of the code that are easy to misread are kept as written:
- **The project rule keeps `split(baseUrl)[1]`.** That is the text between
  the first and the second occurrence of `baseUrl`. It is not the whole
  remainder after the first one. When `baseUrl` does not occur in the
  resolved path, the code does not fail: `project` is followed by the text
  `undefined` (`Rewrite.ProjectRuleOutsideBase`).
- **The watch count includes the done status.** The status that ends a
  cycle is itself added to the buffer before the count, so watch mode
  reports one more than the diagnostics of the cycle. It therefore never
  says "No Typescript errors found" (`Watch.DoneCountsCycle`).
- **After a done status the buffer is not emptied.** Only a start status
  empties it. A second done status with no start in between therefore
  prints and counts the earlier cycle's diagnostics and done status again,
  followed by whatever arrived since (`Watch.SecondDoneRecounts`).

## Model

| member | source | states |
|---|---|---|
| Pattern.Compile | src/context.ts:94 | `new RegExp(src, 'gi')`: anchored exactly when the source starts with `^`; a source free of syntax characters compiles to the literal pattern of its own characters; a source whose only syntax characters are `.` compiles to any-character atoms there and literals elsewhere; a trailing lone `\` is a compile error |
| Pattern.ParseAtoms | src/context.ts:94 | a source free of syntax characters parses to one literal atom per character, in order, and `.` to an any-character atom; `\x` for x not a letter or digit is the literal x; an escaped letter or digit and any other leading syntax character are refused as unsupported; a trailing lone `\` fails; never more atoms than characters |
| Pattern.AtomsMatchFromMeans | src/context.ts:21 | the recursive matcher agrees with the index-wise definition: each atom matches the character at its offset, and the text is long enough |
| Pattern.FirstMatchFrom | src/context.ts:21-22 | returns the leftmost position at or after `i` where the pattern matches, or none when it matches nowhere there |
| Pattern.Test | src/context.ts:21 | `regex.test(path)` is true exactly when the pattern matches at some position of the path |
| Pattern.ReplaceFromNoMatch | src/context.ts:22 | replacement from a position with no match at or after it leaves the rest of the text as it is |
| Pattern.ReplaceFromStep | src/context.ts:22 | a global replace copies the text up to the leftmost match, writes the replacement there, and carries on right after the match |
| Pattern.ReplaceAll | src/context.ts:22 | a pattern that tests false makes `replace` return its input |
| Pattern.AnchoredReplace | src/context.ts:22 | an anchored pattern that matches at the start is replaced once, there, and the rest of the text is kept |
| Pattern.ReplaceBySelfOnlyRecases | src/context.ts:21-22 | replacing every match of a pattern free of syntax characters by its own source text changes at most letter case |
| Paths.Normalize | src/context.ts:35-36 | the `.`/`..` normaliser of `path.resolve` leaves no empty, `.` or `..` segment, never grows the path, and keeps only segments of its input; how each kind of segment acts is fixed by NormalSegmentAppends, DotDotPops, DotStays and DotDotAtRoot below |
| Paths.NormalSegmentAppends | src/context.ts:35-36 | a segment that is neither empty, `.` nor `..` is appended to the normalised path |
| Paths.DotDotPops | src/context.ts:35-36 | a `..` removes the last segment the normalised path has reached, whatever segments led there |
| Paths.DotDotClimbs | src/context.ts:35-36 | a `..` removes the segment before it |
| Paths.DotStays | src/context.ts:35-36 | a `.` or empty segment changes nothing |
| Paths.DotDotAtRoot | src/context.ts:35-36 | a `..` at the root stays at the root |
| Paths.NormalizeNormal | src/context.ts:35-36 | normalising segments that are already normal changes nothing |
| Paths.SegmentsOfJoin | src/context.ts:35-36 | splitting a joined absolute path gives back its segments |
| Paths.DirSegments | src/context.ts:35 | the directory of an empty file name is the working directory, a relative file's directory lies under the working directory, and an absolute file's directory is all of its segments but the last (DirOfJoin) |
| Paths.DirOfJoin | src/context.ts:35 | `path.dirname` of an absolute file `/s1/…/sn/x` is `/s1/…/sn`, whatever the working directory |
| Paths.ResolveFrom | src/context.ts:35-36 | `path.resolve(path.dirname(file), p)` is an absolute path whose segments are the normalised segments of `p`, alone when `p` is absolute and otherwise on top of the file's directory |
| Paths.ResolveAbsolute | src/context.ts:35-36 | an absolute, already normal `p` resolves to itself whatever the file |
| Paths.IndexOf | src/context.ts:36 | finds the first occurrence of the separator at or after a position, or reports that none exists |
| Paths.SplitSecond | src/context.ts:36 | `s.split(sep)[1]` is defined exactly when `sep` occurs; it starts right after the first occurrence, no occurrence starts inside it, and it ends at the next occurrence or at the end of `s` |
| Paths.SplitSecondAfterPrefix | src/context.ts:36 | text made of `sep` and a tail without `sep` splits into that tail |
| Paths.SplitSecondBetween | src/context.ts:36 | text made of `sep`, a middle, `sep` again and any rest splits into that middle, provided no occurrence of `sep` starts inside the middle (the middle followed by all but the last character of `sep` holds no `sep`) |
| Rewrite.CompileTable | src/context.ts:92-95 | one entry per key, in key order, each holding the compiled source of that position; it fails only on a source that does not compile, and succeeds whenever all of them do |
| Rewrite.CompileTablePrefixFails | src/context.ts:92-95 | once a prefix of the table fails to compile, the whole table fails with the same error |
| Rewrite.BuildRegexTable | src/context.ts:92-95 | the loop of `transformerFactory` builds exactly the table compiled from the alias values, and stops at the first `new RegExp` that throws |
| Rewrite.AliasRegexesMeans | src/context.ts:92-95 | the table holds, in record order, each key with the pattern compiled from its value; it fails exactly when some value does not compile; no record gives an empty table |
| Rewrite.ReplacementText | src/context.ts:22 | `options.alias[key]` is the record's value for the key; a key the record lacks reads as "undefined" |
| Rewrite.ReplacementTextOfKey | src/context.ts:22 | with distinct keys, looking up the k-th key gives the k-th value |
| Rewrite.AliasMatch | src/context.ts:18-25 | the alias step gives no result exactly when no table entry tests true |
| Rewrite.AliasMatchFirst | src/context.ts:19-23 | the first entry in table order that tests true decides: the path with that pattern replaced by the entry's value |
| Rewrite.ProjectPath | src/context.ts:34-37 | the project rule's result is `project` followed by `split(baseUrl)[1]` of the resolved path, a piece without `baseUrl`, or by "undefined" when `baseUrl` does not occur |
| Rewrite.RewritePath | src/context.ts:12-40 | the result is the path itself, an alias match, the callback's answer or the project rule's result; with no alias, no callback and the project rule not applying, the path is unchanged (which rule wins is stated by AliasFirstMatchWins, CallbackPrecedence, ProjectRuleFires and NonRelativePassthrough) |
| Rewrite.AliasFirstMatchWins | src/context.ts:18-24 | with an alias record set, the first matching entry decides the result, and no other option field (callback, project, baseUrl) can change it |
| Rewrite.AliasMissFallsThrough | src/context.ts:18-27 | when no alias pattern matches, or no record is set, the result is as if no alias record existed |
| Rewrite.CallbackPrecedence | src/context.ts:27-32 | a non-empty callback answer is the result; an empty answer falls through as if there were no callback |
| Rewrite.ProjectRuleResult | src/context.ts:34-37 | for a relative path whose resolved form is `baseUrl` followed by a tail without `baseUrl`, the result is `project` + tail |
| Rewrite.ProjectRuleFires | src/context.ts:34-37 | when no alias pattern fires and the callback is absent or answers "", a path the project rule applies to gets the project rule's result |
| Rewrite.ProjectRuleCutsAtSecondBase | src/context.ts:36-37 | when the resolved path holds `baseUrl` a second time, the result is `project` + the text between the two occurrences, and the rest is dropped |
| Rewrite.ProjectRuleOutsideBase | src/context.ts:36-37 | when `baseUrl` does not occur in the resolved path, the result is `project` followed by "undefined" |
| Rewrite.NonRelativePassthrough | src/context.ts:34-39 | a path not starting with `.`, with no alias match and no callback answer, comes back unchanged whatever `project` and `baseUrl` are |
| Rewrite.ProjectRuleExample | src/context.ts:34-37 | `../c` in `/repo/src/a/b.ts` with baseUrl `/repo/src` and project `@lib` becomes `@lib/c` |
| Rewrite.AliasMatchSelfReplacement | src/context.ts:19-23 | when every entry's pattern is compiled from its own replacement text and that text is free of syntax characters, an alias match changes the path's letter case at most |
| Rewrite.AsWrittenAliasOnlyRecases | src/context.ts:92-95 | with the table compiled from the values, alias values free of syntax characters can never redirect a path: either the alias step does not fire, or it changes letter case only |
| Rewrite.AsWrittenAliasExample | src/context.ts:92-95 | as written, alias `^@app/` to `./src/` leaves `@app/utils/math` unchanged |
| Rewrite.IntendedAliasPrefix | src/context.ts:88-91 | with the table compiled from the keys, a first key `^prefix`, prefix free of syntax characters, turns a path starting with prefix into the value followed by the rest of the path |
| Rewrite.IntendedAliasExample | src/context.ts:88-91 | with the table compiled from the keys, `@app/utils/math` becomes `./src/utils/math` |
| Visitor.StripQuotes | src/context.ts:140-141 | `substr(1, length - 2)` drops exactly the first and last character; text shorter than two characters gives "" |
| Visitor.IsDynamicImport | src/context.ts:107-112 | a dynamic import is a call whose callee is the `import` keyword |
| Visitor.IsCandidate | src/context.ts:135-153 | the three candidate shapes: a declaration with a module specifier, a dynamic import, an import type whose argument is a literal type holding a string literal |
| Visitor.ExtractPath | src/context.ts:135-153 | a node other than the three candidate shapes has the empty path; the path is the specifier text without quotes for declarations, the first argument's text without quotes for a dynamic import, and the literal's value for import types; reading it fails exactly on a dynamic import without arguments |
| Visitor.WithPath | src/context.ts:159-176 | the rebuilt candidate carries the new path, is still a candidate, and differs from the original nowhere but in its path; a rewritten dynamic import has exactly one argument |
| Visitor.Visit | src/context.ts:124-180 | a non-candidate, and a candidate whose path is empty or unchanged by the rule, is rebuilt from its visited children; a candidate whose non-empty path the rule changes is replaced by the same node with the new path and its children are not visited; a dynamic import without arguments fails, and every failure comes from one |
| Visitor.VisitEachChild | src/context.ts:179 | a node is rebuilt with the same kind and text from its children's visits, in order, and fails exactly when one of those visits fails; the `import` keyword and string literals come back as they are |
| Visitor.VisitOption | src/context.ts:179 | an optional child stays present or absent, a present one is replaced by its visit, and the visit of the option fails exactly when the child's does |
| Visitor.VisitAll | src/context.ts:179 | a list of children is replaced, element by element and in order, by their visits; it fails exactly when some child's visit fails |
| Visitor.VisitStable | src/context.ts:155-179 | a tree in which no path changes comes back exactly as it went in |
| Visitor.VisitRelated | src/context.ts:159-179 | every node of the visited tree is either a candidate rebuilt with a different path, or the node it came from with the same kind and text and with as many children, each related in the same way, down to the leaves |
| Visitor.VisitLiteralType | src/context.ts:146-153 | a literal type holding a string literal is not itself a candidate and is left as it is |
| Diagnostics.AssertDiagnostics | src/index.ts:126-137 | prints exactly the diagnostics it is given, a single one wrapped in a list, and prints nothing for none or an empty list (also `CompilerContext.assertDiagnostics`, src/context.ts:55-70) |
| Diagnostics.Printed | src/index.ts:126-137 | `assertDiagnostics` writes one formatted batch of exactly the listed diagnostics, or nothing when there are none |
| Diagnostics.PrintSuppression | src/index.ts:113-120 | a warning with the count exactly when it is positive, "No Typescript errors found" exactly when it is 0, always followed by "Compilation completed successfully" |
| Diagnostics.SummaryStatesCount | src/index.ts:113-120 | the summary line states the count it was given |
| Diagnostics.OneShot | src/index.ts:198-207 | the printed batch is the pre-emit diagnostics plus, unless emission was skipped, the emit diagnostics; the two last lines are the summary `printSuppression` gives for that count, so "No Typescript errors found" exactly when it is 0 |
| Diagnostics.MergeArgs | src/index.ts:52-63 | only truthy `compiler`, `project` and `watch` are type-checked, in that order, and the first failing check gives its assertion message; after the checks, every supplied property overrides its default and every other default stays |
| Diagnostics.FalsyValueOverridesDefault | src/index.ts:54-63 | a falsy value of any type passes its check and, whenever the other options pass theirs, replaces the default |
| Diagnostics.EmptyArgsGiveDefaults | src/index.ts:45-63 | an empty options object yields exactly the defaults |
| Watch.CycleStart | src/index.ts:172-177 | the current cycle begins right after the last start status, and no start status follows it |
| Watch.BufferedStep | src/index.ts:166-186 | a start status empties what the buffer should hold; a reported diagnostic or the done status is appended; any other status changes nothing |
| Watch.CycleIsolation | src/index.ts:172-177 | nothing that came before a start status affects the buffer afterwards |
| Watch.DoneCountsCycle | src/index.ts:178-183 | a done status counts the diagnostics kept since the last start plus itself, so the count is at least 1 |
| Watch.SecondDoneRecounts | src/index.ts:178-183 | for [start, A, done, B, done] the buffer at the second done holds A, the first done, B and the second done: a done status does not empty it |
| Watch.WatchSession.constructor | src/index.ts:160 | the buffer starts empty, with no callback seen |
| Watch.WatchSession.OnDiagnostic | src/index.ts:166-169 | every reported diagnostic is appended to the buffer, and the buffer still holds exactly the diagnostics kept since the last start |
| Watch.WatchSession.OnStatus | src/index.ts:170-186 | 6031/6032 empty the buffer and print the status alone; 6194 joins the buffer, which is printed, counted and followed by the watching notice; any other code changes nothing and prints nothing; "No Typescript errors found" is never printed |
| Watch.StartWatch | src/index.ts:156-160 | the configuration errors are printed, when there are any, before an empty session starts |
| Watch.RunCycle | src/index.ts:166-185 | a cycle of start, `ds` and done prints and counts exactly `ds` and the done status, whatever the session held before |
| Watch.TwoCycles | src/index.ts:166-185 | for [start, A, B, done, start, C, done], the summaries report 3 and then 2 diagnostics, with no leakage between cycles |

## Left out

- The command line (`minimist`), the help text and `process.exit` are not modelled. Neither is loading and checking the compiler module. All of these are I/O or foreign code.
- Reading and parsing `tsconfig.json` is not modelled. The configuration errors are a parameter of `Watch.StartWatch`, and the pre-emit diagnostics are a parameter of `Diagnostics.OneShot`.
- The TypeScript compiler API is replaced by values: `createProgram`, `emit`, the watch host, `visitNode`/`visitEachChild`, `getText`, the node factory and `formatDiagnosticsWithColorAndContext`. A formatted batch is the `Formatted` output holding the batch.
- Colours, the clear-screen escape written on a start status, the banner lines and the `noEmitOnError` warning are console output only.
- `Pattern.Compile` and `Pattern.ParseAtoms` refuse, with an `Unsupported` error, the regular-expression syntax beyond the fragment above: classes, groups, quantifiers, alternation, a `$` anchor, a `^` that is not leading, and escaped letters or digits. JavaScript gives these their own meaning, so an alias table holding such a pattern fails to build in the model where `transformerFactory` succeeds. `$` substitutions in replacement text are not modelled either.
- `Visitor.WithPath` and `Visitor.Visit` build the rewritten node that src/context.ts:163-175 evidently intend. As written, src/context.ts:3 imports `ts` with `import type`, so the binding is erased from the emitted JavaScript. The factory calls `ts.createLiteral`, `ts.createNodeArray`, `ts.createStringLiteral` and `ts.createLiteralTypeNode` at src/context.ts:168, 171 and 174 then name nothing, and every rewrite that changes a path would throw a `ReferenceError`.
- Strings are sequences of Unicode scalar values, not of UTF-16 code units. A character outside the Basic Multilingual Plane is one `char` here but two code units in JavaScript, so `.`, `length` and `substr` can differ on such text: `a.b` matches "a😀b" in the model but not in JavaScript.
- Letter-case folding is ASCII only. JavaScript's `i` flag also folds other scripts.
- `path.resolve` is a segment normaliser with the working directory as a parameter. Windows paths and trailing-separator details are not modelled.
- Alias records are ordered lists of key/value pairs. JavaScript enumerates integer-like keys before the others, and that reordering is not modelled.
- `Diagnostics.MergeArgs`: numbers are integers, so `NaN` and its falsiness are not modelled. When no options object is passed, the command line is used instead, and that case is left out with the command line.
- Visitor nodes hold their source text and decoded value directly. A new literal's text is the path in double quotes, and escaping inside it is not modelled.
- Re-rewriting an already rewritten path (idempotence of the rule) is not stated. It depends on the alias table and the callback, and the code promises nothing about it.

## Findings

| source | as written | input that shows it | evidently intended | confidence | as-written member | corrected member |
|---|---|---|---|---|---|---|
| src/context.ts:92-95 | the pattern under each alias key is compiled from the alias VALUE, and the value is also the replacement | alias `{"^@app/": "./src/"}`, path `@app/utils/math`: the pattern `./src/` does not match, so the path comes back unchanged | compile the KEY as the pattern, as the commented-out construction at src/context.ts:88-91 does; the path becomes `./src/utils/math` | not executed | Rewrite.AsWrittenAliasExample | Rewrite.IntendedAliasExample |
