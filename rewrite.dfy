/**
 * The module-path rewrite rule of the transformer (`rewritePath` in
 * src/context.ts) and the alias pattern table its factory builds.
 *
 * Precedence, first applicable wins: an alias pattern that matches, then a
 * non-empty answer of the user's `rewrite` callback, then the project rule
 * for paths starting with `.`, and otherwise the path unchanged.
 */
module Rewrite {
  import opened Wrappers
  import opened Pattern
  import opened Paths

  /** An alias record: its keys in their enumeration order, with their values. */
  type AliasRecord = seq<(string, string)>

  /** `TransformOptions`; an absent `project` or `alias` is `None`. */
  datatype TransformOptions = TransformOptions(
    baseUrl: string,
    project: Option<string>,
    rewrite: Option<(string, string) -> string>,
    alias: Option<AliasRecord>)

  /** One entry of the pattern table: the alias key and the pattern stored under it. */
  datatype Entry = Entry(key: string, regex: Regex)

  function Keys(alias: AliasRecord): (r: seq<string>)
    ensures |r| == |alias| && forall k :: 0 <= k < |alias| ==> r[k] == alias[k].0
  {
    seq(|alias|, k requires 0 <= k < |alias| => alias[k].0)
  }

  function Values(alias: AliasRecord): (r: seq<string>)
    ensures |r| == |alias| && forall k :: 0 <= k < |alias| ==> r[k] == alias[k].1
  {
    seq(|alias|, k requires 0 <= k < |alias| => alias[k].1)
  }

  /**
   * Compiles `sources[k]` with flags `gi` and files it under `keys[k]`, in
   * order; the first source that does not compile makes the whole table fail.
   */
  function CompileTable(keys: seq<string>, sources: seq<string>): (r: Result<seq<Entry>, CompileError>)
    requires |keys| == |sources|
    decreases |keys|
    ensures r.Success? ==> |r.value| == |keys|
    ensures r.Success? ==> forall k :: 0 <= k < |keys| ==>
              r.value[k].key == keys[k] && Compile(sources[k]) == Success(r.value[k].regex)
    ensures r.Failure? ==> exists k :: 0 <= k < |sources| && Compile(sources[k]) == Failure(r.error)
    ensures (forall k :: 0 <= k < |sources| ==> Compile(sources[k]).Success?) ==> r.Success?
  {
    if keys == [] then Success([])
    else
      var n := |keys| - 1;
      var init :- CompileTable(keys[..n], sources[..n]);
      var re :- Compile(sources[n]);
      Success(init + [Entry(keys[n], re)])
  }

  /**
   * The table `transformerFactory` builds, as written: under each alias key,
   * the pattern compiled from that key's VALUE. An absent alias gives no entries.
   */
  function AliasRegexes(alias: Option<AliasRecord>): Result<seq<Entry>, CompileError>
  {
    var record := if alias.Some? then alias.value else [];
    CompileTable(Keys(record), Values(record))
  }

  /**
   * The table built from a record holds, in the record's order, each key
   * with the pattern its value compiles to; it fails exactly when some
   * value does not compile.
   */
  lemma AliasRegexesMeans(alias: AliasRecord)
    ensures AliasRegexes(Some(alias)).Success? ==>
              |AliasRegexes(Some(alias)).value| == |alias| &&
              forall k :: 0 <= k < |alias| ==>
                AliasRegexes(Some(alias)).value[k].key == alias[k].0 &&
                Compile(alias[k].1) == Success(AliasRegexes(Some(alias)).value[k].regex)
    ensures AliasRegexes(Some(alias)).Failure? <==> exists k :: 0 <= k < |alias| && Compile(alias[k].1).Failure?
    ensures AliasRegexes(None) == Success([])
  {
  }

  /** The table the commented-out construction describes: each KEY compiled as the pattern. */
  function IntendedAliasRegexes(alias: Option<AliasRecord>): Result<seq<Entry>, CompileError>
  {
    var record := if alias.Some? then alias.value else [];
    CompileTable(Keys(record), Keys(record))
  }

  lemma {:induction false} CompileTablePrefixFails(keys: seq<string>, sources: seq<string>, i: nat)
    requires |keys| == |sources| && i <= |keys|
    requires CompileTable(keys[..i], sources[..i]).Failure?
    decreases |keys| - i
    ensures CompileTable(keys, sources) == CompileTable(keys[..i], sources[..i])
  {
    if i < |keys| {
      assert keys[..i + 1][..i] == keys[..i] && sources[..i + 1][..i] == sources[..i];
      CompileTablePrefixFails(keys, sources, i + 1);
    } else {
      assert keys[..i] == keys && sources[..i] == sources;
    }
  }

  /** The loop of `transformerFactory` that fills the pattern table. */
  method BuildRegexTable(alias: Option<AliasRecord>) returns (r: Result<seq<Entry>, CompileError>)
    ensures r == AliasRegexes(alias)
  {
    var record := if alias.Some? then alias.value else [];
    var keys, values := Keys(record), Values(record);
    var table: seq<Entry> := [];
    var i := 0;
    while i < |record|
      invariant 0 <= i <= |record|
      invariant CompileTable(keys[..i], values[..i]) == Success(table)
    {
      var re := Compile(record[i].1);
      assert keys[..i + 1][..i] == keys[..i] && values[..i + 1][..i] == values[..i];
      if re.Failure? {
        CompileTablePrefixFails(keys, values, i + 1);
        return Failure(re.error);
      }
      table := table + [Entry(record[i].0, re.value)];
      i := i + 1;
    }
    assert keys[..i] == keys && values[..i] == values;
    return Success(table);
  }

  /** `options.alias[key]` as a replacement string: an absent key reads as "undefined". */
  function ReplacementText(alias: AliasRecord, key: string): (r: string)
    ensures (exists k :: 0 <= k < |alias| && alias[k].0 == key) || r == "undefined"
  {
    if alias == [] then "undefined"
    else if alias[0].0 == key then alias[0].1
    else ReplacementText(alias[1..], key)
  }

  /** The alias loop of `rewritePath`: the first entry whose pattern tests true rewrites. */
  function AliasMatch(path: string, alias: AliasRecord, table: seq<Entry>): (r: Option<string>)
    ensures r.None? <==> forall k :: 0 <= k < |table| ==> !Test(table[k].regex, path)
  {
    if table == [] then None
    else if Test(table[0].regex, path) then
      Some(ReplaceAll(table[0].regex, path, ReplacementText(alias, table[0].key)))
    else
      var r := AliasMatch(path, alias, table[1..]);
      assert forall k :: 1 <= k < |table| ==> table[k] == table[1..][k - 1];
      r
  }

  /** The project rule's guard: `project` and `baseUrl` set and the path starts with `.`. */
  predicate ProjectRuleApplies(path: string, options: TransformOptions)
  {
    options.project.Some? && options.project.value != "" && options.baseUrl != "" &&
    |path| > 0 && path[0] == '.'
  }

  /**
   * The project rule: `project` followed by the text between the first and
   * second occurrence of `baseUrl` in the resolved path, or by "undefined"
   * when `baseUrl` does not occur in it.
   */
  function ProjectPath(path: string, fileName: string, cwd: string, options: TransformOptions): (r: string)
    requires ProjectRuleApplies(path, options)
    ensures |options.project.value| <= |r| && r[..|options.project.value|] == options.project.value
    ensures !Occurs(ResolveFrom(cwd, fileName, path), options.baseUrl) ==> r[|options.project.value|..] == "undefined"
    ensures Occurs(ResolveFrom(cwd, fileName, path), options.baseUrl) ==>
              SplitSecond(ResolveFrom(cwd, fileName, path), options.baseUrl) == Some(r[|options.project.value|..]) &&
              !Occurs(r[|options.project.value|..], options.baseUrl)
  {
    var found := SplitSecond(ResolveFrom(cwd, fileName, path), options.baseUrl);
    var piece := if found.Some? then found.value else "undefined";
    var r := options.project.value + piece;
    assert r[..|options.project.value|] == options.project.value && r[|options.project.value|..] == piece;
    r
  }

  /**
   * `rewritePath(importPath, sourceFile, options, regexps)`, with the source
   * file's name and the working directory `path.resolve` reads. Only the
   * four rules can change the path: an alias match, a non-empty callback
   * answer, or the project rule.
   */
  function RewritePath(path: string, fileName: string, cwd: string, options: TransformOptions, table: seq<Entry>): (r: string)
    ensures r == path ||
            (options.alias.Some? && AliasMatch(path, options.alias.value, table) == Some(r)) ||
            (options.rewrite.Some? && options.rewrite.value(path, fileName) == r) ||
            (ProjectRuleApplies(path, options) && r == ProjectPath(path, fileName, cwd, options))
    ensures options.alias.None? && options.rewrite.None? && !ProjectRuleApplies(path, options) ==> r == path
  {
    var aliased := if options.alias.Some? then AliasMatch(path, options.alias.value, table) else None;
    if aliased.Some? then aliased.value
    else if options.rewrite.Some? && options.rewrite.value(path, fileName) != "" then
      options.rewrite.value(path, fileName)
    else if ProjectRuleApplies(path, options) then ProjectPath(path, fileName, cwd, options)
    else path
  }

  /** What `rewritePath` does once no alias pattern has matched. */
  function WithoutAlias(options: TransformOptions): TransformOptions
  {
    options.(alias := None)
  }

  lemma {:induction false} AliasMatchFirst(path: string, alias: AliasRecord, table: seq<Entry>, i: nat)
    requires i < |table| && Test(table[i].regex, path)
    requires forall j :: 0 <= j < i ==> !Test(table[j].regex, path)
    ensures AliasMatch(path, alias, table) == Some(ReplaceAll(table[i].regex, path, ReplacementText(alias, table[i].key)))
  {
    if i > 0 {
      assert !Test(table[0].regex, path);
      assert forall j :: 0 <= j < i - 1 ==> table[1..][j] == table[j + 1];
      AliasMatchFirst(path, alias, table[1..], i - 1);
    }
  }

  /**
   * With an alias record set, the first table entry whose pattern tests true
   * decides the result: its pattern replaced, globally, by the record's value
   * for that key. The callback, `project` and `baseUrl` play no part.
   */
  lemma AliasFirstMatchWins(path: string, fileName: string, cwd: string, options: TransformOptions, table: seq<Entry>, i: nat)
    requires options.alias.Some?
    requires i < |table| && Test(table[i].regex, path)
    requires forall j :: 0 <= j < i ==> !Test(table[j].regex, path)
    ensures RewritePath(path, fileName, cwd, options, table) ==
              ReplaceAll(table[i].regex, path, ReplacementText(options.alias.value, table[i].key))
    ensures forall other: TransformOptions :: other.alias == options.alias ==>
              RewritePath(path, fileName, cwd, other, table) == RewritePath(path, fileName, cwd, options, table)
  {
    AliasMatchFirst(path, options.alias.value, table, i);
  }

  /** When no alias pattern matches (or no record is set), the alias step is skipped. */
  lemma AliasMissFallsThrough(path: string, fileName: string, cwd: string, options: TransformOptions, table: seq<Entry>)
    requires options.alias.None? || forall k :: 0 <= k < |table| ==> !Test(table[k].regex, path)
    ensures RewritePath(path, fileName, cwd, options, table) == RewritePath(path, fileName, cwd, WithoutAlias(options), table)
  {
  }

  /**
   * Without an alias match, a non-empty callback answer is the result; an
   * empty one counts as no answer and the later rules decide.
   */
  lemma CallbackPrecedence(path: string, fileName: string, cwd: string, options: TransformOptions, table: seq<Entry>,
                           callback: (string, string) -> string)
    requires options.alias.None? && options.rewrite == Some(callback)
    ensures callback(path, fileName) != "" ==> RewritePath(path, fileName, cwd, options, table) == callback(path, fileName)
    ensures callback(path, fileName) == "" ==>
              RewritePath(path, fileName, cwd, options, table) == RewritePath(path, fileName, cwd, options.(rewrite := None), table)
  {
  }

  /**
   * Without alias or callback, a path starting with `.` under a set `project`
   * and `baseUrl` becomes `project` + the piece of its resolved form after
   * `baseUrl`; when the resolved form is `baseUrl` followed by a tail that
   * does not repeat `baseUrl`, that piece is the whole tail.
   */
  lemma ProjectRuleResult(path: string, fileName: string, cwd: string, options: TransformOptions, table: seq<Entry>, tail: string)
    requires options.alias.None? && options.rewrite.None?
    requires ProjectRuleApplies(path, options)
    requires ResolveFrom(cwd, fileName, path) == options.baseUrl + tail
    requires !Occurs(tail, options.baseUrl)
    ensures RewritePath(path, fileName, cwd, options, table) == options.project.value + tail
  {
    SplitSecondAfterPrefix(options.baseUrl, tail);
  }

  /** The project rule never touches a path that does not start with `.`. */
  lemma NonRelativePassthrough(path: string, fileName: string, cwd: string, options: TransformOptions, table: seq<Entry>)
    requires path == [] || path[0] != '.'
    requires options.alias.None? || forall k :: 0 <= k < |table| ==> !Test(table[k].regex, path)
    requires options.rewrite.None? || options.rewrite.value(path, fileName) == ""
    ensures RewritePath(path, fileName, cwd, options, table) == path
  {
  }

  /**
   * When the resolved path holds `baseUrl` a second time, the piece stops
   * there: `project` + the text between the two occurrences, and whatever
   * follows the second occurrence is dropped.
   */
  lemma ProjectRuleCutsAtSecondBase(path: string, fileName: string, cwd: string, options: TransformOptions, table: seq<Entry>,
                                    mid: string, post: string)
    requires options.alias.None? && options.rewrite.None?
    requires ProjectRuleApplies(path, options)
    requires ResolveFrom(cwd, fileName, path) == options.baseUrl + mid + options.baseUrl + post
    requires !Occurs(mid + options.baseUrl[..|options.baseUrl| - 1], options.baseUrl)
    ensures RewritePath(path, fileName, cwd, options, table) == options.project.value + mid
  {
    SplitSecondBetween(options.baseUrl, mid, post);
  }

  /**
   * When no alias pattern fires and the callback is absent or answers "",
   * a path the project rule applies to gets the project rule's result.
   */
  lemma ProjectRuleFires(path: string, fileName: string, cwd: string, options: TransformOptions, table: seq<Entry>)
    requires options.alias.None? || forall k :: 0 <= k < |table| ==> !Test(table[k].regex, path)
    requires options.rewrite.None? || options.rewrite.value(path, fileName) == ""
    requires ProjectRuleApplies(path, options)
    ensures RewritePath(path, fileName, cwd, options, table) == ProjectPath(path, fileName, cwd, options)
  {
  }

  /** A relative path outside `baseUrl` gets the text "undefined" after the project prefix. */
  lemma ProjectRuleOutsideBase(path: string, fileName: string, cwd: string, options: TransformOptions, table: seq<Entry>)
    requires options.alias.None? && options.rewrite.None?
    requires ProjectRuleApplies(path, options)
    requires !Occurs(ResolveFrom(cwd, fileName, path), options.baseUrl)
    ensures RewritePath(path, fileName, cwd, options, table) == options.project.value + "undefined"
  {
  }

  lemma ExampleFileSegments()
    ensures Segments("/repo/src/a/b.ts") == ["repo", "src", "a", "b.ts"]
  {
    var file := ["repo", "src", "a", "b.ts"];
    assert file[..1] == ["repo"] && file[..2][..1] == ["repo"] && file[..3][..2] == file[..2];
    assert Join(file[..1]) == "/repo";
    assert Join(file[..2]) == "/repo/src";
    assert Join(file[..3]) == "/repo/src/a";
    assert Join(file) == "/repo/src/a/b.ts";
    SegmentsOfJoin(file);
  }

  lemma ExampleImportSegments()
    ensures Segments("../c") == ["..", "c"]
  {
    assert Join(["..", "c"]) == "/../c";
    SegmentsOfJoin(["..", "c"]);
    assert Segments("../c") == Segments("/../c");
  }

  lemma ExampleNormalize()
    ensures Normalize(["repo", "src", "a", "..", "c"]) == ["repo", "src", "c"]
  {
    var segs := ["repo", "src", "a", "..", "c"];
    assert segs[..4][..3] == segs[..3] && segs[..3][..2] == segs[..2] && segs[..2][..1] == segs[..1];
    assert Normalize(segs[..1]) == ["repo"];
    assert Normalize(segs[..3]) == ["repo", "src", "a"];
  }

  lemma ExampleJoin()
    ensures Join(["repo", "src", "c"]) == "/repo/src" + "/c"
  {
  }

  lemma ExampleResolve(cwd: string)
    ensures ResolveFrom(cwd, "/repo/src/a/b.ts", "../c") == "/repo/src" + "/c"
  {
    ExampleDir(cwd);
    ExampleImportSegments();
    assert !IsAbsolute("../c");
    assert ["repo", "src", "a"] + ["..", "c"] == ["repo", "src", "a", "..", "c"];
    ExampleNormalize();
    ExampleJoin();
  }

  lemma ExampleDir(cwd: string)
    ensures DirSegments(cwd, "/repo/src/a/b.ts") == ["repo", "src", "a"]
  {
    var fileName := "/repo/src/a/b.ts";
    assert IsAbsolute(fileName);
    ExampleFileSegments();
    var fileSegs := Segments(fileName);
    assert fileSegs[..|fileSegs| - 1] == ["repo", "src", "a"];
    assert [] + ["repo", "src", "a"] == ["repo", "src", "a"];
  }

  /** The base-directory example: `../c` in `/repo/src/a/b.ts` under `/repo/src` and `@lib`. */
  lemma ProjectRuleExample(cwd: string, table: seq<Entry>)
    ensures RewritePath("../c", "/repo/src/a/b.ts", cwd, TransformOptions("/repo/src", Some("@lib"), None, None), table) == "@lib/c"
  {
    ExampleResolve(cwd);
    assert !Occurs("/c", "/repo/src");
    ProjectRuleResult("../c", "/repo/src/a/b.ts", cwd, TransformOptions("/repo/src", Some("@lib"), None, None), table, "/c");
  }

  /** The keys of a JavaScript record are distinct. */
  predicate DistinctKeys(alias: AliasRecord)
  {
    forall i, j :: 0 <= i < j < |alias| ==> alias[i].0 != alias[j].0
  }

  lemma {:induction false} ReplacementTextOfKey(alias: AliasRecord, k: nat)
    requires DistinctKeys(alias) && k < |alias|
    ensures ReplacementText(alias, alias[k].0) == alias[k].1
  {
    if k > 0 {
      assert alias[0].0 != alias[k].0;
      assert alias[1..][k - 1] == alias[k];
      ReplacementTextOfKey(alias[1..], k - 1);
    }
  }

  lemma {:induction false} AliasMatchSelfReplacement(path: string, alias: AliasRecord, table: seq<Entry>)
    requires forall k :: 0 <= k < |table| ==>
               IsPlain(ReplacementText(alias, table[k].key)) &&
               Compile(ReplacementText(alias, table[k].key)) == Success(table[k].regex)
    ensures AliasMatch(path, alias, table).Some? ==> Fold(AliasMatch(path, alias, table).value) == Fold(path)
  {
    if table != [] {
      if Test(table[0].regex, path) {
        ReplaceBySelfOnlyRecases(ReplacementText(alias, table[0].key), path);
      } else {
        assert forall k :: 0 <= k < |table| - 1 ==> table[1..][k] == table[k + 1];
        AliasMatchSelfReplacement(path, alias, table[1..]);
      }
    }
  }

  /**
   * As written, the pattern stored under each key is compiled from that key's
   * value, and the value is also the replacement text. With values free of
   * regular-expression syntax characters, the alias step then either does not fire or
   * hands back the path with at most the letter case of some parts changed.
   */
  lemma AsWrittenAliasOnlyRecases(path: string, fileName: string, cwd: string, options: TransformOptions, table: seq<Entry>)
    requires options.alias.Some? && DistinctKeys(options.alias.value)
    requires forall k :: 0 <= k < |options.alias.value| ==> IsPlain(options.alias.value[k].1)
    requires AliasRegexes(options.alias) == Success(table)
    ensures RewritePath(path, fileName, cwd, options, table) == RewritePath(path, fileName, cwd, WithoutAlias(options), table) ||
            Fold(RewritePath(path, fileName, cwd, options, table)) == Fold(path)
  {
    var alias := options.alias.value;
    forall k | 0 <= k < |table|
      ensures IsPlain(ReplacementText(alias, table[k].key))
      ensures Compile(ReplacementText(alias, table[k].key)) == Success(table[k].regex)
    {
      ReplacementTextOfKey(alias, k);
    }
    AliasMatchSelfReplacement(path, alias, table);
  }

  /** The alias record of the end-to-end example: `^@app/` to `./src/`. */
  function ExampleAlias(): AliasRecord
  {
    [("^@app/", "./src/")]
  }

  function ExampleOptions(): TransformOptions
  {
    TransformOptions("", None, None, Some(ExampleAlias()))
  }

  lemma ExampleValuePattern()
    ensures Compile("./src/") == Success(Regex(false, [AnyChar, Literal('/'), Literal('s'), Literal('r'), Literal('c'), Literal('/')]))
  {
    var rest := "/src/";
    assert forall k :: 0 <= k < |rest| ==> !IsSyntaxChar(rest[k]);
    var lits := seq(|rest|, k requires 0 <= k < |rest| => Literal(rest[k]));
    assert ParseAtoms(rest) == Success(lits);
    assert lits == [Literal('/'), Literal('s'), Literal('r'), Literal('c'), Literal('/')];
    var src := "./src/";
    assert src[1..] == rest && src[0] == '.' && |src| > 0;
    assert ParseAtoms(src) == Success([AnyChar] + lits);
    assert [AnyChar] + lits == [AnyChar, Literal('/'), Literal('s'), Literal('r'), Literal('c'), Literal('/')];
  }

  /** As written, the example path does not match the value's pattern and comes back unchanged. */
  lemma AsWrittenAliasExample(fileName: string, cwd: string)
    ensures AliasRegexes(Some(ExampleAlias())).Success?
    ensures RewritePath("@app/utils/math", fileName, cwd, ExampleOptions(), AliasRegexes(Some(ExampleAlias())).value) == "@app/utils/math"
  {
    ExampleValuePattern();
    var re := Regex(false, [AnyChar, Literal('/'), Literal('s'), Literal('r'), Literal('c'), Literal('/')]);
    var path := "@app/utils/math";
    ExampleValueMissesPath(re, path);
    var table := AliasRegexes(Some(ExampleAlias())).value;
    assert |table| == 1 && table[0].regex == re;
    AliasMissFallsThrough(path, fileName, cwd, ExampleOptions(), table);
    NonRelativePassthrough(path, fileName, cwd, ExampleOptions(), table);
  }

  lemma ExampleValueMissesPath(re: Regex, path: string)
    requires re == Regex(false, [AnyChar, Literal('/'), Literal('s'), Literal('r'), Literal('c'), Literal('/')])
    requires path == "@app/utils/math"
    ensures !Test(re, path)
  {
  }

  /**
   * With the table built from the keys, an alias whose key is `^` followed by
   * a plain prefix rewrites every path that starts with that prefix: the
   * prefix gives way to the alias's value.
   */
  lemma IntendedAliasPrefix(path: string, fileName: string, cwd: string, options: TransformOptions, table: seq<Entry>, prefix: string)
    requires options.alias.Some? && |options.alias.value| > 0
    requires options.alias.value[0].0 == "^" + prefix && IsPlain(prefix) && |prefix| > 0
    requires IntendedAliasRegexes(options.alias) == Success(table)
    requires |prefix| <= |path| && path[..|prefix|] == prefix
    ensures RewritePath(path, fileName, cwd, options, table) == options.alias.value[0].1 + path[|prefix|..]
  {
    var key := "^" + prefix;
    assert key[1..] == prefix;
    var re := Regex(true, seq(|prefix|, k requires 0 <= k < |prefix| => Literal(prefix[k])));
    assert Compile(key) == Success(re);
    assert table[0].regex == re;
    AtomsMatchFromMeans(re.atoms, 0, path, 0);
    assert forall m :: 0 <= m < |prefix| ==> path[m] == prefix[m];
    assert MatchesAt(re, path, 0);
    AnchoredReplace(re, path, options.alias.value[0].1);
    AliasMatchFirst(path, options.alias.value, table, 0);
  }

  lemma IntendedExampleTable()
    ensures IntendedAliasRegexes(Some(ExampleAlias())) ==
              Success([Entry("^@app/", Regex(true, [Literal('@'), Literal('a'), Literal('p'), Literal('p'), Literal('/')]))])
  {
    var prefix := "@app/";
    assert forall k :: 0 <= k < |prefix| ==> !IsSyntaxChar(prefix[k]);
    assert "^@app/"[1..] == prefix;
    var re := Regex(true, seq(5, k requires 0 <= k < 5 => Literal(prefix[k])));
    assert Compile("^@app/") == Success(re);
    assert re.atoms == [Literal('@'), Literal('a'), Literal('p'), Literal('p'), Literal('/')];
    var keys := Keys(ExampleAlias());
    assert keys == ["^@app/"];
    assert keys[..0] == [];
    assert CompileTable(keys[..0], keys[..0]) == Success([]);
    assert keys[0] == "^@app/" && |keys| == 1;
    assert CompileTable(keys, keys) == Success([] + [Entry("^@app/", re)]);
    assert re == Regex(true, [Literal('@'), Literal('a'), Literal('p'), Literal('p'), Literal('/')]);
    assert [] + [Entry("^@app/", re)] == [Entry("^@app/", re)];
    assert IntendedAliasRegexes(Some(ExampleAlias())) == CompileTable(keys, keys);
  }

  lemma ExamplePathFacts()
    ensures "^@app/" == "^" + "@app/" && IsPlain("@app/")
    ensures "@app/utils/math"[..5] == "@app/"
    ensures "./src/" + "@app/utils/math"[5..] == "./src/utils/math"
  {
  }

  /** With the table built from the keys, the example path becomes `./src/utils/math`. */
  lemma IntendedAliasExample(fileName: string, cwd: string)
    ensures IntendedAliasRegexes(Some(ExampleAlias())).Success?
    ensures RewritePath("@app/utils/math", fileName, cwd, ExampleOptions(), IntendedAliasRegexes(Some(ExampleAlias())).value) == "./src/utils/math"
  {
    IntendedExampleTable();
    ExamplePathFacts();
    IntendedAliasPrefix("@app/utils/math", fileName, cwd, ExampleOptions(), IntendedAliasRegexes(Some(ExampleAlias())).value, "@app/");
  }
}
