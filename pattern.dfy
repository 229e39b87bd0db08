/**
 * The alias patterns of the path rewriter are JavaScript regular expressions
 * built with `new RegExp(source, 'gi')` and used through `test` and a global
 * `replace`. This module models the fragment of that regular-expression
 * language the alias tables are written in: an optional leading `^` anchor,
 * `.` (any character but a line terminator), `\x` for a character x that is
 * not an ASCII letter or digit (x itself), and every character that is not
 * one of JavaScript's syntax characters standing for itself. Any other
 * syntax character, and an escaped letter or digit (a class, an assertion
 * or a back-reference in JavaScript), is refused as unsupported rather than
 * read as a literal. Matching ignores ASCII letter case (the `i` flag);
 * replacement is global (the `g` flag).
 */
module Pattern {
  import opened Wrappers

  /** One position of a compiled pattern: it always consumes one character. */
  datatype Atom = AnyChar | Literal(c: char)

  /** A compiled pattern: whether it is anchored at the start, and its atoms. */
  datatype Regex = Regex(anchored: bool, atoms: seq<Atom>)

  /**
   * `new RegExp` throws a SyntaxError for a pattern ending in a lone `\`;
   * `Unsupported` marks syntax outside the modelled fragment.
   */
  datatype CompileError = TrailingBackslash | Unsupported(c: char)

  /** JavaScript's SyntaxCharacter: `^ $ \ . * + ? ( ) [ ] { } |`. */
  predicate IsSyntaxChar(c: char)
  {
    c == '^' || c == '$' || c == '\\' || c == '.' || c == '*' || c == '+' || c == '?' ||
    c == '(' || c == ')' || c == '[' || c == ']' || c == '{' || c == '}' || c == '|'
  }

  /** After a `\`, these begin a class, an assertion, a control or a back-reference. */
  predicate IsAsciiAlphanumeric(c: char)
  {
    'a' <= c <= 'z' || 'A' <= c <= 'Z' || '0' <= c <= '9'
  }

  /** ASCII case folding, the part of the `i` flag this model keeps. */
  function Lower(c: char): char
  {
    if 'A' <= c <= 'Z' then (c as int + 32) as char else c
  }

  function Fold(s: string): (r: string)
    ensures |r| == |s|
  {
    seq(|s|, k requires 0 <= k < |s| => Lower(s[k]))
  }

  /** The four characters `.` does not match when the `s` flag is absent. */
  predicate IsLineTerminator(c: char)
  {
    c == '\n' || c == '\r' || c == '\U{2028}' || c == '\U{2029}'
  }

  predicate AtomMatches(a: Atom, c: char)
  {
    match a
    case AnyChar => !IsLineTerminator(c)
    case Literal(x) => Lower(x) == Lower(c)
  }

  /** A pattern source without any syntax character: it stands for itself. */
  predicate IsPlain(src: string)
  {
    forall k :: 0 <= k < |src| ==> !IsSyntaxChar(src[k])
  }

  /** The atom a character outside an escape stands for, when it is one. */
  function AtomOf(c: char): Atom
  {
    if c == '.' then AnyChar else Literal(c)
  }

  /** Every character a plain atom or a `.`: no escape, anchor or operator. */
  predicate IsDotted(src: string)
  {
    forall k :: 0 <= k < |src| ==> src[k] == '.' || !IsSyntaxChar(src[k])
  }

  /** A `\` that ends `src` and is not itself escaped by the character before it. */
  predicate EndsInLoneBackslash(src: string)
  {
    |src| > 0 && src[|src| - 1] == '\\' && (|src| == 1 || src[|src| - 2] != '\\')
  }

  function ParseAtoms(src: string): (r: Result<seq<Atom>, CompileError>)
    ensures r.Success? ==> |r.value| <= |src|
    ensures IsDotted(src) ==> r == Success(seq(|src|, k requires 0 <= k < |src| => AtomOf(src[k])))
    ensures IsPlain(src) ==> r == Success(seq(|src|, k requires 0 <= k < |src| => Literal(src[k])))
    ensures EndsInLoneBackslash(src) ==> r.Failure?
    ensures |src| >= 2 && src[0] == '\\' && !IsAsciiAlphanumeric(src[1]) && ParseAtoms(src[2..]).Success? ==>
              r == Success([Literal(src[1])] + ParseAtoms(src[2..]).value)
    ensures |src| > 0 && src[0] != '.' && IsSyntaxChar(src[0]) && src[0] != '\\' ==> r == Failure(Unsupported(src[0]))
    ensures |src| >= 2 && src[0] == '\\' && IsAsciiAlphanumeric(src[1]) ==> r == Failure(Unsupported(src[1]))
  {
    if src == [] then
      assert seq(|src|, k requires 0 <= k < |src| => AtomOf(src[k])) == [];
      assert seq(|src|, k requires 0 <= k < |src| => Literal(src[k])) == [];
      Success([])
    else if src[0] == '\\' then
      if |src| == 1 then Failure(TrailingBackslash)
      else if IsAsciiAlphanumeric(src[1]) then Failure(Unsupported(src[1]))
      else
        assert EndsInLoneBackslash(src) ==> |src| > 2 && EndsInLoneBackslash(src[2..]);
        var rest :- ParseAtoms(src[2..]);
        Success([Literal(src[1])] + rest)
    else if src[0] != '.' && IsSyntaxChar(src[0]) then Failure(Unsupported(src[0]))
    else
      assert EndsInLoneBackslash(src) ==> EndsInLoneBackslash(src[1..]);
      var rest :- ParseAtoms(src[1..]);
      DottedCons(src, rest);
      Success([AtomOf(src[0])] + rest)
  }

  /** The step of `ParseAtoms` on a dotted source: one more atom in front. */
  lemma DottedCons(src: string, rest: seq<Atom>)
    requires |src| > 0
    ensures IsDotted(src) && rest == seq(|src| - 1, k requires 0 <= k < |src| - 1 => AtomOf(src[1..][k])) ==>
              [AtomOf(src[0])] + rest == seq(|src|, k requires 0 <= k < |src| => AtomOf(src[k]))
    ensures IsPlain(src) ==>
              seq(|src|, k requires 0 <= k < |src| => AtomOf(src[k])) == seq(|src|, k requires 0 <= k < |src| => Literal(src[k]))
    ensures IsDotted(src) ==> IsDotted(src[1..])
  {
  }

  /** `new RegExp(src, 'gi')` on the fragment this module covers. */
  function Compile(src: string): (r: Result<Regex, CompileError>)
    ensures r.Success? ==> r.value.anchored == (|src| > 0 && src[0] == '^')
    ensures IsPlain(src) ==> r == Success(Regex(false, seq(|src|, k requires 0 <= k < |src| => Literal(src[k]))))
    ensures IsDotted(src) ==> r == Success(Regex(false, seq(|src|, k requires 0 <= k < |src| => AtomOf(src[k]))))
    ensures EndsInLoneBackslash(src) ==> r.Failure?
  {
    if |src| > 0 && src[0] == '^' then
      var atoms :- ParseAtoms(src[1..]);
      Success(Regex(true, atoms))
    else
      var atoms :- ParseAtoms(src);
      Success(Regex(false, atoms))
  }

  /** The atoms from index k on match the text from index j on. */
  predicate AtomsMatchFrom(atoms: seq<Atom>, k: nat, s: string, j: nat)
    requires k <= |atoms|
    decreases |atoms| - k
  {
    if k == |atoms| then j <= |s|
    else (j < |s| && AtomMatches(atoms[k], s[j]) && AtomsMatchFrom(atoms, k + 1, s, j + 1))
  }

  /** The pattern matches `s` at position i (an anchored one only at 0). */
  predicate MatchesAt(re: Regex, s: string, i: nat)
  {
    (i == 0 || !re.anchored) && AtomsMatchFrom(re.atoms, 0, s, i)
  }

  lemma {:induction false} AtomsMatchFromMeans(atoms: seq<Atom>, k: nat, s: string, j: nat)
    requires k <= |atoms|
    decreases |atoms| - k
    ensures AtomsMatchFrom(atoms, k, s, j) <==>
              j + (|atoms| - k) <= |s| && forall m :: k <= m < |atoms| ==> AtomMatches(atoms[m], s[j + m - k])
  {
    if k < |atoms| {
      AtomsMatchFromMeans(atoms, k + 1, s, j + 1);
      if j + (|atoms| - k) <= |s| && forall m :: k <= m < |atoms| ==> AtomMatches(atoms[m], s[j + m - k]) {
        assert AtomMatches(atoms[k], s[j + k - k]);
        forall m | k + 1 <= m < |atoms| ensures AtomMatches(atoms[m], s[(j + 1) + m - (k + 1)]) {
          assert AtomMatches(atoms[m], s[j + m - k]);
        }
      }
      if j < |s| && AtomMatches(atoms[k], s[j]) && AtomsMatchFrom(atoms, k + 1, s, j + 1) {
        assert forall m :: k <= m < |atoms| ==> AtomMatches(atoms[m], s[j + m - k]) by {
          forall m | k <= m < |atoms| ensures AtomMatches(atoms[m], s[j + m - k]) {
            if m > k { assert AtomMatches(atoms[m], s[(j + 1) + m - (k + 1)]); }
          }
        }
      }
    }
  }

  /** The leftmost match at or after position i, as `RegExp.prototype.exec` finds it. */
  function FirstMatchFrom(re: Regex, s: string, i: nat): (r: Option<nat>)
    requires i <= |s|
    decreases |s| - i
    ensures r.Some? ==> i <= r.value <= |s| && MatchesAt(re, s, r.value)
    ensures r.Some? ==> forall j :: i <= j < r.value ==> !MatchesAt(re, s, j)
    ensures r.None? ==> forall j :: i <= j <= |s| ==> !MatchesAt(re, s, j)
  {
    if MatchesAt(re, s, i) then Some(i)
    else if i == |s| then None
    else FirstMatchFrom(re, s, i + 1)
  }

  /** `regex.test(s)`: the pattern matches somewhere in `s`. */
  function Test(re: Regex, s: string): (b: bool)
    ensures b <==> exists i :: 0 <= i <= |s| && MatchesAt(re, s, i)
  {
    FirstMatchFrom(re, s, 0).Some?
  }

  /**
   * The global replacement from position i on: every match, scanned left to
   * right without overlap, becomes `rep`; after an empty match the scan
   * copies one character and moves on, as `String.prototype.replace` does.
   */
  function ReplaceFrom(re: Regex, s: string, i: nat, rep: string): string
    requires i <= |s|
    decreases |s| - i
  {
    if MatchesAt(re, s, i) then
      AtomsMatchFromMeans(re.atoms, 0, s, i);
      if |re.atoms| == 0 then
        rep + (if i < |s| then [s[i]] + ReplaceFrom(re, s, i + 1, rep) else [])
      else
        rep + ReplaceFrom(re, s, i + |re.atoms|, rep)
    else if i < |s| then [s[i]] + ReplaceFrom(re, s, i + 1, rep)
    else []
  }

  /**
   * One step of the global replacement: up to the leftmost match at `j` the
   * text is copied, the match becomes `rep`, and the scan goes on after it.
   */
  lemma {:induction false} ReplaceFromStep(re: Regex, s: string, i: nat, rep: string, j: nat)
    requires i <= |s| && |re.atoms| > 0
    requires FirstMatchFrom(re, s, i) == Some(j)
    decreases j - i
    ensures j + |re.atoms| <= |s|
    ensures ReplaceFrom(re, s, i, rep) == s[i..j] + rep + ReplaceFrom(re, s, j + |re.atoms|, rep)
  {
    AtomsMatchFromMeans(re.atoms, 0, s, j);
    if i < j {
      assert !MatchesAt(re, s, i) && i < |s|;
      ReplaceFromStep(re, s, i + 1, rep, j);
      assert s[i..j] == [s[i]] + s[i + 1..j];
    }
  }

  /**
   * `s.replace(regex, rep)` for a regex built with the `g` flag: a pattern
   * that tests false leaves the text as it is.
   */
  function ReplaceAll(re: Regex, s: string, rep: string): (r: string)
    ensures !Test(re, s) ==> r == s
  {
    if !Test(re, s) then
      ReplaceFromNoMatch(re, s, 0, rep);
      ReplaceFrom(re, s, 0, rep)
    else ReplaceFrom(re, s, 0, rep)
  }

  lemma {:induction false} ReplaceFromNoMatch(re: Regex, s: string, i: nat, rep: string)
    requires i <= |s|
    requires forall j :: i <= j <= |s| ==> !MatchesAt(re, s, j)
    decreases |s| - i
    ensures ReplaceFrom(re, s, i, rep) == s[i..]
  {
    assert !MatchesAt(re, s, i);
    if i < |s| {
      ReplaceFromNoMatch(re, s, i + 1, rep);
      assert s[i..] == [s[i]] + s[i + 1..];
    }
  }

  /** An anchored, non-empty pattern that matches at the start is replaced once, there. */
  lemma AnchoredReplace(re: Regex, s: string, rep: string)
    requires re.anchored && |re.atoms| > 0 && MatchesAt(re, s, 0)
    ensures |re.atoms| <= |s|
    ensures ReplaceAll(re, s, rep) == rep + s[|re.atoms|..]
  {
    AtomsMatchFromMeans(re.atoms, 0, s, 0);
    ReplaceFromNoMatch(re, s, |re.atoms|, rep);
  }

  lemma FoldAppend(a: string, b: string)
    ensures Fold(a + b) == Fold(a) + Fold(b)
  {
  }

  lemma {:induction false} ReplaceFromSelfFold(src: string, re: Regex, s: string, i: nat)
    requires i <= |s|
    requires re == Regex(false, seq(|src|, k requires 0 <= k < |src| => Literal(src[k])))
    decreases |s| - i
    ensures Fold(ReplaceFrom(re, s, i, src)) == Fold(s[i..])
  {
    if MatchesAt(re, s, i) {
      AtomsMatchFromMeans(re.atoms, 0, s, i);
      if |src| == 0 {
        if i < |s| {
          ReplaceFromSelfFold(src, re, s, i + 1);
          FoldAppend([s[i]], ReplaceFrom(re, s, i + 1, src));
          assert s[i..] == [s[i]] + s[i + 1..];
          FoldAppend([s[i]], s[i + 1..]);
        }
      } else {
        ReplaceFromSelfFold(src, re, s, i + |src|);
        FoldAppend(src, ReplaceFrom(re, s, i + |src|, src));
        assert Fold(src) == Fold(s[i..i + |src|]) by {
          forall k | 0 <= k < |src| ensures Fold(src)[k] == Fold(s[i..i + |src|])[k] {
            assert AtomMatches(re.atoms[k], s[i + k]);
          }
        }
        assert s[i..] == s[i..i + |src|] + s[i + |src|..];
        FoldAppend(s[i..i + |src|], s[i + |src|..]);
      }
    } else if i < |s| {
      ReplaceFromSelfFold(src, re, s, i + 1);
      FoldAppend([s[i]], ReplaceFrom(re, s, i + 1, src));
      assert s[i..] == [s[i]] + s[i + 1..];
      FoldAppend([s[i]], s[i + 1..]);
    }
  }

  /**
   * Replacing every match of a plain pattern by that same pattern's text can
   * change nothing but the letter case of the matched parts.
   */
  lemma ReplaceBySelfOnlyRecases(src: string, s: string)
    requires IsPlain(src)
    ensures Compile(src).Success?
    ensures Fold(ReplaceAll(Compile(src).value, s, src)) == Fold(s)
  {
    ReplaceFromSelfFold(src, Compile(src).value, s, 0);
  }
}
