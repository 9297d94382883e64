/** The check of one layer (checkModuleImports): walk the layer's directory,
    parse the import section of every Go file, and print one report for
    every pair of an import and a forbidden module path that the import
    starts with. */
module Checker {
  import opened GoStrings

  /** What parsing a file's import section gives: a failure, or the raw
      literal of each import, quotes included, in source order. */
  datatype Parse = ParseError | Parsed(literals: seq<string>)

  /** One call of the walk callback: the path it is given, whether the walk
      reports an error for it, whether it is a directory, and what parsing
      the file there gives. */
  datatype Entry = Entry(path: string, walkError: bool, isDir: bool, parse: Parse)

  /** One printed line: a forbidden import found in a file, or one of the two
      diagnostics after which the walk goes on. */
  datatype Line =
    | Violation(file: string, forbidden: string)
    | TraversalFailed(path: string)
    | ParseFailed(path: string)

  /** The file system as the walk sees it: the entries visited from a root,
      in visiting order. */
  type Tree = string -> seq<Entry>

  /** The directory walked for a layer: a name starting with "/" is taken
      relative to the current directory. */
  function WalkRoot(moduleName: string): (root: string)
    ensures !HasPrefix(root, "/")
    ensures HasSuffix(root, moduleName)
    ensures root == moduleName <==> !HasPrefix(moduleName, "/")
    ensures root == moduleName || root == "." + moduleName
  {
    if HasPrefix(moduleName, "/") then
      assert ("." + moduleName)[0] == '.';
      "." + moduleName
    else moduleName
  }

  /** strings.ReplaceAll(literal, "\"", ""): every double quote removed. */
  function StripQuotes(literal: string): (clean: string) {
    ReplaceAll(literal, "\"", "")
  }

  /** An entry whose imports are compared: no walk error, not a directory,
      a ".go" path, and an import section that parses. */
  predicate IsChecked(e: Entry) {
    !e.walkError && !e.isDir && HasSuffix(e.path, ".go") && e.parse.Parsed?
  }

  /** The reports for one cleaned import against the forbidden paths, in
      the order of the forbidden paths. */
  function Matches(file: string, clean: string, forbidden: seq<string>): (lines: seq<Line>)
    decreases |forbidden|
  {
    if forbidden == [] then []
    else
      var f := forbidden[|forbidden| - 1];
      Matches(file, clean, forbidden[..|forbidden| - 1])
        + (if HasPrefix(clean, f) then [Violation(file, f)] else [])
  }

  /** The reports for the imports of one file, in import order. */
  function ImportLines(file: string, literals: seq<string>, forbidden: seq<string>): (lines: seq<Line>)
    decreases |literals|
  {
    if literals == [] then []
    else
      ImportLines(file, literals[..|literals| - 1], forbidden)
        + Matches(file, StripQuotes(literals[|literals| - 1]), forbidden)
  }

  /** What the walk callback prints for one entry. */
  function EntryLines(e: Entry, forbidden: seq<string>): (lines: seq<Line>) {
    if e.walkError then [TraversalFailed(e.path)]
    else if e.isDir || !HasSuffix(e.path, ".go") then []
    else match e.parse
      case ParseError => [ParseFailed(e.path)]
      case Parsed(literals) => ImportLines(e.path, literals, forbidden)
  }

  /** The walk callback as a function value. */
  function Printer(forbidden: seq<string>): (visit: Entry -> seq<Line>) {
    e => EntryLines(e, forbidden)
  }

  /** The outputs of `f` on `xs`, one after another. */
  function ConcatMap<T>(xs: seq<T>, f: T -> seq<Line>): (out: seq<Line>)
    decreases |xs|
  {
    if xs == [] then [] else ConcatMap(xs[..|xs| - 1], f) + f(xs[|xs| - 1])
  }

  /** What the walk prints over a sequence of entries, one after another. */
  function WalkLines(entries: seq<Entry>, forbidden: seq<string>): (lines: seq<Line>) {
    ConcatMap(entries, Printer(forbidden))
  }

  /** What checking one layer prints. */
  function ModuleLines(tree: Tree, moduleName: string, forbidden: seq<string>): (lines: seq<Line>) {
    WalkLines(tree(WalkRoot(moduleName)), forbidden)
  }

  /** checkModuleImports: the walk over the layer's directory, calling
      VisitEntry on each entry and collecting what it prints. */
  method CheckModuleImports(tree: Tree, moduleName: string, forbidden: seq<string>)
    returns (out: seq<Line>)
    ensures out == ModuleLines(tree, moduleName, forbidden)
  {
    var root := moduleName;
    if HasPrefix(root, "/") {
      root := "." + root;
    }
    var entries := tree(root);
    out := [];
    var k := 0;
    while k < |entries|
      invariant 0 <= k <= |entries|
      invariant out == WalkLines(entries[..k], forbidden)
    {
      var lines := VisitEntry(entries[k], forbidden);
      out := out + lines;
      assert entries[..k + 1][..k] == entries[..k];
      k := k + 1;
    }
    assert entries[..k] == entries;
  }

  /** The walk callback: skip on a walk error, a directory, a non-Go file
      or a parse error, and otherwise compare every cleaned import with
      every forbidden path, reporting each match. */
  method VisitEntry(e: Entry, forbidden: seq<string>) returns (out: seq<Line>)
    ensures out == EntryLines(e, forbidden)
  {
    if e.walkError {
      return [TraversalFailed(e.path)];
    }
    if e.isDir || !HasSuffix(e.path, ".go") {
      return [];
    }
    match e.parse {
      case ParseError =>
        return [ParseFailed(e.path)];
      case Parsed(literals) =>
        out := [];
        var i := 0;
        while i < |literals|
          invariant 0 <= i <= |literals|
          invariant out == ImportLines(e.path, literals[..i], forbidden)
        {
          var clean := StripQuotes(literals[i]);
          var j := 0;
          while j < |forbidden|
            invariant 0 <= j <= |forbidden|
            invariant out == ImportLines(e.path, literals[..i], forbidden)
                             + Matches(e.path, clean, forbidden[..j])
          {
            if HasPrefix(clean, forbidden[j]) {
              out := out + [Violation(e.path, forbidden[j])];
            }
            assert forbidden[..j + 1][..j] == forbidden[..j];
            j := j + 1;
          }
          assert forbidden[..j] == forbidden;
          assert literals[..i + 1][..i] == literals[..i];
          i := i + 1;
        }
        assert literals[..i] == literals;
    }
  }

  // ---------------------------------------------------------------------
  // Quote stripping

  /** No double quote is left in a cleaned import. */
  lemma {:induction false} NoQuoteLeft(s: string)
    ensures '"' !in StripQuotes(s)
    decreases |s|
  {
    if s != [] {
      NoQuoteLeft(s[1..]);
    }
  }

  /** A literal without double quotes is left as it is, so a backquoted
      import keeps its backquotes. */
  lemma {:induction false} StripQuotesKeepsQuoteFree(s: string)
    requires '"' !in s
    ensures StripQuotes(s) == s
    decreases |s|
  {
    if s != [] {
      StripQuotesKeepsQuoteFree(s[1..]);
      assert [s[0]] + s[1..] == s;
    }
  }

  /** Stripping works character by character. */
  lemma {:induction false} StripQuotesConcat(a: string, b: string)
    ensures StripQuotes(a + b) == StripQuotes(a) + StripQuotes(b)
    decreases |a|
  {
    if a == [] {
      assert a + b == b;
    } else {
      assert (a + b)[1..] == a[1..] + b;
      assert (a + b)[0] == a[0];
      StripQuotesConcat(a[1..], b);
    }
  }

  /** Stripping a double-quoted literal gives back the path inside. */
  lemma Unquote(s: string)
    requires '"' !in s
    ensures StripQuotes("\"" + s + "\"") == s
  {
    StripQuotesConcat("\"" + s, "\"");
    StripQuotesConcat("\"", s);
    StripQuotesKeepsQuoteFree(s);
  }

  // ---------------------------------------------------------------------
  // Matching one import

  /** Every report for an import names the file, and a forbidden path is
      reported exactly when it is a string prefix of the import: the test
      does not look at path segments. */
  lemma {:induction false} MatchesIffPrefix(file: string, clean: string, forbidden: seq<string>)
    ensures forall l :: l in Matches(file, clean, forbidden) ==> l.Violation? && l.file == file
    ensures forall f :: Violation(file, f) in Matches(file, clean, forbidden)
                        <==> f in forbidden && HasPrefix(clean, f)
    decreases |forbidden|
  {
    if forbidden != [] {
      var n := |forbidden| - 1;
      MatchesIffPrefix(file, clean, forbidden[..n]);
      assert forbidden == forbidden[..n] + [forbidden[n]];
    }
  }

  /** An import one character longer than a forbidden path still matches it. */
  lemma PrefixIgnoresSegments()
    ensures Matches("a.go", "m/infra2", ["m/infra"]) == [Violation("a.go", "m/infra")]
  {
  }

  // ---------------------------------------------------------------------
  // All matches of a file, in order

  /** The (import, forbidden) index pairs, both in range, whose cleaned
      import starts with the forbidden path. */
  predicate IsMatch(literals: seq<string>, forbidden: seq<string>, a: int, b: int) {
    0 <= a < |literals| && 0 <= b < |forbidden| && HasPrefix(StripQuotes(literals[a]), forbidden[b])
  }

  /** Import order first, forbidden-path order second. */
  predicate Before(p: (int, int), q: (int, int)) {
    p.0 < q.0 || (p.0 == q.0 && p.1 < q.1)
  }

  /** The matching pairs of one import `a`, by forbidden index. */
  function RowPairs(a: int, clean: string, forbidden: seq<string>): (pairs: seq<(int, int)>)
    decreases |forbidden|
  {
    if forbidden == [] then []
    else
      var n := |forbidden| - 1;
      RowPairs(a, clean, forbidden[..n]) + (if HasPrefix(clean, forbidden[n]) then [(a, n)] else [])
  }

  /** The matching pairs of a file's imports, row after row. */
  function MatchPairs(literals: seq<string>, forbidden: seq<string>): (pairs: seq<(int, int)>)
    decreases |literals|
  {
    if literals == [] then []
    else
      var n := |literals| - 1;
      MatchPairs(literals[..n], forbidden) + RowPairs(n, StripQuotes(literals[n]), forbidden)
  }

  lemma {:induction false} RowPairsEnumerate(a: int, clean: string, forbidden: seq<string>)
    ensures forall k :: 0 <= k < |RowPairs(a, clean, forbidden)| ==>
              RowPairs(a, clean, forbidden)[k].0 == a
              && 0 <= RowPairs(a, clean, forbidden)[k].1 < |forbidden|
              && HasPrefix(clean, forbidden[RowPairs(a, clean, forbidden)[k].1])
    ensures forall k, l :: 0 <= k < l < |RowPairs(a, clean, forbidden)| ==>
              RowPairs(a, clean, forbidden)[k].1 < RowPairs(a, clean, forbidden)[l].1
    ensures forall b :: 0 <= b < |forbidden| && HasPrefix(clean, forbidden[b]) ==>
              (a, b) in RowPairs(a, clean, forbidden)
    decreases |forbidden|
  {
    if forbidden != [] {
      var n := |forbidden| - 1;
      RowPairsEnumerate(a, clean, forbidden[..n]);
      assert forall b :: 0 <= b < n ==> forbidden[..n][b] == forbidden[b];
    }
  }

  /** The matching pairs of a file are exactly its matches, each once, in
      import order and then forbidden-path order. */
  lemma {:induction false} MatchPairsEnumerate(literals: seq<string>, forbidden: seq<string>)
    ensures forall k :: 0 <= k < |MatchPairs(literals, forbidden)| ==>
              IsMatch(literals, forbidden, MatchPairs(literals, forbidden)[k].0, MatchPairs(literals, forbidden)[k].1)
    ensures forall k, l :: 0 <= k < l < |MatchPairs(literals, forbidden)| ==>
              Before(MatchPairs(literals, forbidden)[k], MatchPairs(literals, forbidden)[l])
    ensures forall a, b :: IsMatch(literals, forbidden, a, b) ==> (a, b) in MatchPairs(literals, forbidden)
    decreases |literals|
  {
    if literals != [] {
      var n := |literals| - 1;
      var front := literals[..n];
      MatchPairsEnumerate(front, forbidden);
      RowPairsEnumerate(n, StripQuotes(literals[n]), forbidden);
      var p := MatchPairs(front, forbidden);
      var q := RowPairs(n, StripQuotes(literals[n]), forbidden);
      assert MatchPairs(literals, forbidden) == p + q;
      assert forall a :: 0 <= a < n ==> front[a] == literals[a];
      forall a, b | IsMatch(literals, forbidden, a, b)
        ensures (a, b) in p + q
      {
        if a < n {
          assert IsMatch(front, forbidden, a, b);
        }
      }
      forall k | 0 <= k < |p| ensures p[k].0 < n {
        assert IsMatch(front, forbidden, p[k].0, p[k].1);
      }
    }
  }

  lemma {:induction false} MatchesFollowRow(file: string, clean: string, forbidden: seq<string>, a: int)
    ensures |Matches(file, clean, forbidden)| == |RowPairs(a, clean, forbidden)|
    ensures forall k :: 0 <= k < |RowPairs(a, clean, forbidden)| ==>
              0 <= RowPairs(a, clean, forbidden)[k].1 < |forbidden|
              && Matches(file, clean, forbidden)[k] == Violation(file, forbidden[RowPairs(a, clean, forbidden)[k].1])
    decreases |forbidden|
  {
    if forbidden != [] {
      var n := |forbidden| - 1;
      MatchesFollowRow(file, clean, forbidden[..n], a);
      RowPairsEnumerate(a, clean, forbidden[..n]);
    }
  }

  /** A file's reports, one per matching pair in that order: the number of
      reports is the number of matching (import, forbidden) pairs. */
  lemma {:induction false} ImportLinesFollowPairs(file: string, literals: seq<string>, forbidden: seq<string>)
    ensures |ImportLines(file, literals, forbidden)| == |MatchPairs(literals, forbidden)|
    ensures forall k :: 0 <= k < |MatchPairs(literals, forbidden)| ==>
              0 <= MatchPairs(literals, forbidden)[k].1 < |forbidden|
              && ImportLines(file, literals, forbidden)[k]
                 == Violation(file, forbidden[MatchPairs(literals, forbidden)[k].1])
    decreases |literals|
  {
    if literals != [] {
      var n := |literals| - 1;
      ImportLinesFollowPairs(file, literals[..n], forbidden);
      MatchesFollowRow(file, StripQuotes(literals[n]), forbidden, n);
    }
  }

  /** A file's report (p, f) exists exactly when p is the file, f is
      forbidden and some cleaned import of the file starts with f. */
  lemma ImportLinesIff(file: string, literals: seq<string>, forbidden: seq<string>)
    ensures forall l :: l in ImportLines(file, literals, forbidden) ==> l.Violation? && l.file == file
    ensures forall f :: Violation(file, f) in ImportLines(file, literals, forbidden)
              <==> f in forbidden && exists i :: 0 <= i < |literals| && HasPrefix(StripQuotes(literals[i]), f)
  {
    ImportLinesNameFile(file, literals, forbidden);
    forall f
      ensures Violation(file, f) in ImportLines(file, literals, forbidden)
              <==> f in forbidden && exists i :: 0 <= i < |literals| && HasPrefix(StripQuotes(literals[i]), f)
    {
      ImportLinesReport(file, literals, forbidden, f);
    }
  }

  lemma {:induction false} ImportLinesNameFile(file: string, literals: seq<string>, forbidden: seq<string>)
    ensures forall l :: l in ImportLines(file, literals, forbidden) ==> l.Violation? && l.file == file
    decreases |literals|
  {
    if literals != [] {
      var n := |literals| - 1;
      ImportLinesNameFile(file, literals[..n], forbidden);
      MatchesIffPrefix(file, StripQuotes(literals[n]), forbidden);
    }
  }

  lemma {:induction false} ImportLinesReport(file: string, literals: seq<string>, forbidden: seq<string>, f: string)
    ensures Violation(file, f) in ImportLines(file, literals, forbidden)
            <==> f in forbidden && exists i :: 0 <= i < |literals| && HasPrefix(StripQuotes(literals[i]), f)
    decreases |literals|
  {
    if literals != [] {
      var n := |literals| - 1;
      var front := literals[..n];
      var last := Matches(file, StripQuotes(literals[n]), forbidden);
      ImportLinesReport(file, front, forbidden, f);
      MatchesIffPrefix(file, StripQuotes(literals[n]), forbidden);
      assert ImportLines(file, literals, forbidden) == ImportLines(file, front, forbidden) + last;
      assert Violation(file, f) in last <==> f in forbidden && HasPrefix(StripQuotes(literals[n]), f);
      if exists i :: 0 <= i < |literals| && HasPrefix(StripQuotes(literals[i]), f) {
        var i :| 0 <= i < |literals| && HasPrefix(StripQuotes(literals[i]), f);
        if i < n {
          assert front[i] == literals[i];
        }
      }
      if exists i :: 0 <= i < n && HasPrefix(StripQuotes(front[i]), f) {
        var i :| 0 <= i < n && HasPrefix(StripQuotes(front[i]), f);
        assert literals[i] == front[i];
      }
    }
  }

  // ---------------------------------------------------------------------
  // Entries and the walk

  /** The entry is a checked file at path `p` one of whose cleaned imports
      starts with the forbidden path `f`. */
  predicate ImportsForbidden(e: Entry, forbidden: seq<string>, p: string, f: string) {
    IsChecked(e) && e.path == p && f in forbidden
    && exists i :: 0 <= i < |e.parse.literals| && HasPrefix(StripQuotes(e.parse.literals[i]), f)
  }

  /** An entry prints the violation (p, f) exactly when it is a checked file
      at p importing below f; an entry that is not checked prints at most
      its one diagnostic. */
  lemma EntryLinesIff(e: Entry, forbidden: seq<string>)
    ensures !IsChecked(e) ==> |EntryLines(e, forbidden)| <= 1
    ensures forall p, f :: Violation(p, f) in EntryLines(e, forbidden) <==> ImportsForbidden(e, forbidden, p, f)
  {
    if IsChecked(e) {
      ImportLinesIff(e.path, e.parse.literals, forbidden);
    }
  }

  lemma {:induction false} ConcatMapConcat<T>(xs: seq<T>, ys: seq<T>, f: T -> seq<Line>)
    ensures ConcatMap(xs + ys, f) == ConcatMap(xs, f) + ConcatMap(ys, f)
    decreases |ys|
  {
    if ys == [] {
      assert xs + ys == xs;
    } else {
      var n := |ys| - 1;
      var zs := xs + ys;
      assert zs[..|zs| - 1] == xs + ys[..n];
      assert zs[|zs| - 1] == ys[n];
      ConcatMapConcat(xs, ys[..n], f);
      calc {
        ConcatMap(zs, f);
        ConcatMap(xs + ys[..n], f) + f(ys[n]);
        ConcatMap(xs, f) + ConcatMap(ys[..n], f) + f(ys[n]);
        ConcatMap(xs, f) + ConcatMap(ys, f);
      }
    }
  }

  lemma {:induction false} ConcatMapIff<T>(xs: seq<T>, f: T -> seq<Line>, l: Line)
    ensures l in ConcatMap(xs, f) <==> exists k :: 0 <= k < |xs| && l in f(xs[k])
    decreases |xs|
  {
    if xs != [] {
      var n := |xs| - 1;
      ConcatMapIff(xs[..n], f, l);
      assert forall k :: 0 <= k < n ==> xs[..n][k] == xs[k];
      if l in ConcatMap(xs, f) && l !in ConcatMap(xs[..n], f) {
        assert l in f(xs[n]);
      }
    }
  }

  /** The walk's output is the entries' outputs one after another. */
  lemma WalkLinesConcat(xs: seq<Entry>, ys: seq<Entry>, forbidden: seq<string>)
    ensures WalkLines(xs + ys, forbidden) == WalkLines(xs, forbidden) + WalkLines(ys, forbidden)
  {
    ConcatMapConcat(xs, ys, Printer(forbidden));
  }

  /** Whatever its neighbours are, every entry's lines appear whole in the
      walk's output, so a failing entry hides nothing its siblings print. */
  lemma WalkIsolatesEntries(entries: seq<Entry>, k: int, forbidden: seq<string>)
    requires 0 <= k < |entries|
    ensures WalkLines(entries, forbidden)
            == WalkLines(entries[..k], forbidden) + EntryLines(entries[k], forbidden)
               + WalkLines(entries[k + 1..], forbidden)
  {
    var f := Printer(forbidden);
    assert entries == entries[..k] + [entries[k]] + entries[k + 1..];
    ConcatMapConcat(entries[..k] + [entries[k]], entries[k + 1..], f);
    ConcatMapConcat(entries[..k], [entries[k]], f);
    assert [entries[k]][..0] == [];
    assert ConcatMap([entries[k]], f) == f(entries[k]);
  }

  /** A line is printed by the walk exactly when some entry prints it. */
  lemma WalkLinesIff(entries: seq<Entry>, forbidden: seq<string>, l: Line)
    ensures l in WalkLines(entries, forbidden)
            <==> exists k :: 0 <= k < |entries| && l in EntryLines(entries[k], forbidden)
  {
    ConcatMapIff(entries, Printer(forbidden), l);
    assert forall k :: 0 <= k < |entries| ==> Printer(forbidden)(entries[k]) == EntryLines(entries[k], forbidden);
  }

  /** The walk reports (p, f) exactly when one of its entries is a checked
      file at p importing below f: all matches of all files are reported. */
  lemma WalkViolationIff(entries: seq<Entry>, forbidden: seq<string>, p: string, f: string)
    ensures Violation(p, f) in WalkLines(entries, forbidden)
            <==> exists k :: 0 <= k < |entries| && ImportsForbidden(entries[k], forbidden, p, f)
  {
    WalkLinesIff(entries, forbidden, Violation(p, f));
    forall k | 0 <= k < |entries| {
      EntryLinesIff(entries[k], forbidden);
    }
  }

  /** Two functions that agree on the elements give the same concatenation. */
  lemma {:induction false} ConcatMapCongruence<T>(xs: seq<T>, f: T -> seq<Line>, g: T -> seq<Line>)
    requires forall k :: 0 <= k < |xs| ==> f(xs[k]) == g(xs[k])
    ensures ConcatMap(xs, f) == ConcatMap(xs, g)
    decreases |xs|
  {
    if xs != [] {
      var n := |xs| - 1;
      assert forall k :: 0 <= k < n ==> xs[..n][k] == xs[k];
      ConcatMapCongruence(xs[..n], f, g);
    }
  }
}
