/** Whole runs on a three-layer configuration for the module "m". */
module Scenarios {
  import opened GoStrings
  import opened Config
  import opened Checker
  import opened Layers

  /** The layers domain, usecase and infra, one per line. */
  const Layered: string := "domain\nusecase\ninfra"

  lemma LayeredLayers()
    ensures LayerModules(Layered) == ["domain", "usecase", "infra"]
  {
    var lines := ["domain", "usecase", "infra"];
    assert lines[1..] == ["usecase", "infra"] && lines[1..][1..] == ["infra"];
    assert Join(lines, '\n') == Layered;
    LayersOfLines(lines);
  }

  /** The three layers, as the configuration gives them. */
  predicate IsLayered(content: string) {
    LayerModules(content) == ["domain", "usecase", "infra"]
  }

  /** The configuration `Layered` meets the requirement of the runs below. */
  lemma LayeredIsLayered()
    ensures IsLayered(Layered)
  {
    LayeredLayers();
  }

  lemma LayeredPlan()
    ensures Plan("m", ["domain", "usecase", "infra"])
            == [Check("domain", ["m/usecase", "m/infra"]), Check("usecase", ["m/infra"])]
  {
    var paths := QualifiedPaths("m", ["domain", "usecase", "infra"]);
    assert paths[1] == "m/usecase" && paths[2] == "m/infra";
    assert paths[1..] == ["m/usecase", "m/infra"] && paths[2..] == ["m/infra"];
  }

  lemma RunTwoChecks(tree: Tree, c0: Check, c1: Check)
    ensures ConcatMap([c0, c1], Runner(tree))
            == ModuleLines(tree, c0.layer, c0.forbidden) + ModuleLines(tree, c1.layer, c1.forbidden)
  {
    var run := Runner(tree);
    assert [c0, c1][..1] == [c0];
    assert [c0][..0] == [];
    calc {
      ConcatMap([c0, c1], run);
      ConcatMap([c0], run) + run(c1);
      ConcatMap([], run) + run(c0) + run(c1);
    }
  }

  /** A run on such a configuration is its two checks, one after the other. */
  lemma LayeredRun(content: string, tree: Tree)
    requires IsLayered(content)
    ensures Outcome(Some("m"), Some(content), tree)
            == Completed(ModuleLines(tree, "domain", ["m/usecase", "m/infra"])
                         + ModuleLines(tree, "usecase", ["m/infra"]))
  {
    LayeredPlan();
    RunTwoChecks(tree, Check("domain", ["m/usecase", "m/infra"]), Check("usecase", ["m/infra"]));
  }

  /** A Go file importing one double-quoted path. */
  function GoFile(path: string, imported: string): (e: Entry) {
    Entry(path, false, false, Parsed(["\"" + imported + "\""]))
  }

  /** The reports for one file that imports `imported`. */
  lemma GoFileLines(path: string, imported: string, forbidden: seq<string>)
    requires '"' !in imported && HasSuffix(path, ".go")
    ensures WalkLines([GoFile(path, imported)], forbidden) == Matches(path, imported, forbidden)
  {
    Unquote(imported);
    var e := GoFile(path, imported);
    var lits := ["\"" + imported + "\""];
    assert lits[..0] == [];
    assert ImportLines(path, lits, forbidden) == Matches(path, imported, forbidden);
    assert EntryLines(e, forbidden) == Matches(path, imported, forbidden);
    assert [e][..0] == [];
    assert ConcatMap([e], Printer(forbidden)) == Printer(forbidden)(e);
  }

  /** Matching against two forbidden paths, in their order. */
  lemma MatchesTwo(file: string, clean: string, a: string, b: string)
    ensures Matches(file, clean, [a, b])
            == (if HasPrefix(clean, a) then [Violation(file, a)] else [])
               + (if HasPrefix(clean, b) then [Violation(file, b)] else [])
  {
    assert [a, b][..1] == [a];
    MatchesOne(file, clean, a);
  }

  lemma MatchesOne(file: string, clean: string, a: string)
    ensures Matches(file, clean, [a]) == if HasPrefix(clean, a) then [Violation(file, a)] else []
  {
  }

  lemma Unrelated()
    ensures !HasPrefix("m/infra", "m/usecase") && !HasPrefix("m/domain", "m/infra")
    ensures HasPrefix("m/infra", "m/infra")
  {
    assert "m/infra"[2] != "m/usecase"[2];
    assert "m/domain"[2] != "m/infra"[2];
  }

  function TreeA(root: string): (entries: seq<Entry>) {
    if root == "domain" then [GoFile("domain/a.go", "m/infra")] else []
  }

  lemma DomainWalkA()
    ensures ModuleLines(TreeA, "domain", ["m/usecase", "m/infra"]) == [Violation("domain/a.go", "m/infra")]
  {
    assert WalkRoot("domain") == "domain";
    assert HasSuffix("domain/a.go", ".go");
    GoFileLines("domain/a.go", "m/infra", ["m/usecase", "m/infra"]);
    MatchesTwo("domain/a.go", "m/infra", "m/usecase", "m/infra");
    Unrelated();
  }

  /** domain importing m/infra gives exactly one report, against m/infra. */
  lemma DomainImportsInfra(content: string)
    requires IsLayered(content)
    ensures Outcome(Some("m"), Some(content), TreeA) == Completed([Violation("domain/a.go", "m/infra")])
  {
    LayeredRun(content, TreeA);
    DomainWalkA();
    assert WalkRoot("usecase") == "usecase";
    assert TreeA("usecase") == [];
  }

  function TreeB(root: string): (entries: seq<Entry>) {
    if root == "usecase" then [GoFile("usecase/b.go", "m/domain")] else []
  }

  lemma UsecaseWalkB()
    ensures ModuleLines(TreeB, "usecase", ["m/infra"]) == []
  {
    assert WalkRoot("usecase") == "usecase";
    assert HasSuffix("usecase/b.go", ".go");
    GoFileLines("usecase/b.go", "m/domain", ["m/infra"]);
    MatchesOne("usecase/b.go", "m/domain", "m/infra");
    Unrelated();
  }

  /** usecase importing m/domain, a layer before it, gives no report. */
  lemma UsecaseImportsDomain(content: string)
    requires IsLayered(content)
    ensures Outcome(Some("m"), Some(content), TreeB) == Completed([])
  {
    LayeredRun(content, TreeB);
    UsecaseWalkB();
    assert WalkRoot("domain") == "domain";
    assert TreeB("domain") == [];
  }

  function TreeC(root: string): (entries: seq<Entry>) {
    if root == "infra" then
      [GoFile("infra/c.go", "m/domain"), GoFile("infra/d.go", "m/usecase"), GoFile("infra/e.go", "m/infra")]
    else []
  }

  function EmptyTree(root: string): (entries: seq<Entry>) {
    []
  }

  /** The last layer may import anything: nothing is reported. */
  lemma InfraImportsAll(content: string)
    requires IsLayered(content)
    ensures Outcome(Some("m"), Some(content), TreeC) == Completed([])
  {
    var layers := LayerModules(content);
    assert WalkRoot("domain") == "domain" && WalkRoot("usecase") == "usecase";
    forall i | 0 <= i < |layers| - 1
      ensures TreeC(WalkRoot(layers[i])) == EmptyTree(WalkRoot(layers[i]))
    {
      assert layers[i] == "domain" || layers[i] == "usecase";
    }
    LastLayerExempt("m", content, TreeC, EmptyTree);
    LayeredRun(content, EmptyTree);
    assert ModuleLines(EmptyTree, "domain", ["m/usecase", "m/infra"]) == [];
    assert ModuleLines(EmptyTree, "usecase", ["m/infra"]) == [];
  }

  /** A single configured layer stops the run before any walk. */
  lemma SingleLayer(tree: Tree)
    ensures Outcome(Some("m"), Some("domain"), tree) == TooFewLayers
  {
    TooFewLayersIff("m", "domain", tree);
  }

  function TreeE(root: string): (entries: seq<Entry>) {
    if root == "domain" then
      [Entry("domain/bad.go", false, false, ParseError), GoFile("domain/a.go", "m/infra")]
    else []
  }

  lemma DomainWalkE()
    ensures ModuleLines(TreeE, "domain", ["m/usecase", "m/infra"])
            == [ParseFailed("domain/bad.go"), Violation("domain/a.go", "m/infra")]
  {
    var forbidden := ["m/usecase", "m/infra"];
    var bad := Entry("domain/bad.go", false, false, ParseError);
    var good := GoFile("domain/a.go", "m/infra");
    assert WalkRoot("domain") == "domain";
    assert TreeE("domain") == [bad] + [good];
    WalkLinesConcat([bad], [good], forbidden);
    assert HasSuffix("domain/bad.go", ".go") && HasSuffix("domain/a.go", ".go");
    assert [bad][..0] == [];
    assert ConcatMap([bad], Printer(forbidden)) == Printer(forbidden)(bad);
    assert WalkLines([bad], forbidden) == [ParseFailed("domain/bad.go")];
    GoFileLines("domain/a.go", "m/infra", forbidden);
    MatchesTwo("domain/a.go", "m/infra", "m/usecase", "m/infra");
    Unrelated();
  }

  /** A file that does not parse is reported and skipped; its sibling's
      violation is still found. */
  lemma BrokenSibling(content: string)
    requires IsLayered(content)
    ensures Outcome(Some("m"), Some(content), TreeE)
            == Completed([ParseFailed("domain/bad.go"), Violation("domain/a.go", "m/infra")])
  {
    LayeredRun(content, TreeE);
    DomainWalkE();
    assert WalkRoot("usecase") == "usecase";
    assert TreeE("usecase") == [];
  }
}
