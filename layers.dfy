/** The program's entry point (main): read the module path and the layers,
    qualify every layer with the module path, and check each layer but the
    last against all the layers after it. */
module Layers {
  import opened GoStrings
  import opened Config
  import opened Checker

  datatype Option<T> = None | Some(value: T)

  /** How a run ends: one of the three configuration errors, after which
      the process exits with status 1, or completion with status 0 and
      everything printed, violations or not. */
  datatype Exit =
    | ModulePathError
    | ConfigError
    | TooFewLayers
    | Completed(lines: seq<Line>)

  /** One call of checkModuleImports: the layer and its forbidden paths. */
  datatype Check = Check(layer: string, forbidden: seq<string>)

  /** The import path of a layer. */
  function Qualify(modulePath: string, layer: string): (path: string) {
    modulePath + "/" + layer
  }

  /** The import paths of all layers, in layer order. */
  function QualifiedPaths(modulePath: string, layers: seq<string>): (paths: seq<string>) {
    seq(|layers|, i requires 0 <= i < |layers| => Qualify(modulePath, layers[i]))
  }

  /** Layer i but the last is checked against the paths of layers i+1 and on. */
  function Plan(modulePath: string, layers: seq<string>): (checks: seq<Check>)
    requires |layers| >= 2
  {
    var paths := QualifiedPaths(modulePath, layers);
    seq(|layers| - 1, i requires 0 <= i < |layers| - 1 => Check(layers[i], paths[i + 1..]))
  }

  /** A check as a function value: what checking that layer prints. */
  function Runner(tree: Tree): (run: Check -> seq<Line>) {
    (c: Check) => ModuleLines(tree, c.layer, c.forbidden)
  }

  /** What a run of the program gives. A module path or a configuration
      that could not be read is `None`. */
  function Outcome(modulePath: Option<string>, config: Option<string>, tree: Tree): (x: Exit) {
    if modulePath.None? then ModulePathError
    else if config.None? then ConfigError
    else
      var layers := LayerModules(config.value);
      if |layers| < 2 then TooFewLayers
      else Completed(ConcatMap(Plan(modulePath.value, layers), Runner(tree)))
  }

  /** Fill a new array with the import path of every layer. */
  method QualifyLayers(modulePath: string, layers: seq<string>) returns (paths: array<string>)
    ensures fresh(paths)
    ensures paths.Length == |layers|
    ensures forall i :: 0 <= i < |layers| ==> paths[i] == modulePath + "/" + layers[i]
  {
    paths := new string[|layers|];
    for it := 0 to |layers|
      invariant forall i :: 0 <= i < it ==> paths[i] == modulePath + "/" + layers[i]
    {
      paths[it] := modulePath + "/" + layers[it];
    }
  }

  /** main, with the two file reads and the walk given as inputs and the
      printed lines returned. */
  method Run(modulePath: Option<string>, config: Option<string>, tree: Tree) returns (x: Exit)
    ensures x == Outcome(modulePath, config, tree)
  {
    if modulePath.None? {
      return ModulePathError;
    }
    if config.None? {
      return ConfigError;
    }
    var layers := LayerModules(config.value);
    if |layers| < 2 {
      return TooFewLayers;
    }
    var paths := QualifyLayers(modulePath.value, layers);
    ghost var qualified := QualifiedPaths(modulePath.value, layers);
    assert paths[..] == qualified;
    ghost var plan := Plan(modulePath.value, layers);
    var out := [];
    for it := 0 to |layers| - 1
      invariant paths[..] == qualified
      invariant out == ConcatMap(plan[..it], Runner(tree))
    {
      var lines := CheckModuleImports(tree, layers[it], paths[it + 1..]);
      assert paths[it + 1..] == qualified[it + 1..];
      PlanStep(tree, plan, it, Check(layers[it], paths[it + 1..]));
      out := out + lines;
    }
    assert plan[..|layers| - 1] == plan;
    return Completed(out);
  }

  lemma PlanStep(tree: Tree, plan: seq<Check>, it: int, c: Check)
    requires 0 <= it < |plan| && plan[it] == c
    ensures ConcatMap(plan[..it + 1], Runner(tree))
            == ConcatMap(plan[..it], Runner(tree)) + ModuleLines(tree, c.layer, c.forbidden)
  {
    assert plan[..it + 1] == plan[..it] + [c];
    ConcatMapConcat(plan[..it], [c], Runner(tree));
    assert [c][..0] == [];
  }

  // ---------------------------------------------------------------------
  // Properties of a run

  /** A run stops with TooFewLayers, whatever the tree, exactly when the
      configuration has no line feed, that is, fewer than two layers. */
  lemma TooFewLayersIff(modulePath: string, content: string, tree: Tree)
    ensures Outcome(Some(modulePath), Some(content), tree) == TooFewLayers
            <==> Count(content, '\n') == 0
  {
  }

  /** Every layer but the last is checked, in order, and only those; layer
      i is checked against the paths of the layers after it, the last layer
      among them. */
  lemma PlanChecksAllButLast(modulePath: string, layers: seq<string>)
    requires |layers| >= 2
    ensures |Plan(modulePath, layers)| == |layers| - 1
    ensures forall i :: 0 <= i < |layers| - 1 ==>
              Plan(modulePath, layers)[i].layer == layers[i]
              && |Plan(modulePath, layers)[i].forbidden| == |layers| - 1 - i
              && Qualify(modulePath, layers[|layers| - 1]) in Plan(modulePath, layers)[i].forbidden
    ensures forall i, j :: 0 <= i < |layers| - 1 && i < j < |layers| ==>
              Plan(modulePath, layers)[i].forbidden[j - i - 1] == Qualify(modulePath, layers[j])
  {
    forall i | 0 <= i < |layers| - 1
      ensures Plan(modulePath, layers)[i].layer == layers[i]
      ensures |Plan(modulePath, layers)[i].forbidden| == |layers| - 1 - i
      ensures Qualify(modulePath, layers[|layers| - 1]) in Plan(modulePath, layers)[i].forbidden
    {
      PlanAt(modulePath, layers, i, |layers| - 1);
    }
    forall i, j | 0 <= i < |layers| - 1 && i < j < |layers|
      ensures Plan(modulePath, layers)[i].forbidden[j - i - 1] == Qualify(modulePath, layers[j])
    {
      PlanAt(modulePath, layers, i, j);
    }
  }

  lemma PlanAt(modulePath: string, layers: seq<string>, i: int, j: int)
    requires |layers| >= 2 && 0 <= i < |layers| - 1 && i < j < |layers|
    ensures Plan(modulePath, layers)[i].layer == layers[i]
    ensures |Plan(modulePath, layers)[i].forbidden| == |layers| - 1 - i
    ensures Plan(modulePath, layers)[i].forbidden[j - i - 1] == Qualify(modulePath, layers[j])
  {
  }

  /** The import path identifies the layer. */
  lemma QualifyInjective(modulePath: string, a: string, b: string)
    requires Qualify(modulePath, a) == Qualify(modulePath, b)
    ensures a == b
  {
    var n := |modulePath| + 1;
    assert a == Qualify(modulePath, a)[n..];
    assert b == Qualify(modulePath, b)[n..];
  }

  /** With distinct layer names, the path of layer j is forbidden for layer
      i exactly when j comes after i: no layer is forbidden from importing
      itself or an earlier layer. */
  lemma ForbiddenIffLater(modulePath: string, layers: seq<string>, i: int, j: int)
    requires |layers| >= 2 && 0 <= i < |layers| - 1 && 0 <= j < |layers|
    requires forall a, b :: 0 <= a < b < |layers| ==> layers[a] != layers[b]
    ensures Qualify(modulePath, layers[j]) in Plan(modulePath, layers)[i].forbidden <==> i < j
  {
    var forbidden := Plan(modulePath, layers)[i].forbidden;
    var paths := QualifiedPaths(modulePath, layers);
    if i < j {
      assert forbidden[j - i - 1] == paths[j];
    } else if Qualify(modulePath, layers[j]) in forbidden {
      var k :| 0 <= k < |forbidden| && forbidden[k] == Qualify(modulePath, layers[j]);
      assert forbidden[k] == Qualify(modulePath, layers[i + 1 + k]);
      QualifyInjective(modulePath, layers[j], layers[i + 1 + k]);
    }
  }

  /** The run depends on the tree only at the walk roots of the layers
      before the last: two trees that agree there give the same run. The
      last layer's files can still be read through an earlier layer of the
      same name or one whose directory contains the last layer's. */
  lemma LastLayerExempt(modulePath: string, content: string, t1: Tree, t2: Tree)
    requires forall i :: 0 <= i < |LayerModules(content)| - 1 ==>
               t1(WalkRoot(LayerModules(content)[i])) == t2(WalkRoot(LayerModules(content)[i]))
    ensures Outcome(Some(modulePath), Some(content), t1) == Outcome(Some(modulePath), Some(content), t2)
  {
    var layers := LayerModules(content);
    if |layers| >= 2 {
      var plan := Plan(modulePath, layers);
      forall k | 0 <= k < |plan| ensures Runner(t1)(plan[k]) == Runner(t2)(plan[k]) {
        assert plan[k].layer == layers[k];
      }
      ConcatMapCongruence(plan, Runner(t1), Runner(t2));
    }
  }

  /** A completed run reports (p, f) exactly when, for some layer i but the
      last, a checked file at p in that layer's walk has an import that
      starts with f, and f is the path of a layer after i. */
  lemma RunViolationIff(modulePath: string, layers: seq<string>, tree: Tree, p: string, f: string)
    requires |layers| >= 2
    ensures Violation(p, f) in ConcatMap(Plan(modulePath, layers), Runner(tree))
            <==> exists i, k :: 0 <= i < |layers| - 1 && 0 <= k < |tree(WalkRoot(layers[i]))|
                   && ImportsForbidden(tree(WalkRoot(layers[i]))[k], QualifiedPaths(modulePath, layers)[i + 1..], p, f)
  {
    var plan := Plan(modulePath, layers);
    var paths := QualifiedPaths(modulePath, layers);
    ConcatMapIff(plan, Runner(tree), Violation(p, f));
    forall i | 0 <= i < |layers| - 1
      ensures Violation(p, f) in Runner(tree)(plan[i])
              <==> exists k :: 0 <= k < |tree(WalkRoot(layers[i]))|
                     && ImportsForbidden(tree(WalkRoot(layers[i]))[k], paths[i + 1..], p, f)
    {
      assert plan[i] == Check(layers[i], paths[i + 1..]);
      WalkViolationIff(tree(WalkRoot(layers[i])), paths[i + 1..], p, f);
    }
  }

  /** A configuration ending in a line feed gets an empty last layer, whose
      path `modulePath + "/"` is then forbidden for every other layer: an
      import of any package of the module is reported. */
  lemma TrailingLineFeedForbidsModule(modulePath: string, content: string)
    requires HasSuffix(content, "\n")
    ensures |LayerModules(content)| >= 2
    ensures forall c :: c in Plan(modulePath, LayerModules(content)) ==> modulePath + "/" in c.forbidden
  {
    var layers := LayerModules(content);
    TrailingLineFeedAddsEmptyLayer(content);
    PlanChecksAllButLast(modulePath, layers);
    assert Qualify(modulePath, layers[|layers| - 1]) == modulePath + "/";
  }
}
