/**
 `CodeSmellDetector`: the configuration it was built with, the per-kind results
 lists its detectors append to, and the active smells the resolver chose.
 */
module SmellDetector {
  import opened Wrappers
  import opened Seqs
  import opened Text
  import opened SyntaxTree
  import opened SmellConfig
  import opened SmellRules
  import opened Duplicates

  /** The DuplicatedCode detector's output for one line list: a single finding
      holding every reported pair, or nothing when there is no pair. */
  function DuplicateFindings(file: string, pairs: seq<DuplicatePair>): (r: seq<Finding>)
    ensures |r| <= 1
    ensures r != [] <==> pairs != []
    ensures forall f :: f in r ==> f == DuplicatedCodeFinding(file, pairs)
  {
    if pairs == [] then [] else [DuplicatedCodeFinding(file, pairs)]
  }

  /** Re-storing a map's own entry changes nothing. */
  lemma UpdateUnchanged(m: map<Smell, seq<Finding>>, key: Smell)
    requires key in m
    ensures m[key := m[key]] == m
  {
  }

  /** What the detector of `kind` appends for one file: the fold of its per-node
      verdict over `ast.walk(tree)`, or, for DuplicatedCode, the single finding
      over the file's lines. A `min_lines` of zero makes the source divide by
      zero; no DuplicatedCode finding is modelled for it. */
  function Findings(config: Config, kind: Smell, file: string, tree: Node, lines: seq<string>): seq<Finding>
  {
    match kind
    case LongMethod => Scan(file, LongMethodRule(config.maxLines), Walk(tree))
    case GodClass => Scan(file, GodClassRule(config.maxMethods, config.maxAttributes), Walk(tree))
    case DuplicatedCode =>
      if config.minLines > 0
      then DuplicateFindings(file, DuplicatePairs(Normalized(lines), config.minLines, config.minSimilarity))
      else []
    case LargeParameterList => Scan(file, LargeParameterListRule(config.maxParameters), Walk(tree))
    case MagicNumbers => Scan(file, MagicNumbersRule(config.allowedNumbers, tree), Walk(tree))
    case FeatureEnvy => Scan(file, FeatureEnvyRule(config.externalCallThreshold), Walk(tree))
  }

  /** The results map after one `if '<kind>' in self.active_smells:` guard of
      `analyze_file`: the detector appends `found` to its own list when active. */
  function Guarded(m: map<Smell, seq<Finding>>, kind: Smell, active: bool, found: seq<Finding>): map<Smell, seq<Finding>>
  {
    if active && kind in m then m[kind := m[kind] + found] else m
  }

  /** Every detector's findings for one file, by kind. */
  function FindingsByKind(config: Config, file: string, tree: Node, lines: seq<string>): (r: map<Smell, seq<Finding>>)
    ensures forall kind: Smell :: kind in r && r[kind] == Findings(config, kind, file, tree, lines)
  {
    SmellKindsComplete();
    map kind: Smell | kind in SmellKinds :: Findings(config, kind, file, tree, lines)
  }

  /** The six guarded detector runs of `analyze_file`, in the source's order, with
      the findings of each kind given by `found`. */
  function Analysis(m: map<Smell, seq<Finding>>, active: seq<string>, found: map<Smell, seq<Finding>>): map<Smell, seq<Finding>>
    requires forall kind: Smell :: kind in found
  {
    var m1 := Guarded(m, LongMethod, SmellName(LongMethod) in active, found[LongMethod]);
    var m2 := Guarded(m1, GodClass, SmellName(GodClass) in active, found[GodClass]);
    var m3 := Guarded(m2, DuplicatedCode, SmellName(DuplicatedCode) in active, found[DuplicatedCode]);
    var m4 := Guarded(m3, LargeParameterList, SmellName(LargeParameterList) in active, found[LargeParameterList]);
    var m5 := Guarded(m4, MagicNumbers, SmellName(MagicNumbers) in active, found[MagicNumbers]);
    Guarded(m5, FeatureEnvy, SmellName(FeatureEnvy) in active, found[FeatureEnvy])
  }

  /** The sequence of guards as a whole: each active kind's list gains exactly its
      detector's findings, once, and every other list is left as it was. */
  lemma AnalysisAppends(m: map<Smell, seq<Finding>>, active: seq<string>, found: map<Smell, seq<Finding>>)
    requires forall kind: Smell :: kind in m && kind in found
    ensures forall kind: Smell :: kind in Analysis(m, active, found)
    ensures forall kind: Smell ::
      Analysis(m, active, found)[kind] == m[kind] + (if SmellName(kind) in active then found[kind] else [])
  {
    var m1 := Guarded(m, LongMethod, SmellName(LongMethod) in active, found[LongMethod]);
    var m2 := Guarded(m1, GodClass, SmellName(GodClass) in active, found[GodClass]);
    var m3 := Guarded(m2, DuplicatedCode, SmellName(DuplicatedCode) in active, found[DuplicatedCode]);
    var m4 := Guarded(m3, LargeParameterList, SmellName(LargeParameterList) in active, found[LargeParameterList]);
    var m5 := Guarded(m4, MagicNumbers, SmellName(MagicNumbers) in active, found[MagicNumbers]);
    forall kind: Smell
      ensures kind in Analysis(m, active, found)
      ensures Analysis(m, active, found)[kind] == m[kind] + (if SmellName(kind) in active then found[kind] else [])
    {
      GuardedEffect(m, LongMethod, SmellName(LongMethod) in active, found[LongMethod], kind);
      GuardedEffect(m1, GodClass, SmellName(GodClass) in active, found[GodClass], kind);
      GuardedEffect(m2, DuplicatedCode, SmellName(DuplicatedCode) in active, found[DuplicatedCode], kind);
      GuardedEffect(m3, LargeParameterList, SmellName(LargeParameterList) in active, found[LargeParameterList], kind);
      GuardedEffect(m4, MagicNumbers, SmellName(MagicNumbers) in active, found[MagicNumbers], kind);
      GuardedEffect(m5, FeatureEnvy, SmellName(FeatureEnvy) in active, found[FeatureEnvy], kind);
      if SmellName(kind) !in active {
        assert m[kind] + [] == m[kind];
      }
      match kind
      case LongMethod =>
      case GodClass =>
      case DuplicatedCode =>
      case LargeParameterList =>
      case MagicNumbers =>
      case FeatureEnvy =>
    }
  }

  /** One guarded detector run touches its own kind's list only. */
  lemma GuardedEffect(m: map<Smell, seq<Finding>>, kind: Smell, active: bool, found: seq<Finding>, key: Smell)
    requires key in m
    ensures key in Guarded(m, kind, active, found)
    ensures Guarded(m, kind, active, found)[key] == if key == kind && active then m[key] + found else m[key]
  {
  }

  /** Appending one node's verdict extends the fold by that verdict. */
  lemma ScanStep(file: string, rule: Rule, nodes: seq<Node>, k: nat)
    requires k < |nodes|
    ensures Scan(file, rule, nodes[..k + 1]) == Scan(file, rule, nodes[..k]) + Verdict(file, rule, nodes[k])
  {
    assert nodes[..k + 1][..k] == nodes[..k];
  }

  /** The attribute counting loop of `detect_god_classes` for one class body: every
      `self.<attr>` target of every assignment met by walking each `__init__`. */
  method CountInitAttributes(body: seq<Node>) returns (attributes: nat)
    ensures attributes == AttributeCount(body)
  {
    attributes := 0;
    for a := 0 to |body|
      invariant attributes == Sum(body[..a], InitAttributeCount)
    {
      var item := body[a];
      ghost var before := attributes;
      if item.FuncDef? && !item.isAsync && item.name == "__init__" {
        var stmts := Walk(item);
        for b := 0 to |stmts|
          invariant attributes == before + Sum(stmts[..b], SelfTargetCount)
        {
          var stmt := stmts[b];
          ghost var beforeStmt := attributes;
          if stmt.Assign? {
            for c := 0 to |stmt.targets|
              invariant attributes == beforeStmt + Sum(stmt.targets[..c], SelfAttributeCount)
            {
              var target := stmt.targets[c];
              if target.Attribute? && target.value.Name? && target.value.id == "self" {
                attributes := attributes + 1;
              }
              assert stmt.targets[..c + 1][..c] == stmt.targets[..c];
            }
            assert stmt.targets[..|stmt.targets|] == stmt.targets;
          }
          assert stmts[..b + 1][..b] == stmts[..b];
        }
        assert stmts[..|stmts|] == stmts;
      }
      assert body[..a + 1][..a] == body[..a];
    }
    assert body[..|body|] == body;
  }

  /** The access counting loop of `detect_feature_envy` for one method. */
  method CountAccesses(node: Node) returns (selfAccesses: nat, externalAccesses: nat)
    ensures selfAccesses == SelfAccesses(node)
    ensures externalAccesses == ExternalAccesses(node)
  {
    var children := Walk(node);
    selfAccesses, externalAccesses := 0, 0;
    for k := 0 to |children|
      invariant selfAccesses == Sum(children[..k], SelfAttributeCount)
      invariant externalAccesses == Sum(children[..k], ExternalAttributeCount)
    {
      var child := children[k];
      if child.Attribute? && child.value.Name? {
        if child.value.id == "self" {
          selfAccesses := selfAccesses + 1;
        } else {
          externalAccesses := externalAccesses + 1;
        }
      }
      assert children[..k + 1][..k] == children[..k];
    }
    assert children[..|children|] == children;
  }

  /** `get_context_for_node` for a literal on `line`: the walk stops at the
      first synchronous function or class whose span contains the line. */
  method ContextForNode(tree: Node, line: int) returns (context: string)
    ensures context == ContextName(tree, line)
  {
    var nodes := Walk(tree);
    var k := 0;
    while k < |nodes|
      invariant 0 <= k <= |nodes|
      invariant forall j :: 0 <= j < k ==> !Encloses(nodes[j], line)
    {
      var node := nodes[k];
      if (node.FuncDef? && !node.isAsync) || node.ClassDef? {
        if node.endLineno.Some? {
          if node.lineno <= line <= node.endLineno.value {
            return node.name;
          }
        }
      }
      k := k + 1;
    }
    return "module";
  }

  /** The body of the loop of `detect_magic_numbers` for one walked node: the
      finding it appends, if any. */
  method JudgeNumber(file: string, node: Node, allowed: seq<real>, tree: Node) returns (found: seq<Finding>)
    ensures found == MagicNumberVerdict(file, node, allowed, tree)
  {
    found := [];
    if node.Num? && node.number !in allowed {
      var context := ContextForNode(tree, node.lineno);
      found := [MagicNumberFinding(file, node.lineno, node.number, context)];
    }
  }

  /** The body of the loop of `detect_feature_envy` for one walked node: the
      finding it appends, if any. */
  method JudgeEnvy(file: string, node: Node, threshold: real) returns (found: seq<Finding>)
    ensures found == FeatureEnvyVerdict(file, node, threshold)
  {
    found := [];
    if node.FuncDef? && !node.isAsync && |node.params| > 0 && node.params[0] == "self" {
      var selfAccesses, externalAccesses := CountAccesses(node);
      var totalAccesses := selfAccesses + externalAccesses;
      if totalAccesses > 0 {
        var externalRatio := (externalAccesses as real) / (totalAccesses as real);
        if externalRatio > threshold && externalAccesses > 3 {
          found := [FeatureEnvyFinding(file, node.name, node.lineno, selfAccesses, externalAccesses, externalRatio, threshold)];
        }
      }
    }
  }

  class CodeSmellDetector {
    const config: Config
    var results: map<Smell, seq<Finding>>
    var activeSmells: seq<string>

    /** The results map has a list for each of the six kinds. */
    ghost predicate Valid()
      reads this
    {
      forall kind: Smell :: kind in results
    }

    /** `__init__` with an already loaded configuration: six empty result lists and
        no active smell yet. */
    constructor (config: Config)
      ensures this.config == config && activeSmells == []
      ensures results == map[LongMethod := [], GodClass := [], DuplicatedCode := [],
                             LargeParameterList := [], MagicNumbers := [], FeatureEnvy := []]
      ensures Valid()
    {
      this.config := config;
      results := map[LongMethod := [], GodClass := [], DuplicatedCode := [],
                     LargeParameterList := [], MagicNumbers := [], FeatureEnvy := []];
      activeSmells := [];
      new;
      forall kind: Smell ensures kind in results {
        match kind
        case LongMethod =>
        case GodClass =>
        case DuplicatedCode =>
        case LargeParameterList =>
        case MagicNumbers =>
        case FeatureEnvy =>
      }
    }

    /** Whether the resolver chose the detector of `kind`. */
    predicate IsActive(kind: Smell)
      reads this
    {
      SmellName(kind) in activeSmells
    }

    /** `determine_active_smells`: stores and returns the resolver's choice. */
    method DetermineActiveSmells(only: string, exclude: string) returns (active: seq<string>)
      modifies this`activeSmells
      ensures active == ActiveSmells(config, only, exclude) && activeSmells == active
      ensures forall s :: s in active ==> s in SmellNames(config.smells)
    {
      activeSmells := ActiveSmells(config, only, exclude);
      active := activeSmells;
    }

    method DetectLongMethods(tree: Node, file: string)
      requires Valid()
      modifies this`results
      ensures Valid()
      ensures results == old(results)[LongMethod := old(results)[LongMethod] + Scan(file, LongMethodRule(config.maxLines), Walk(tree))]
    {
      var maxLines := config.maxLines;
      ghost var rule := LongMethodRule(maxLines);
      var nodes := Walk(tree);
      for k := 0 to |nodes|
        invariant LongMethod in results && results[LongMethod] == old(results)[LongMethod] + Scan(file, rule, nodes[..k])
        invariant results == old(results)[LongMethod := results[LongMethod]]
      {
        var node := nodes[k];
        if node.FuncDef? {
          var startLine := node.lineno;
          var endLine := if node.endLineno.Some? then node.endLineno.value else startLine;
          var methodLines := endLine - startLine + 1;
          if methodLines > maxLines {
            results := results[LongMethod := results[LongMethod] +
              [LongMethodFinding(file, node.name, startLine, endLine, methodLines, maxLines)]];
          }
        }
        ScanStep(file, rule, nodes, k);
      }
      assert nodes[..|nodes|] == nodes;
    }

    method DetectGodClasses(tree: Node, file: string)
      requires Valid()
      modifies this`results
      ensures Valid()
      ensures results == old(results)[GodClass := old(results)[GodClass] + Scan(file, GodClassRule(config.maxMethods, config.maxAttributes), Walk(tree))]
    {
      var maxMethods, maxAttributes := config.maxMethods, config.maxAttributes;
      ghost var rule := GodClassRule(maxMethods, maxAttributes);
      var nodes := Walk(tree);
      for k := 0 to |nodes|
        invariant GodClass in results && results[GodClass] == old(results)[GodClass] + Scan(file, rule, nodes[..k])
        invariant results == old(results)[GodClass := results[GodClass]]
      {
        var node := nodes[k];
        if node.ClassDef? {
          var methods := Filter(node.body, IsFunctionDef);
          var attributes := CountInitAttributes(node.body);
          if |methods| > maxMethods || attributes > maxAttributes {
            var endLine := if node.endLineno.Some? then node.endLineno.value else node.lineno;
            results := results[GodClass := results[GodClass] +
              [GodClassFinding(file, node.name, node.lineno, endLine, |methods|, attributes)]];
          }
        }
        ScanStep(file, rule, nodes, k);
      }
      assert nodes[..|nodes|] == nodes;
    }

    method DetectDuplicatedCode(lines: seq<string>, file: string)
      requires Valid() && config.minLines > 0
      modifies this`results
      ensures Valid()
      ensures results == old(results)[DuplicatedCode := old(results)[DuplicatedCode] +
        DuplicateFindings(file, DuplicatePairs(Normalized(lines), config.minLines, config.minSimilarity))]
    {
      var minLines, minSimilarity := config.minLines, config.minSimilarity;
      var normalized := NormalizeLines(lines);
      var found := FindDuplicates(normalized, minLines, minSimilarity);
      if found != [] {
        results := results[DuplicatedCode := results[DuplicatedCode] + [DuplicatedCodeFinding(file, found)]];
      } else {
        assert results[DuplicatedCode] + DuplicateFindings(file, found) == results[DuplicatedCode];
        UpdateUnchanged(results, DuplicatedCode);
      }
    }

    method DetectLargeParameterLists(tree: Node, file: string)
      requires Valid()
      modifies this`results
      ensures Valid()
      ensures results == old(results)[LargeParameterList := old(results)[LargeParameterList] + Scan(file, LargeParameterListRule(config.maxParameters), Walk(tree))]
    {
      var maxParams := config.maxParameters;
      ghost var rule := LargeParameterListRule(maxParams);
      var nodes := Walk(tree);
      for k := 0 to |nodes|
        invariant LargeParameterList in results && results[LargeParameterList] == old(results)[LargeParameterList] + Scan(file, rule, nodes[..k])
        invariant results == old(results)[LargeParameterList := results[LargeParameterList]]
      {
        var node := nodes[k];
        if node.FuncDef? {
          var paramCount := |node.params|;
          if paramCount > 0 && node.params[0] in ["self", "cls"] {
            paramCount := paramCount - 1;
          }
          if paramCount > maxParams {
            results := results[LargeParameterList := results[LargeParameterList] +
              [LargeParameterListFinding(file, node.name, node.lineno, paramCount, node.params, maxParams)]];
          }
        }
        ScanStep(file, rule, nodes, k);
      }
      assert nodes[..|nodes|] == nodes;
    }

    method DetectMagicNumbers(tree: Node, file: string)
      requires Valid()
      modifies this`results
      ensures Valid()
      ensures results == old(results)[MagicNumbers := old(results)[MagicNumbers] + Scan(file, MagicNumbersRule(config.allowedNumbers, tree), Walk(tree))]
    {
      var allowed := config.allowedNumbers;
      ghost var rule := MagicNumbersRule(allowed, tree);
      var nodes := Walk(tree);
      for k := 0 to |nodes|
        invariant MagicNumbers in results && results[MagicNumbers] == old(results)[MagicNumbers] + Scan(file, rule, nodes[..k])
        invariant results == old(results)[MagicNumbers := results[MagicNumbers]]
      {
        var found := JudgeNumber(file, nodes[k], allowed, tree);
        results := results[MagicNumbers := results[MagicNumbers] + found];
        ScanStep(file, rule, nodes, k);
      }
      assert nodes[..|nodes|] == nodes;
    }

    method DetectFeatureEnvy(tree: Node, file: string)
      requires Valid()
      modifies this`results
      ensures Valid()
      ensures results == old(results)[FeatureEnvy := old(results)[FeatureEnvy] + Scan(file, FeatureEnvyRule(config.externalCallThreshold), Walk(tree))]
    {
      var threshold := config.externalCallThreshold;
      ghost var rule := FeatureEnvyRule(threshold);
      var nodes := Walk(tree);
      for k := 0 to |nodes|
        invariant FeatureEnvy in results && results[FeatureEnvy] == old(results)[FeatureEnvy] + Scan(file, rule, nodes[..k])
        invariant results == old(results)[FeatureEnvy := results[FeatureEnvy]]
      {
        var found := JudgeEnvy(file, nodes[k], threshold);
        results := results[FeatureEnvy := results[FeatureEnvy] + found];
        ScanStep(file, rule, nodes, k);
      }
      assert nodes[..|nodes|] == nodes;
    }

    /** One `if '<kind>' in self.active_smells: self.detect_<kind>(...)` guard of
        `analyze_file`. */
    method DetectIfActive(kind: Smell, tree: Node, lines: seq<string>, file: string)
      requires Valid()
      requires kind == DuplicatedCode && IsActive(kind) ==> config.minLines > 0
      modifies this`results
      ensures Valid()
      ensures results == Guarded(old(results), kind, IsActive(kind), Findings(config, kind, file, tree, lines))
    {
      if IsActive(kind) {
        match kind
        case LongMethod => DetectLongMethods(tree, file);
        case GodClass => DetectGodClasses(tree, file);
        case DuplicatedCode => DetectDuplicatedCode(lines, file);
        case LargeParameterList => DetectLargeParameterLists(tree, file);
        case MagicNumbers => DetectMagicNumbers(tree, file);
        case FeatureEnvy => DetectFeatureEnvy(tree, file);
      }
    }

    /** `analyze_file` on an already parsed file: the six guards in the source's
        order. `AnalysisAppends` reads the resulting map kind by kind. */
    method AnalyzeFile(file: string, tree: Node, source: string)
      requires Valid()
      requires IsActive(DuplicatedCode) ==> config.minLines > 0
      modifies this`results
      ensures Valid()
      ensures results == Analysis(old(results), activeSmells, FindingsByKind(config, file, tree, Split(source, '\n')))
    {
      var sourceLines := Split(source, '\n');
      DetectIfActive(LongMethod, tree, sourceLines, file);
      DetectIfActive(GodClass, tree, sourceLines, file);
      DetectIfActive(DuplicatedCode, tree, sourceLines, file);
      DetectIfActive(LargeParameterList, tree, sourceLines, file);
      DetectIfActive(MagicNumbers, tree, sourceLines, file);
      DetectIfActive(FeatureEnvy, tree, sourceLines, file);
    }
  }
}
