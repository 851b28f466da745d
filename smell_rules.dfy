/**
 What each tree detector of `CodeSmellDetector` decides about one node yielded
 by `ast.walk`, the findings it records, and what the fold of those decisions
 over the whole walk reports about the tree.
 */
module SmellRules {
  import opened Wrappers
  import opened Seqs
  import opened SyntaxTree

  /** One reported pair of similar blocks: the windows of `length` normalised lines
      starting at offsets `first` and `second` (rendered 1-based as
      `lines1 = "first+1-first+length"` and `lines2` alike), and the exact fraction
      of equal positions. */
  datatype DuplicatePair = DuplicatePair(first: nat, second: nat, length: nat, similarity: real)

  /** The finding records appended to `self.results`, one variant per smell kind,
      without the rendered `message` text. */
  datatype Finding =
    | LongMethodFinding(file: string, name: string, startLine: int, endLine: int,
                        length: int, maxLines: int)
    | GodClassFinding(file: string, name: string, startLine: int, endLine: int,
                      methods: nat, attributes: nat)
    | DuplicatedCodeFinding(file: string, duplicates: seq<DuplicatePair>)
    | LargeParameterListFinding(file: string, name: string, line: int, parameterCount: int,
                                parameters: seq<string>, maxParameters: int)
    | MagicNumberFinding(file: string, line: int, number: real, context: string)
    | FeatureEnvyFinding(file: string, name: string, line: int, selfAccesses: nat,
                         externalAccesses: nat, ratio: real, threshold: real)

  // ---------------------------------------------------------------- LongMethod

  /** `node.end_lineno if hasattr(node, 'end_lineno') else node.lineno`. From
      Python 3.8 on the attribute always exists, so the fallback to `lineno` for a
      missing end line follows a branch the source never takes. */
  function EndLine(n: Node): int
    requires n.FuncDef? || n.ClassDef?
  {
    n.endLineno.GetOr(n.lineno)
  }

  /** The number of lines a definition spans, both boundary lines included; a
      definition without an end line counts as one line. */
  function MethodLength(n: Node): (r: int)
    requires n.FuncDef?
    ensures n.endLineno.None? ==> r == 1
    ensures n.endLineno.Some? ==> r == n.endLineno.value - n.lineno + 1
  {
    EndLine(n) - n.lineno + 1
  }

  function LongMethodVerdict(file: string, n: Node, maxLines: int): seq<Finding> {
    if n.FuncDef? && MethodLength(n) > maxLines then
      [LongMethodFinding(file, n.name, n.lineno, EndLine(n), MethodLength(n), maxLines)]
    else []
  }

  // ------------------------------------------------------------------ GodClass

  predicate IsFunctionDef(n: Node) {
    n.FuncDef?
  }

  /** `len([n for n in node.body if isinstance(n, (FunctionDef, AsyncFunctionDef))])`. */
  function MethodCount(body: seq<Node>): nat {
    |Filter(body, IsFunctionDef)|
  }

  /** An expression of the shape `self.<attr>`: an attribute whose object is the
      plain name `self` (the literal name, whatever the method's first parameter). */
  predicate IsSelfAttribute(n: Node) {
    n.Attribute? && n.value.Name? && n.value.id == "self"
  }

  function SelfAttributeCount(n: Node): nat {
    if IsSelfAttribute(n) then 1 else 0
  }

  /** The number of `self.<attr>` targets of an assignment statement. */
  function SelfTargetCount(n: Node): nat {
    if n.Assign? then Sum(n.targets, SelfAttributeCount) else 0
  }

  /** A synchronous method named `__init__`. */
  predicate IsInit(n: Node) {
    n.FuncDef? && !n.isAsync && n.name == "__init__"
  }

  /** The `self.<attr>` assignment targets found by walking one class-body item,
      when it is an `__init__`. */
  function InitAttributeCount(item: Node): nat {
    if IsInit(item) then Sum(Walk(item), SelfTargetCount) else 0
  }

  /** The `attributes` counter of `detect_god_classes` for a class body. */
  function AttributeCount(body: seq<Node>): nat {
    Sum(body, InitAttributeCount)
  }

  function GodClassVerdict(file: string, n: Node, maxMethods: int, maxAttributes: int): seq<Finding> {
    if n.ClassDef? && (MethodCount(n.body) > maxMethods || AttributeCount(n.body) > maxAttributes) then
      [GodClassFinding(file, n.name, n.lineno, EndLine(n), MethodCount(n.body), AttributeCount(n.body))]
    else []
  }

  // -------------------------------------------------------- LargeParameterList

  /** `param_count`: the positional parameters, minus one when the first is named
      `self` or `cls`. */
  function ParameterCount(params: seq<string>): (r: nat)
    ensures r <= |params| && |params| <= r + 1
    ensures r < |params| <==> |params| > 0 && params[0] in ["self", "cls"]
  {
    if |params| > 0 && params[0] in ["self", "cls"] then |params| - 1 else |params|
  }

  function LargeParameterListVerdict(file: string, n: Node, maxParameters: int): seq<Finding> {
    if n.FuncDef? && ParameterCount(n.params) > maxParameters then
      [LargeParameterListFinding(file, n.name, n.lineno, ParameterCount(n.params), n.params, maxParameters)]
    else []
  }

  // -------------------------------------------------------------- MagicNumbers

  /** A candidate context of `get_context_for_node`: a synchronous function or a
      class (never an async function) whose known span contains `line`. */
  predicate Encloses(n: Node, line: int) {
    && ((n.FuncDef? && !n.isAsync) || n.ClassDef?)
    && n.endLineno.Some?
    && n.lineno <= line <= n.endLineno.value
  }

  /** The loop of `get_context_for_node`: the position of the first node of
      `nodes` that encloses `line`, if any. */
  function FindContext(nodes: seq<Node>, line: int): (r: Option<nat>)
    ensures r.Some? ==> r.value < |nodes| && Encloses(nodes[r.value], line)
    ensures r.Some? ==> forall k :: 0 <= k < r.value ==> !Encloses(nodes[k], line)
    ensures r.None? ==> forall k :: 0 <= k < |nodes| ==> !Encloses(nodes[k], line)
  {
    if nodes == [] then None
    else if Encloses(nodes[0], line) then Some(0)
    else match FindContext(nodes[1..], line)
      case None => None
      case Some(k) => Some(k + 1)
  }

  /** `get_context_for_node(tree, node)` for a literal on `line`: the name of the
      first enclosing definition in walk order, or `"module"`. */
  function ContextName(tree: Node, line: int): string {
    var nodes := Walk(tree);
    match FindContext(nodes, line)
    case Some(k) => nodes[k].name
    case None => "module"
  }

  function MagicNumberVerdict(file: string, n: Node, allowed: seq<real>, tree: Node): seq<Finding> {
    if n.Num? && n.number !in allowed then
      [MagicNumberFinding(file, n.lineno, n.number, ContextName(tree, n.lineno))]
    else []
  }

  // --------------------------------------------------------------- FeatureEnvy

  /** An attribute access `<name>.<attr>` whose object is a name other than `self`. */
  function ExternalAttributeCount(n: Node): nat {
    if n.Attribute? && n.value.Name? && n.value.id != "self" then 1 else 0
  }

  /** A synchronous definition whose first positional parameter is `self`. */
  predicate IsMethodWithSelf(n: Node) {
    n.FuncDef? && !n.isAsync && |n.params| > 0 && n.params[0] == "self"
  }

  /** The flagging test of `detect_feature_envy`, with the ratio taken exactly. */
  predicate Envious(selfAccesses: nat, externalAccesses: nat, threshold: real) {
    selfAccesses + externalAccesses > 0 && Ratio(selfAccesses, externalAccesses) > threshold && externalAccesses > 3
  }

  /** The `self_accesses` counter: `self.<attr>` accesses anywhere in the subtree. */
  function SelfAccesses(n: Node): nat {
    Sum(Walk(n), SelfAttributeCount)
  }

  /** The `external_accesses` counter: accesses through any other plain name. */
  function ExternalAccesses(n: Node): nat {
    Sum(Walk(n), ExternalAttributeCount)
  }

  /** `external_ratio`, taken only when some access was counted. */
  function Ratio(selfAccesses: nat, externalAccesses: nat): real
    requires selfAccesses + externalAccesses > 0
  {
    (externalAccesses as real) / ((selfAccesses + externalAccesses) as real)
  }

  function FeatureEnvyVerdict(file: string, n: Node, threshold: real): seq<Finding> {
    if IsMethodWithSelf(n) && Envious(SelfAccesses(n), ExternalAccesses(n), threshold) then
      [FeatureEnvyFinding(file, n.name, n.lineno, SelfAccesses(n), ExternalAccesses(n),
                          Ratio(SelfAccesses(n), ExternalAccesses(n)), threshold)]
    else []
  }

  // ----------------------------------------------------------- the fold

  /** A tree detector together with the thresholds it read from the configuration
      (and, for magic numbers, the tree the context lookup walks). */
  datatype Rule =
    | LongMethodRule(maxLines: int)
    | GodClassRule(maxMethods: int, maxAttributes: int)
    | LargeParameterListRule(maxParameters: int)
    | MagicNumbersRule(allowed: seq<real>, tree: Node)
    | FeatureEnvyRule(threshold: real)

  /** What a detector appends when the walk yields node `n`: at most one finding. */
  function Verdict(file: string, rule: Rule, n: Node): (r: seq<Finding>)
    ensures |r| <= 1
  {
    match rule
    case LongMethodRule(maxLines) => LongMethodVerdict(file, n, maxLines)
    case GodClassRule(maxMethods, maxAttributes) => GodClassVerdict(file, n, maxMethods, maxAttributes)
    case LargeParameterListRule(maxParameters) => LargeParameterListVerdict(file, n, maxParameters)
    case MagicNumbersRule(allowed, tree) => MagicNumberVerdict(file, n, allowed, tree)
    case FeatureEnvyRule(threshold) => FeatureEnvyVerdict(file, n, threshold)
  }

  /** The findings a detector appends while looping over `nodes`, in order. */
  function Scan(file: string, rule: Rule, nodes: seq<Node>): seq<Finding> {
    FlatMap(nodes, n => Verdict(file, rule, n))
  }

  /** The findings of a detector over `ast.walk(tree)` are, up to order, those of a
      depth-first visit: one verdict per node of the tree, each node judged on its
      own; a finding is present iff some node of the tree produced it. */
  lemma ScanWalk(file: string, rule: Rule, tree: Node)
    ensures multiset(Scan(file, rule, Walk(tree))) == multiset(Scan(file, rule, Preorder(tree)))
    ensures forall f :: f in Scan(file, rule, Walk(tree)) <==>
      exists d :: d in Preorder(tree) && f in Verdict(file, rule, d)
  {
    var v := n => Verdict(file, rule, n);
    WalkPermutation(tree);
    FlatMapReorder(Walk(tree), Preorder(tree), v);
    forall f ensures f in Scan(file, rule, Walk(tree)) <==> exists d :: d in Preorder(tree) && f in Verdict(file, rule, d) {
      if f in FlatMap(Walk(tree), v) {
        var d :| d in Preorder(tree) && f in v(d);
        assert f in Verdict(file, rule, d);
      }
      if exists d :: d in Preorder(tree) && f in Verdict(file, rule, d) {
        var d :| d in Preorder(tree) && f in Verdict(file, rule, d);
        assert f in v(d);
      }
    }
  }

  /** `ScanWalk` for one finding. */
  lemma InScan(file: string, rule: Rule, tree: Node, f: Finding)
    ensures f in Scan(file, rule, Walk(tree)) <==> exists d :: d in Preorder(tree) && f in Verdict(file, rule, d)
  {
    ScanWalk(file, rule, tree);
  }

  // ------------------------------------------------------- per-detector facts

  /** LongMethod: a definition anywhere in the tree (nested ones included, each
      judged on its own span) is reported, with its length and the threshold,
      exactly when it spans more than `maxLines` lines; every finding stems from
      such a definition. */
  lemma LongMethodReport(file: string, maxLines: int, tree: Node)
    ensures forall d :: d in Preorder(tree) && d.FuncDef? ==>
      (LongMethodFinding(file, d.name, d.lineno, EndLine(d), MethodLength(d), maxLines)
         in Scan(file, LongMethodRule(maxLines), Walk(tree))
       <==> MethodLength(d) > maxLines)
    ensures forall f :: f in Scan(file, LongMethodRule(maxLines), Walk(tree)) ==>
      exists d :: d in Preorder(tree) && d.FuncDef? && MethodLength(d) > maxLines &&
        f == LongMethodFinding(file, d.name, d.lineno, EndLine(d), MethodLength(d), maxLines)
  {
    var rule := LongMethodRule(maxLines);
    forall d | d in Preorder(tree) && d.FuncDef?
      ensures (LongMethodFinding(file, d.name, d.lineno, EndLine(d), MethodLength(d), maxLines)
                 in Scan(file, rule, Walk(tree))) <==> MethodLength(d) > maxLines
    {
      InScan(file, rule, tree, LongMethodFinding(file, d.name, d.lineno, EndLine(d), MethodLength(d), maxLines));
      assert Verdict(file, rule, d) == LongMethodVerdict(file, d, maxLines);
      if LongMethodFinding(file, d.name, d.lineno, EndLine(d), MethodLength(d), maxLines) in Scan(file, rule, Walk(tree)) {
        var e :| e in Preorder(tree) &&
                 LongMethodFinding(file, d.name, d.lineno, EndLine(d), MethodLength(d), maxLines) in Verdict(file, rule, e);
        assert Verdict(file, rule, e) == LongMethodVerdict(file, e, maxLines);
      }
    }
    forall f | f in Scan(file, rule, Walk(tree))
      ensures exists d :: d in Preorder(tree) && d.FuncDef? && MethodLength(d) > maxLines &&
                f == LongMethodFinding(file, d.name, d.lineno, EndLine(d), MethodLength(d), maxLines)
    {
      InScan(file, rule, tree, f);
      var e :| e in Preorder(tree) && f in Verdict(file, rule, e);
      assert Verdict(file, rule, e) == LongMethodVerdict(file, e, maxLines);
    }
  }

  /** A definition nested inside another definition of the tree is reported on
      its own span, whatever the enclosing definition's verdict. */
  lemma NestedDefsJudgedIndependently(file: string, maxLines: int, tree: Node, outer: Node, inner: Node)
    requires outer in Preorder(tree) && inner in Preorder(outer)
    requires inner.FuncDef? && MethodLength(inner) > maxLines
    ensures LongMethodFinding(file, inner.name, inner.lineno, EndLine(inner), MethodLength(inner), maxLines)
      in Scan(file, LongMethodRule(maxLines), Walk(tree))
  {
    PreorderTransitive(tree, outer, inner);
    LongMethodReport(file, maxLines, tree);
  }

  /** GodClass: a class anywhere in the tree is reported, with its direct method
      count and its `__init__` attribute count, exactly when one of them exceeds
      its threshold. */
  lemma GodClassReport(file: string, maxMethods: int, maxAttributes: int, tree: Node)
    ensures forall d :: d in Preorder(tree) && d.ClassDef? ==>
      (GodClassFinding(file, d.name, d.lineno, EndLine(d), MethodCount(d.body), AttributeCount(d.body))
         in Scan(file, GodClassRule(maxMethods, maxAttributes), Walk(tree))
       <==> MethodCount(d.body) > maxMethods || AttributeCount(d.body) > maxAttributes)
    ensures forall f :: f in Scan(file, GodClassRule(maxMethods, maxAttributes), Walk(tree)) ==>
      exists d :: d in Preorder(tree) && d.ClassDef? &&
        (MethodCount(d.body) > maxMethods || AttributeCount(d.body) > maxAttributes) &&
        f == GodClassFinding(file, d.name, d.lineno, EndLine(d), MethodCount(d.body), AttributeCount(d.body))
  {
    var rule := GodClassRule(maxMethods, maxAttributes);
    forall d | d in Preorder(tree) && d.ClassDef?
      ensures (GodClassFinding(file, d.name, d.lineno, EndLine(d), MethodCount(d.body), AttributeCount(d.body))
                 in Scan(file, rule, Walk(tree))) <==>
              MethodCount(d.body) > maxMethods || AttributeCount(d.body) > maxAttributes
    {
      InScan(file, rule, tree, GodClassFinding(file, d.name, d.lineno, EndLine(d), MethodCount(d.body), AttributeCount(d.body)));
      assert Verdict(file, rule, d) == GodClassVerdict(file, d, maxMethods, maxAttributes);
      if GodClassFinding(file, d.name, d.lineno, EndLine(d), MethodCount(d.body), AttributeCount(d.body))
           in Scan(file, rule, Walk(tree)) {
        var e :| e in Preorder(tree) &&
                 GodClassFinding(file, d.name, d.lineno, EndLine(d), MethodCount(d.body), AttributeCount(d.body))
                   in Verdict(file, rule, e);
        assert Verdict(file, rule, e) == GodClassVerdict(file, e, maxMethods, maxAttributes);
      }
    }
    forall f | f in Scan(file, rule, Walk(tree))
      ensures exists d :: d in Preorder(tree) && d.ClassDef? &&
                (MethodCount(d.body) > maxMethods || AttributeCount(d.body) > maxAttributes) &&
                f == GodClassFinding(file, d.name, d.lineno, EndLine(d), MethodCount(d.body), AttributeCount(d.body))
    {
      InScan(file, rule, tree, f);
      var e :| e in Preorder(tree) && f in Verdict(file, rule, e);
      assert Verdict(file, rule, e) == GodClassVerdict(file, e, maxMethods, maxAttributes);
    }
  }

  /** The method count sees only the direct body items that are definitions:
      each of them with its multiplicity, and nothing else. */
  lemma MethodCountDirectDefs(body: seq<Node>)
    ensures MethodCount(body) <= |body|
    ensures forall x :: multiset(Filter(body, IsFunctionDef))[x] == (if x.FuncDef? then multiset(body)[x] else 0)
    ensures MethodCount(body) == |body| <== forall k :: 0 <= k < |body| ==> body[k].FuncDef?
  {
    forall x ensures multiset(Filter(body, IsFunctionDef))[x] == (if x.FuncDef? then multiset(body)[x] else 0) {
      FilterCounts(body, IsFunctionDef, x);
    }
    if forall k :: 0 <= k < |body| ==> body[k].FuncDef? {
      FilterAll(body, IsFunctionDef);
    }
  }

  /** The attributes of an `__init__` are its `self.<attr>` assignment targets
      counted over the whole subtree, repeats included: the breadth-first order of
      the walk does not matter. */
  lemma InitAttributesDepthFirst(item: Node)
    requires IsInit(item)
    ensures InitAttributeCount(item) == Sum(Preorder(item), SelfTargetCount)
  {
    WalkVisitsEveryNode(item);
    SumPermutation(Walk(item), Preorder(item), SelfTargetCount);
  }

  /** The attribute count of a class body does not depend on the order of its items. */
  lemma AttributeCountOrderFree(a: seq<Node>, b: seq<Node>)
    requires multiset(a) == multiset(b)
    ensures AttributeCount(a) == AttributeCount(b)
  {
    SumPermutation(a, b, InitAttributeCount);
  }

  /** LargeParameterList: a definition anywhere in the tree is reported, with its
      count (receiver discounted) and its full positional parameter list (receiver
      included), exactly when the count exceeds `maxParameters`. */
  lemma ParameterListReport(file: string, maxParameters: int, tree: Node)
    ensures forall d :: d in Preorder(tree) && d.FuncDef? ==>
      (LargeParameterListFinding(file, d.name, d.lineno, ParameterCount(d.params), d.params, maxParameters)
         in Scan(file, LargeParameterListRule(maxParameters), Walk(tree))
       <==> ParameterCount(d.params) > maxParameters)
    ensures forall f :: f in Scan(file, LargeParameterListRule(maxParameters), Walk(tree)) ==>
      exists d :: d in Preorder(tree) && d.FuncDef? && ParameterCount(d.params) > maxParameters &&
        f == LargeParameterListFinding(file, d.name, d.lineno, ParameterCount(d.params), d.params, maxParameters)
  {
    var rule := LargeParameterListRule(maxParameters);
    forall d | d in Preorder(tree) && d.FuncDef?
      ensures (LargeParameterListFinding(file, d.name, d.lineno, ParameterCount(d.params), d.params, maxParameters)
                 in Scan(file, rule, Walk(tree))) <==> ParameterCount(d.params) > maxParameters
    {
      InScan(file, rule, tree, LargeParameterListFinding(file, d.name, d.lineno, ParameterCount(d.params), d.params, maxParameters));
      assert Verdict(file, rule, d) == LargeParameterListVerdict(file, d, maxParameters);
      if LargeParameterListFinding(file, d.name, d.lineno, ParameterCount(d.params), d.params, maxParameters)
           in Scan(file, rule, Walk(tree)) {
        var e :| e in Preorder(tree) &&
                 LargeParameterListFinding(file, d.name, d.lineno, ParameterCount(d.params), d.params, maxParameters)
                   in Verdict(file, rule, e);
        assert Verdict(file, rule, e) == LargeParameterListVerdict(file, e, maxParameters);
      }
    }
    forall f | f in Scan(file, rule, Walk(tree))
      ensures exists d :: d in Preorder(tree) && d.FuncDef? && ParameterCount(d.params) > maxParameters &&
                f == LargeParameterListFinding(file, d.name, d.lineno, ParameterCount(d.params), d.params, maxParameters)
    {
      InScan(file, rule, tree, f);
      var e :| e in Preorder(tree) && f in Verdict(file, rule, e);
      assert Verdict(file, rule, e) == LargeParameterListVerdict(file, e, maxParameters);
    }
  }

  /** MagicNumbers: a numeric literal anywhere in the tree is reported, with its
      line and its context, exactly when its value is not allowed; no allowed value
      is ever reported. */
  lemma MagicNumberReport(file: string, allowed: seq<real>, tree: Node)
    ensures forall d :: d in Preorder(tree) && d.Num? ==>
      (MagicNumberFinding(file, d.lineno, d.number, ContextName(tree, d.lineno))
         in Scan(file, MagicNumbersRule(allowed, tree), Walk(tree))
       <==> d.number !in allowed)
    ensures forall f :: f in Scan(file, MagicNumbersRule(allowed, tree), Walk(tree)) ==>
      f.MagicNumberFinding? && f.number !in allowed &&
      exists d :: d in Preorder(tree) && d.Num? && d.lineno == f.line && d.number == f.number &&
        f.context == ContextName(tree, f.line)
  {
    var rule := MagicNumbersRule(allowed, tree);
    forall d | d in Preorder(tree) && d.Num?
      ensures (MagicNumberFinding(file, d.lineno, d.number, ContextName(tree, d.lineno))
                 in Scan(file, rule, Walk(tree))) <==> d.number !in allowed
    {
      InScan(file, rule, tree, MagicNumberFinding(file, d.lineno, d.number, ContextName(tree, d.lineno)));
      assert Verdict(file, rule, d) == MagicNumberVerdict(file, d, allowed, tree);
      if MagicNumberFinding(file, d.lineno, d.number, ContextName(tree, d.lineno)) in Scan(file, rule, Walk(tree)) {
        var e :| e in Preorder(tree) &&
                 MagicNumberFinding(file, d.lineno, d.number, ContextName(tree, d.lineno)) in Verdict(file, rule, e);
        assert Verdict(file, rule, e) == MagicNumberVerdict(file, e, allowed, tree);
      }
    }
    forall f | f in Scan(file, rule, Walk(tree))
      ensures f.MagicNumberFinding? && f.number !in allowed &&
              exists d :: d in Preorder(tree) && d.Num? && d.lineno == f.line && d.number == f.number &&
                f.context == ContextName(tree, f.line)
    {
      InScan(file, rule, tree, f);
      var e :| e in Preorder(tree) && f in Verdict(file, rule, e);
      assert Verdict(file, rule, e) == MagicNumberVerdict(file, e, allowed, tree);
    }
  }

  /** The context is `"module"` when no candidate of the tree spans the line, and
      otherwise the name of a candidate that does. */
  lemma ContextIsEnclosing(tree: Node, line: int)
    ensures (forall d :: d in Preorder(tree) ==> !Encloses(d, line)) ==> ContextName(tree, line) == "module"
    ensures (exists d :: d in Preorder(tree) && Encloses(d, line)) ==>
      exists d :: d in Preorder(tree) && Encloses(d, line) && ContextName(tree, line) == d.name
  {
    WalkVisitsEveryNode(tree);
    var nodes := Walk(tree);
    match FindContext(nodes, line)
    case Some(k) =>
      assert nodes[k] in nodes;
    case None =>
  }

  /** Breadth-first order makes the outermost candidate win: in a module, a line
      inside the top-level statement `stmts[k]` (a function or a class, say a class
      whose methods also span the line) gets that statement's name, provided no
      earlier top-level statement spans it. */
  lemma TopLevelContext(stmts: seq<Node>, k: nat, line: int)
    requires k < |stmts| && Encloses(stmts[k], line)
    requires forall j :: 0 <= j < k ==> !Encloses(stmts[j], line)
    ensures ContextName(Other(stmts), line) == stmts[k].name
  {
    var nodes := Walk(Other(stmts));
    WalkTopLevel(stmts, k);
    assert nodes[0] == Other(stmts) by { WalkVisitsEveryNode(Other(stmts)); }
    var r := FindContext(nodes, line);
    assert Encloses(nodes[1 + k], line);
    assert r.Some? && r.value <= 1 + k;
    if r.value < 1 + k {
      assert r.value != 0;
      WalkTopLevel(stmts, r.value - 1);
      assert false;
    }
  }

  /** FeatureEnvy: a synchronous method with a `self` receiver anywhere in the tree
      is reported, with its access counts taken over its whole subtree, when it is
      envious; every finding comes from such a method. */
  lemma FeatureEnvyReport(file: string, threshold: real, tree: Node)
    ensures forall d :: d in Preorder(tree) && IsMethodWithSelf(d) && Envious(SelfAccesses(d), ExternalAccesses(d), threshold) ==>
      FeatureEnvyFinding(file, d.name, d.lineno, SelfAccesses(d), ExternalAccesses(d),
                         Ratio(SelfAccesses(d), ExternalAccesses(d)), threshold)
        in Scan(file, FeatureEnvyRule(threshold), Walk(tree))
    ensures forall f :: f in Scan(file, FeatureEnvyRule(threshold), Walk(tree)) ==>
      exists d :: d in Preorder(tree) && IsMethodWithSelf(d) && Envious(SelfAccesses(d), ExternalAccesses(d), threshold) &&
        f == FeatureEnvyFinding(file, d.name, d.lineno, SelfAccesses(d), ExternalAccesses(d),
                                Ratio(SelfAccesses(d), ExternalAccesses(d)), threshold)
  {
    var rule := FeatureEnvyRule(threshold);
    forall d | d in Preorder(tree) && IsMethodWithSelf(d) && Envious(SelfAccesses(d), ExternalAccesses(d), threshold)
      ensures FeatureEnvyFinding(file, d.name, d.lineno, SelfAccesses(d), ExternalAccesses(d),
                                 Ratio(SelfAccesses(d), ExternalAccesses(d)), threshold)
                in Scan(file, rule, Walk(tree))
    {
      InScan(file, rule, tree, FeatureEnvyFinding(file, d.name, d.lineno, SelfAccesses(d), ExternalAccesses(d),
                                 Ratio(SelfAccesses(d), ExternalAccesses(d)), threshold));
      assert Verdict(file, rule, d) == FeatureEnvyVerdict(file, d, threshold);
    }
    forall f | f in Scan(file, rule, Walk(tree))
      ensures exists d :: d in Preorder(tree) && IsMethodWithSelf(d) &&
                Envious(SelfAccesses(d), ExternalAccesses(d), threshold) &&
                f == FeatureEnvyFinding(file, d.name, d.lineno, SelfAccesses(d), ExternalAccesses(d),
                                        Ratio(SelfAccesses(d), ExternalAccesses(d)), threshold)
    {
      InScan(file, rule, tree, f);
      var d :| d in Preorder(tree) && f in Verdict(file, rule, d);
      assert Verdict(file, rule, d) == FeatureEnvyVerdict(file, d, threshold);
    }
  }

  /** Every FeatureEnvy finding has more than three external accesses and an exact
      external ratio above the threshold. */
  lemma FeatureEnvyFindingsBounds(file: string, threshold: real, tree: Node)
    ensures forall f :: f in Scan(file, FeatureEnvyRule(threshold), Walk(tree)) ==>
      f.FeatureEnvyFinding? && f.externalAccesses > 3 && f.ratio > threshold &&
      f.selfAccesses + f.externalAccesses > 0 && f.ratio == Ratio(f.selfAccesses, f.externalAccesses)
  {
    FeatureEnvyReport(file, threshold, tree);
  }

  /** The access counts of a method do not depend on the walk order. */
  lemma AccessCountsDepthFirst(d: Node)
    ensures SelfAccesses(d) == Sum(Preorder(d), SelfAttributeCount)
    ensures ExternalAccesses(d) == Sum(Preorder(d), ExternalAttributeCount)
  {
    WalkVisitsEveryNode(d);
    SumPermutation(Walk(d), Preorder(d), SelfAttributeCount);
    SumPermutation(Walk(d), Preorder(d), ExternalAttributeCount);
  }

  /** More external accesses never clear a flagged method, and more self accesses
      never flag a clean one. */
  lemma EnvyMonotone(s: nat, e: nat, s': nat, e': nat, threshold: real)
    requires Envious(s, e, threshold) && s' <= s && e <= e'
    ensures Envious(s', e', threshold)
  {
    var t, t' := (s + e) as real, (s' + e') as real;
    assert (e as real) * t' <= (e' as real) * t by {
      assert (e as real) * t' == (e as real) * (s' as real) + (e as real) * (e' as real);
      assert (e' as real) * t == (e' as real) * (s as real) + (e' as real) * (e as real);
      ProductMonotone(e as real, s' as real, e' as real, s as real);
    }
    RatioMonotone(e as real, t, e' as real, t');
  }

  lemma ProductMonotone(a: real, b: real, c: real, d: real)
    requires 0.0 <= a <= c && 0.0 <= b <= d
    ensures a * b <= c * d
  {
    assert (c - a) * b >= 0.0;
    assert c * (d - b) >= 0.0;
  }

  lemma RatioMonotone(a: real, t: real, a': real, t': real)
    requires t > 0.0 && t' > 0.0 && a * t' <= a' * t
    ensures a / t <= a' / t'
  {
    assert a / t == (a * t') / (t * t');
    assert a' / t' == (a' * t) / (t * t');
  }
}
