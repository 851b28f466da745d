/**
 The syntax tree the detectors consume, and Python's `ast.walk` over it.

 The tree is a closed variant type standing for the `ast` node classes the
 detectors inspect. Everything else (expressions, statements, the `arguments`
 node of a definition, ...) is an `Other` node that only carries its children,
 in the order `ast.iter_child_nodes` yields them.
 */
module SyntaxTree {
  import opened Wrappers

  datatype Node =
      /** `ast.FunctionDef` (`isAsync == false`) or `ast.AsyncFunctionDef`.
          `params` are the names in `args.args` (the positional parameters);
          `children` are all child nodes in iteration order (the `arguments`
          node with its defaults, the body, the decorators, the annotations). */
    | FuncDef(name: string, isAsync: bool, lineno: int, endLineno: Option<int>,
              params: seq<string>, children: seq<Node>)
      /** `ast.ClassDef`; `bases` holds the base and keyword expressions, which
          `ast.iter_child_nodes` yields before `body`, and `decorators` come after. */
    | ClassDef(name: string, lineno: int, endLineno: Option<int>,
               bases: seq<Node>, body: seq<Node>, decorators: seq<Node>)
      /** `ast.Assign`: `targets = value`. */
    | Assign(targets: seq<Node>, value: Node)
      /** `ast.Attribute`: `value.attr`. */
    | Attribute(value: Node, attr: string)
      /** `ast.Name`. */
    | Name(id: string)
      /** A numeric literal (`ast.Constant` holding an int or a float, or the old `ast.Num`). */
    | Num(number: real, lineno: int)
      /** Any other node. */
    | Other(children: seq<Node>)

  /** `ast.iter_child_nodes(n)`. */
  function Children(n: Node): seq<Node> {
    match n
    case FuncDef(_, _, _, _, _, children) => children
    case ClassDef(_, _, _, bases, body, decorators) => bases + body + decorators
    case Assign(targets, value) => targets + [value]
    case Attribute(value, _) => [value]
    case Name(_) => []
    case Num(_, _) => []
    case Other(children) => children
  }

  /** Depth-first pre-order listing of a tree: the node, then the listings of
      its children from left to right. This is the reference enumeration of
      "every node of the tree" against which the walk is checked. */
  function Preorder(n: Node): (r: seq<Node>)
    ensures r != [] && r[0] == n
    decreases n, 1
  {
    match n
    case FuncDef(_, _, _, _, _, children) => [n] + PreorderAll(children)
    case ClassDef(_, _, _, bases, body, decorators) =>
      [n] + PreorderAll(bases) + PreorderAll(body) + PreorderAll(decorators)
    case Assign(targets, value) => [n] + PreorderAll(targets) + Preorder(value)
    case Attribute(value, _) => [n] + Preorder(value)
    case Name(_) => [n]
    case Num(_, _) => [n]
    case Other(children) => [n] + PreorderAll(children)
  }

  function PreorderAll(ns: seq<Node>): seq<Node>
    decreases ns, 0
  {
    if ns == [] then [] else Preorder(ns[0]) + PreorderAll(ns[1..])
  }

  lemma {:induction false} PreorderAllAppend(a: seq<Node>, b: seq<Node>)
    ensures PreorderAll(a + b) == PreorderAll(a) + PreorderAll(b)
  {
    if a == [] {
      assert a + b == b;
    } else {
      assert (a + b)[1..] == a[1..] + b;
      PreorderAllAppend(a[1..], b);
    }
  }

  /** The pre-order listing of a node is the node followed by the listing of
      `Children(n)`, whatever the node's kind. */
  lemma PreorderChildren(n: Node)
    ensures Preorder(n) == [n] + PreorderAll(Children(n))
  {
    match n
    case ClassDef(_, _, _, bases, body, decorators) =>
      PreorderAllAppend(bases, body);
      PreorderAllAppend(bases + body, decorators);
      assert PreorderAll(Children(n)) == PreorderAll(bases) + PreorderAll(body) + PreorderAll(decorators);
    case Assign(targets, value) =>
      PreorderAllAppend(targets, [value]);
      assert PreorderAll([value]) == Preorder(value) by { assert [value][1..] == []; }
    case Attribute(value, _) =>
      assert PreorderAll([value]) == Preorder(value) by { assert [value][1..] == []; }
    case _ =>
  }

  /** A node listed below some element of `ns` is listed below one particular element. */
  lemma {:induction false} PreorderAllMembers(ns: seq<Node>, x: Node)
    requires x in PreorderAll(ns)
    ensures exists c :: c in ns && x in Preorder(c) && |Preorder(c)| <= |PreorderAll(ns)|
  {
    if ns != [] {
      if x !in Preorder(ns[0]) {
        PreorderAllMembers(ns[1..], x);
        var c :| c in ns[1..] && x in Preorder(c) && |Preorder(c)| <= |PreorderAll(ns[1..])|;
        assert c in ns;
      }
    }
  }

  /** "Is inside" is transitive: a node inside a subtree of `t` is inside `t`. */
  lemma {:induction false} PreorderTransitive(t: Node, d: Node, e: Node)
    requires d in Preorder(t) && e in Preorder(d)
    ensures e in Preorder(t)
    decreases |Preorder(t)|
  {
    if d != t {
      PreorderChildren(t);
      assert d in PreorderAll(Children(t));
      PreorderAllMembers(Children(t), d);
      var c :| c in Children(t) && d in Preorder(c) && |Preorder(c)| <= |PreorderAll(Children(t))|;
      PreorderTransitive(c, d, e);
      PreorderAllContains(Children(t), c, e);
    }
  }

  /** Everything listed below an element of `ns` is listed below `ns`. */
  lemma {:induction false} PreorderAllContains(ns: seq<Node>, c: Node, x: Node)
    requires c in ns && x in Preorder(c)
    ensures x in PreorderAll(ns)
  {
    if ns[0] != c {
      PreorderAllContains(ns[1..], c, x);
    }
  }

  /** The loop of `ast.walk` on a given queue: pop the leftmost node, push its
      children on the right, yield the popped node. */
  function WalkFrom(queue: seq<Node>): seq<Node>
    decreases |PreorderAll(queue)|
  {
    if queue == [] then []
    else
      var node := queue[0];
      PreorderChildren(node);
      PreorderAllAppend(queue[1..], Children(node));
      [node] + WalkFrom(queue[1..] + Children(node))
  }

  /** `list(ast.walk(root))`: breadth-first order, starting with `root`. */
  function Walk(root: Node): seq<Node> {
    WalkFrom([root])
  }

  /** The walk visits every node of the queued trees exactly as often as the
      depth-first listing does: it is a permutation of it. */
  lemma {:induction false} WalkFromPermutation(queue: seq<Node>)
    ensures multiset(WalkFrom(queue)) == multiset(PreorderAll(queue))
    decreases |PreorderAll(queue)|
  {
    if queue != [] {
      var node, rest := queue[0], queue[1..];
      PreorderChildren(node);
      PreorderAllAppend(rest, Children(node));
      WalkFromPermutation(rest + Children(node));
      assert PreorderAll(queue) == [node] + PreorderAll(Children(node)) + PreorderAll(rest);
    }
  }

  /** Breadth-first: the nodes already queued come out first, in queue order. */
  lemma {:induction false} WalkFromPrefix(queue: seq<Node>)
    ensures |queue| <= |WalkFrom(queue)| && WalkFrom(queue)[..|queue|] == queue
    decreases |PreorderAll(queue)|
  {
    if queue != [] {
      var next := queue[1..] + Children(queue[0]);
      WalkFromStep(queue);
      WalkFromPrefix(next);
      PrefixCons(queue[0], queue[1..], Children(queue[0]), WalkFrom(next));
      assert [queue[0]] + queue[1..] == queue;
    }
  }

  /** A prefix of `w` that starts with `rest` gives the prefix `[x] + rest` of `[x] + w`. */
  lemma PrefixCons<T>(x: T, rest: seq<T>, more: seq<T>, w: seq<T>)
    requires |rest + more| <= |w| && w[..|rest + more|] == rest + more
    ensures |[x] + rest| <= |[x] + w| && ([x] + w)[..|[x] + rest|] == [x] + rest
  {
    assert w[..|rest|] == (rest + more)[..|rest|] == rest;
  }

  /** One round of the walk: the queue's head comes out and its children join
      the back of a queue with fewer nodes below it. */
  lemma WalkFromStep(queue: seq<Node>)
    requires queue != []
    ensures var next := queue[1..] + Children(queue[0]);
      WalkFrom(queue) == [queue[0]] + WalkFrom(next) && |PreorderAll(next)| < |PreorderAll(queue)|
  {
    PreorderChildren(queue[0]);
    PreorderAllAppend(queue[1..], Children(queue[0]));
  }

  /** `ast.walk(root)` yields `root` first and then exactly the nodes of the tree
      below it, each once: a reordering of the depth-first listing. */
  lemma WalkVisitsEveryNode(root: Node)
    ensures multiset(Walk(root)) == multiset(Preorder(root))
    ensures forall x :: x in Walk(root) <==> x in Preorder(root)
    ensures Walk(root)[0] == root
  {
    WalkPermutation(root);
    WalkFromPrefix([root]);
    forall x ensures x in Walk(root) <==> x in Preorder(root) {
      assert x in Walk(root) <==> x in multiset(Walk(root));
      assert x in Preorder(root) <==> x in multiset(Preorder(root));
    }
  }

  /** The walk from a single root is a reordering of the root's depth-first listing. */
  lemma WalkPermutation(root: Node)
    ensures multiset(Walk(root)) == multiset(Preorder(root))
  {
    WalkFromPermutation([root]);
    assert PreorderAll([root]) == Preorder(root) by { assert [root][1..] == []; }
  }

  /** The walk of a module-like node `Other(stmts)` yields the node itself and
      then its top-level statements, in order, before anything nested. */
  lemma WalkTopLevel(stmts: seq<Node>, k: nat)
    requires k < |stmts|
    ensures 1 + k < |Walk(Other(stmts))| && Walk(Other(stmts))[1 + k] == stmts[k]
  {
    var root := Other(stmts);
    assert [root][1..] + Children(root) == stmts;
    assert Walk(root) == [root] + WalkFrom(stmts);
    WalkFromPrefix(stmts);
    assert WalkFrom(stmts)[k] == stmts[k];
  }
}
