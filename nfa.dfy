/** The NFA as the source builds it: `NFANode` objects allocated by the
    `toNFA` methods, edges appended in place with `on` (regexp.js:7-20,
    29-258), ids written by the depth-first numbering (regexp.js:494-514) and
    the final flag set by `RegExpNFA.toNFA` (regexp.js:517-523).

    The node objects live in an `Arena`: node `u` is `nodes[u]`, its edge
    list; `ids` holds the `id` properties that have been set, and
    `finalNodes` the nodes whose `isFinal` property is set. Every compile
    method is proved to leave exactly the arena and the fragment that
    `Thompson.Build` computes. */
module Nfa {
  import opened Ast
  import opened Graph
  import Edges = Graph
  import opened Thompson
  import opened ThompsonProof
  import Lang
  import ParserSpec
  import Parser

  /** What compiling leaves in an arena: the error thrown, or the fragment
      together with the arena's new edge lists. */
  predicate Compiled(b: Result<(Graph, Frag)>, nodes: Graph, r: Result<Frag>) {
    match b
    case Err(e) => r == Err(e)
    case Ok((G, f)) => r == Ok(f) && nodes == G
  }

  // ---------------------------------------------------------------------------
  // Node ids
  // ---------------------------------------------------------------------------

  /** Every edge leads to a node of the arena. */
  ghost predicate Linked(g: Graph) {
    Closed(g, 0, |g|)
  }

  /** `if (node.id)`: the id is set and is not 0. */
  predicate HasId(ids: map<nat, nat>, u: nat) {
    u in ids && ids[u] != 0
  }

  ghost function Numbered(ids: map<nat, nat>): set<nat> {
    set u | u in ids.Keys && HasId(ids, u)
  }

  ghost function Unnumbered(g: Graph, ids: map<nat, nat>): set<nat> {
    set u | 0 <= u < |g| && !HasId(ids, u)
  }

  /** Ids once set are never changed. */
  ghost predicate KeepsIds(ids0: map<nat, nat>, ids: map<nat, nat>) {
    forall v: nat :: HasId(ids0, v) ==> HasId(ids, v) && ids[v] == ids0[v]
  }

  /** The numbered nodes of `g` carry distinct ids, all in `start..next-1`,
      and there are exactly `next - start` of them. */
  ghost predicate Numbering(g: Graph, ids: map<nat, nat>, start: nat, next: nat) {
    && (forall u: nat :: HasId(ids, u) ==> u < |g| && start <= ids[u] < next)
    && (forall u: nat, v: nat :: HasId(ids, u) && HasId(ids, v) && u != v ==> ids[u] != ids[v])
    && start + |Numbered(ids)| == next
  }

  /** Every numbered node outside `stack` has numbered successors: the
      depth-first walk has finished with it. */
  ghost predicate Finished(g: Graph, ids: map<nat, nat>, stack: set<nat>) {
    forall u, e :: 0 <= u < |g| && HasId(ids, u) && u !in stack && e in g[u] ==> HasId(ids, e.target)
  }

  /** The walk's invariant: a numbering from `start` up to `next`, and the
      walk finished with every numbered node outside `stack`. */
  ghost predicate Walk(g: Graph, ids: map<nat, nat>, start: nat, next: nat, stack: set<nat>) {
    Numbering(g, ids, start, next) && Finished(g, ids, stack) && stack <= Numbered(ids)
  }

  ghost function Below(n: nat): (r: set<nat>)
    ensures forall u :: u in r <==> 0 <= u < n
  {
    if n == 0 then {} else Below(n - 1) + {n - 1}
  }

  lemma {:induction false} BelowSize(n: nat)
    ensures |Below(n)| == n
  {
    if n == 0 {
      assert Below(n) == {};
    } else {
      BelowSize(n - 1);
      assert n - 1 !in Below(n - 1);
    }
  }

  lemma {:induction false} SubsetSize(a: set<nat>, b: set<nat>)
    requires a <= b
    ensures |a| <= |b|
    decreases |a|
  {
    if a != {} {
      var x :| x in a;
      SubsetSize(a - {x}, b - {x});
    }
  }

  /** No more ids are handed out than the arena has nodes. */
  lemma NumberingBound(g: Graph, ids: map<nat, nat>, start: nat, next: nat)
    requires Numbering(g, ids, start, next)
    ensures next - start <= |g|
  {
    BelowSize(|g|);
    SubsetSize(Numbered(ids), Below(|g|));
  }

  /** `node.id = nodeNum++` on a node without an id keeps the walk's
      invariant, with the node pushed on the stack. */
  lemma NumberOne(g: Graph, ids: map<nat, nat>, start: nat, next: nat, stack: set<nat>, u: nat)
    requires Walk(g, ids, start, next, stack) && u < |g| && !HasId(ids, u) && 1 <= start
    ensures Walk(g, ids[u := next], start, next + 1, stack + {u})
    ensures Unnumbered(g, ids[u := next]) == Unnumbered(g, ids) - {u}
    ensures KeepsIds(ids, ids[u := next])
  {
    NumberedAdd(ids, u, next);
    NumberingAdd(g, ids, start, next, u);
    FinishedAdd(g, ids, stack, u, next);
    UnnumberedAdd(g, ids, u, next);
  }

  lemma NumberedAdd(ids: map<nat, nat>, u: nat, next: nat)
    requires next != 0 && !HasId(ids, u)
    ensures Numbered(ids[u := next]) == Numbered(ids) + {u}
    ensures KeepsIds(ids, ids[u := next])
  {
    var ids' := ids[u := next];
    assert HasId(ids', u);
    forall v | v in Numbered(ids') ensures v in Numbered(ids) + {u} {
      if v != u {
        assert HasId(ids, v);
      }
    }
  }

  lemma NumberingAdd(g: Graph, ids: map<nat, nat>, start: nat, next: nat, u: nat)
    requires Numbering(g, ids, start, next) && u < |g| && !HasId(ids, u) && 1 <= start
    requires Numbered(ids[u := next]) == Numbered(ids) + {u}
    ensures Numbering(g, ids[u := next], start, next + 1)
  {
    assert u !in Numbered(ids);
  }

  lemma FinishedAdd(g: Graph, ids: map<nat, nat>, stack: set<nat>, u: nat, next: nat)
    requires Finished(g, ids, stack) && !HasId(ids, u) && next != 0
    ensures Finished(g, ids[u := next], stack + {u})
  {
    var ids' := ids[u := next];
    forall w, e | 0 <= w < |g| && HasId(ids', w) && w !in stack + {u} && e in g[w]
      ensures HasId(ids', e.target)
    {
      assert HasId(ids, w);
    }
  }

  lemma UnnumberedAdd(g: Graph, ids: map<nat, nat>, u: nat, next: nat)
    requires next != 0
    ensures Unnumbered(g, ids[u := next]) == Unnumbered(g, ids) - {u}
  {
  }

  /** The walk has numbered every target of `u` under label `l`. */
  ghost predicate KeyDone(g: Graph, ids: map<nat, nat>, u: nat, l: Label)
    requires u < |g|
  {
    forall e :: e in g[u] && e.input == l ==> HasId(ids, e.target)
  }

  /** Keys already walked stay walked while ids are only added. */
  lemma KeysStep(g: Graph, ids1: map<nat, nat>, ids: map<nat, nat>, u: nat, keys: seq<Label>, i: nat)
    requires u < |g| && i < |keys| && KeepsIds(ids1, ids)
    requires forall k :: 0 <= k < i ==> KeyDone(g, ids1, u, keys[k])
    requires KeyDone(g, ids, u, keys[i])
    ensures forall k :: 0 <= k < i + 1 ==> KeyDone(g, ids, u, keys[k])
  {
    forall k | 0 <= k < i + 1 ensures KeyDone(g, ids, u, keys[k]) {
      if k < i {
        assert KeyDone(g, ids1, u, keys[k]);
      }
    }
  }

  /** Once every successor of `u` is numbered, the walk is finished with `u`. */
  lemma FinishOne(g: Graph, ids: map<nat, nat>, start: nat, next: nat, stack: set<nat>, u: nat)
    requires Walk(g, ids, start, next, stack + {u}) && u < |g| && HasId(ids, u)
    requires forall k :: 0 <= k < |ObjectKeys(g[u])| ==> KeyDone(g, ids, u, ObjectKeys(g[u])[k])
    ensures Walk(g, ids, start, next, stack)
  {
    AllKeysDone(g, ids, u);
    assert Finished(g, ids, stack);
  }

  lemma AllKeysDone(g: Graph, ids: map<nat, nat>, u: nat)
    requires u < |g|
    requires forall k :: 0 <= k < |ObjectKeys(g[u])| ==> KeyDone(g, ids, u, ObjectKeys(g[u])[k])
    ensures forall e :: e in g[u] ==> HasId(ids, e.target)
  {
    var keys := ObjectKeys(g[u]);
    ObjectKeysSpec(g[u]);
    forall e | e in g[u] ensures HasId(ids, e.target) {
      assert e.input in keys;
      var k :| 0 <= k < |keys| && keys[k] == e.input;
      assert KeyDone(g, ids, u, keys[k]);
    }
  }

  /** Once the walk has finished with every node, the numbered nodes are
      closed under edges: whatever a numbered node reaches is numbered. */
  lemma {:induction false} FinishedReach(g: Graph, ids: map<nat, nat>, u: nat, run: seq<Step>, v: nat)
    requires Finished(g, ids, {}) && HasId(ids, u) && u < |g| && IsRun(g, u, run, v)
    requires Linked(g)
    ensures HasId(ids, v) && v < |g|
    decreases |run|
  {
    if run != [] {
      assert Edge(run[0].input, run[0].dst) in g[u];
      FinishedReach(g, ids, run[0].dst, run[1..], v);
    }
  }

  /** Building a union whose operands both built. */
  lemma UnionBuilt(n1: Node, n2: Node, g: Graph, g1: Graph, p1: Frag, g2: Graph, p2: Frag)
    requires Build(n1, Fresh2(g)) == Ok((g1, p1)) && Build(n2, g1) == Ok((g2, p2))
    ensures WellBuilt(Fresh2(g), g1, p1) && WellBuilt(g1, g2, p2)
    ensures Build(Union(n1, n2), g) == Ok(UnionFrag(g, g1, p1, g2, p2))
  {
  }

  /** The union fragment is the operands' arena joined by four ε-edges. */
  lemma UnionJoined(g: Graph, g1: Graph, p1: Frag, g2: Graph, p2: Frag)
    requires WellBuilt(Fresh2(g), g1, p1) && WellBuilt(g1, g2, p2)
    ensures UnionFrag(g, g1, p1, g2, p2)
         == (Edges.On(Edges.On(Edges.On(Edges.On(g2, |g|, p1.entry, Eps), |g|, p2.entry, Eps),
                               p1.exit, |g| + 1, Eps), p2.exit, |g| + 1, Eps), Frag(|g|, |g| + 1))
  {
  }

  class Arena {
    var nodes: Graph
    var ids: map<nat, nat>
    var finalNodes: set<nat>

    constructor ()
      ensures nodes == [] && ids == map[] && finalNodes == {}
    {
      nodes, ids, finalNodes := [], map[], {};
    }

    /** `new NFANode()`: a node with no transitions; its `id` and `isFinal`
        properties are unset. */
    method NewNode() returns (u: nat)
      modifies this
      ensures u == old(|nodes|) && nodes == old(nodes) + [[]]
      ensures ids == old(ids) && finalNodes == old(finalNodes)
    {
      u := |nodes|;
      nodes := nodes + [[]];
    }

    /** `nodes[u].on(nodes[v], l)`. */
    method On(u: nat, v: nat, l: Label)
      requires u < |nodes|
      modifies this
      ensures nodes == Edges.On(old(nodes), u, v, l)
      ensures ids == old(ids) && finalNodes == old(finalNodes)
    {
      nodes := nodes[u := nodes[u] + [Edge(l, v)]];
    }

    /** The four ε-edges with which `UnionNode.toNFA` joins both operands
        between `lhs` and `rhs` (regexp.js:40-43). */
    method Join(ghost g: Graph, ghost g1: Graph, lhs: nat, rhs: nat, p1: Frag, p2: Frag)
      requires WellBuilt(Fresh2(g), g1, p1) && WellBuilt(g1, nodes, p2)
      requires lhs == |g| && rhs == |g| + 1
      modifies this
      ensures nodes == UnionFrag(g, g1, p1, old(nodes), p2).0
      ensures ids == old(ids) && finalNodes == old(finalNodes)
    {
      UnionJoined(g, g1, p1, nodes, p2);
      On(lhs, p1.entry, Eps);
      On(lhs, p2.entry, Eps);
      On(p1.exit, rhs, Eps);
      On(p2.exit, rhs, Eps);
    }

    /** A fresh node pair, as every `toNFA` that allocates `lhs` and `rhs`
        first does. */
    method NewPair() returns (lhs: nat, rhs: nat)
      modifies this
      ensures lhs == old(|nodes|) && rhs == lhs + 1 && nodes == Fresh2(old(nodes))
      ensures ids == old(ids) && finalNodes == old(finalNodes)
    {
      lhs := NewNode();
      rhs := NewNode();
    }

    /** `node.isFinal = true`. */
    method SetFinal(u: nat)
      modifies this
      ensures finalNodes == old(finalNodes) + {u}
      ensures nodes == old(nodes) && ids == old(ids)
    {
      finalNodes := finalNodes + {u};
    }

    /** `toNFA` of every AST node, dispatched on its class. */
    method Compile(n: Node) returns (r: Result<Frag>)
      modifies this
      ensures ids == old(ids) && finalNodes == old(finalNodes)
      ensures Compiled(Build(n, old(nodes)), nodes, r)
      decreases Weight(n), 0, Size(n), 1
    {
      match n
      case Union(n1, n2) =>
        r := CompileUnion(n1, n2);
      case Empty =>
        var lhs, rhs := NewPair();
        r := Ok(Frag(lhs, rhs));
      case Sequence(n1, n2) =>
        r := CompileSequence(n1, n2);
      case ApplyOps(sym, ops) =>
        r := CompileApplyOps(sym, ops);
      case Single(x) =>
        r := CompileSingle(x);
      case Negation(m) =>
        r := CompileNegation(m);
      case _ =>
        r := CompileClass(n);
    }

    /** `UnionNode.toNFA` (regexp.js:34-45). */
    method CompileUnion(n1: Node, n2: Node) returns (r: Result<Frag>)
      modifies this
      ensures ids == old(ids) && finalNodes == old(finalNodes)
      ensures Compiled(Build(Union(n1, n2), old(nodes)), nodes, r)
      decreases Weight(Union(n1, n2)), 0, Size(Union(n1, n2)), 0
    {
      ghost var g := old(nodes);
      var lhs, rhs := NewPair();
      var r1 := Compile(n1);
      if r1.Err? {
        assert Build(Union(n1, n2), g) == Err(r1.error);
        return Err(r1.error);
      }
      ghost var g1 := nodes;
      var p1 := r1.value;
      var r2 := Compile(n2);
      if r2.Err? {
        assert Build(Union(n1, n2), g) == Err(r2.error);
        return Err(r2.error);
      }
      ghost var g2 := nodes;
      var p2 := r2.value;
      UnionBuilt(n1, n2, g, g1, p1, g2, p2);
      Join(g, g1, lhs, rhs, p1, p2);
      r := Ok(Frag(lhs, rhs));
    }

    /** `SequenceNode.toNFA` (regexp.js:65-71). */
    method CompileSequence(n1: Node, n2: Node) returns (r: Result<Frag>)
      modifies this
      ensures ids == old(ids) && finalNodes == old(finalNodes)
      ensures Compiled(Build(Sequence(n1, n2), old(nodes)), nodes, r)
      decreases Weight(Sequence(n1, n2)), 0, Size(Sequence(n1, n2)), 0
    {
      ghost var g := old(nodes);
      var r1 := Compile(n1);
      if r1.Err? {
        assert Build(Sequence(n1, n2), g) == Err(r1.error);
        return Err(r1.error);
      }
      ghost var g1 := nodes;
      var p1 := r1.value;
      var r2 := Compile(n2);
      if r2.Err? {
        assert Build(Sequence(n1, n2), g) == Err(r2.error);
        return Err(r2.error);
      }
      ghost var g2 := nodes;
      var p2 := r2.value;
      assert Build(Sequence(n1, n2), g) == Ok(SequenceFrag(g, g1, p1, g2, p2));
      On(p1.exit, p2.entry, Eps);
      r := Ok(Frag(p1.entry, p2.exit));
    }

    /** `ApplyOpsNode.toNFA` (regexp.js:80-82). */
    method CompileApplyOps(sym: Node, ops: Ops) returns (r: Result<Frag>)
      modifies this
      ensures ids == old(ids) && finalNodes == old(finalNodes)
      ensures Compiled(Build(ApplyOps(sym, ops), old(nodes)), nodes, r)
      decreases Weight(ApplyOps(sym, ops)), 0, Size(ApplyOps(sym, ops)), 0
    {
      var r1 := Compile(sym);
      if r1.Err? {
        return Err(r1.error);
      }
      var p := CompileOps(ops, r1.value);
      r := Ok(p);
    }

    /** `NegationNode.toNFA` (regexp.js:254-257): the alphabet minus the
        class's list. */
    method CompileNegation(m: Node) returns (r: Result<Frag>)
      modifies this
      ensures ids == old(ids) && finalNodes == old(finalNodes)
      ensures Compiled(Build(Negation(m), old(nodes)), nodes, r)
      decreases Weight(Negation(m)), 0, Size(Negation(m)), 0
    {
      var list := CharListOf(m);
      if list.Err? {
        return Err(list.error);
      }
      NegatedDotCount(list.value);
      r := CompileList(Difference(AllChars(), list.value));
    }

    /** `toNFA` of `CharListNode`, `CharRangeNode` and `EscapedChar`
        (regexp.js:151-153, 188-190, 244-247): the node's list, compiled. */
    method CompileClass(n: Node) returns (r: Result<Frag>)
      requires n.CharList? || n.CharRange? || n.Escaped?
      modifies this
      ensures ids == old(ids) && finalNodes == old(finalNodes)
      ensures Compiled(Build(n, old(nodes)), nodes, r)
      decreases Weight(n), 0, Size(n), 0
    {
      var list := CharListOf(n);
      if list.Err? {
        return Err(list.error);
      }
      ClassDotCount(n);
      r := CompileList(list.value);
    }

    /** `SingleChar.toNFA` (regexp.js:205-212). */
    method CompileSingle(x: Sym) returns (r: Result<Frag>)
      modifies this
      ensures ids == old(ids) && finalNodes == old(finalNodes)
      ensures Compiled(SingleFrag(x, old(nodes)), nodes, r)
      decreases Weight(Single(x)), 0, 0, 0
    {
      var list := SingleCharList(x);
      if |list| == 1 {
        var lhs, rhs := NewPair();
        On(lhs, rhs, LabelOf(x));
        r := Ok(Frag(lhs, rhs));
      } else {
        SingleListLighter(x, list);
        r := CompileList(list);
      }
    }

    /** `NFANodeFromCharList` (regexp.js:132-143): the loop builds the
        left-nested union of the list's characters, which is then compiled. */
    method CompileList(l: seq<Sym>) returns (r: Result<Frag>)
      modifies this
      ensures ids == old(ids) && finalNodes == old(finalNodes)
      ensures Compiled(ListFrag(l, old(nodes)), nodes, r)
      decreases DotCount(l), 1, 0, 0
    {
      if |l| == 0 {
        r := Compile(Empty);
        return;
      }
      var node := Single(l[0]);
      var i := 1;
      while i < |l|
        invariant 1 <= i <= |l| && node == LeftUnion(l[..i])
      {
        assert l[..i + 1][..i] == l[..i];
        node := Union(node, Single(l[i]));
        i := i + 1;
      }
      assert l[..|l|] == l;
      LeftUnionWeight(l);
      r := Compile(node);
    }

    /** `SequentialOpsNode.toNFA` for one operator (regexp.js:101-119): a new
        node pair around the fragment `f`, wired as `ApplyQuant` states. */
    method CompileOp(q: Quant, f: Frag) returns (p: Frag)
      requires f.entry < |nodes| && f.exit < |nodes|
      modifies this
      ensures ids == old(ids) && finalNodes == old(finalNodes)
      ensures (nodes, p) == ApplyQuant(q, old(nodes), f)
    {
      var n0, n1 := NewPair();
      match q {
        case Star =>
          On(n0, n1, Eps);
          On(n1, n0, Eps);
          On(n0, f.entry, Eps);
          On(f.exit, n1, Eps);
        case Plus =>
          On(n1, n0, Eps);
          On(n0, f.entry, Eps);
          On(f.exit, n1, Eps);
        case Opt =>
          On(n0, n1, Eps);
          On(n0, f.entry, Eps);
          On(f.exit, n1, Eps);
      }
      p := Frag(n0, n1);
    }

    /** `OpNode.toNFA` and `SequentialOpsNode.toNFA`: each operator wraps
        the pair the previous one returned (regexp.js:88-91, 124-128). */
    method CompileOps(ops: Ops, f: Frag) returns (p: Frag)
      requires f.entry < |nodes| && f.exit < |nodes|
      modifies this
      ensures ids == old(ids) && finalNodes == old(finalNodes)
      ensures (nodes, p) == ApplyQuants(ops, old(nodes), f)
      decreases ops
    {
      match ops
      case OpNode(q) =>
        p := CompileOp(q, f);
      case SequentialOps(q, rest) =>
        var p1 := CompileOp(q, f);
        p := CompileOps(rest, p1);
    }

    /** `processNode` (regexp.js:494-507): number `u` and, depth first, every
        unnumbered node it reaches, in `Object.keys` order. `stack` holds the
        nodes whose walk is still in progress. */
    method ProcessNode(u: nat, nodeNum: nat, ghost start: nat, ghost stack: set<nat>) returns (next: nat)
      requires Linked(nodes) && u < |nodes| && 1 <= start
      requires Walk(nodes, ids, start, nodeNum, stack)
      modifies this
      ensures nodes == old(nodes) && finalNodes == old(finalNodes)
      ensures Walk(nodes, ids, start, next, stack) && HasId(ids, u) && KeepsIds(old(ids), ids)
      ensures Unnumbered(nodes, ids) <= Unnumbered(nodes, old(ids))
      decreases Unnumbered(nodes, ids), 0
    {
      if u in ids && ids[u] != 0 {
        return nodeNum;
      }
      ghost var ids0 := ids;
      ghost var bound := Unnumbered(nodes, ids0) - {u};
      NumberOne(nodes, ids, start, nodeNum, stack, u);
      ids := ids[u := nodeNum];
      next := nodeNum + 1;
      ghost var inner := stack + {u};
      var keys := ObjectKeys(nodes[u]);
      var i := 0;
      while i < |keys|
        invariant i <= |keys|
        invariant nodes == old(nodes) && finalNodes == old(finalNodes)
        invariant Walk(nodes, ids, start, next, inner) && HasId(ids, u) && KeepsIds(ids0, ids)
        invariant Unnumbered(nodes, ids) <= bound
        invariant forall k :: 0 <= k < i ==> KeyDone(nodes, ids, u, keys[k])
      {
        ghost var ids1 := ids;
        next := VisitKey(u, keys[i], next, start, inner, bound);
        KeysStep(nodes, ids1, ids, u, keys, i);
        i := i + 1;
      }
      FinishOne(nodes, ids, start, next, stack, u);
    }

    /** The callback `processNode` runs for one key: walk every target
        stored under `key`, in push order (regexp.js:501-504). */
    method VisitKey(u: nat, key: Label, nodeNum: nat, ghost start: nat, ghost stack: set<nat>, ghost bound: set<nat>)
      returns (next: nat)
      requires Linked(nodes) && u < |nodes| && 1 <= start
      requires Walk(nodes, ids, start, nodeNum, stack) && Unnumbered(nodes, ids) <= bound
      modifies this
      ensures nodes == old(nodes) && finalNodes == old(finalNodes)
      ensures Walk(nodes, ids, start, next, stack) && KeepsIds(old(ids), ids)
      ensures Unnumbered(nodes, ids) <= bound
      ensures KeyDone(nodes, ids, u, key)
      decreases bound, 1
    {
      var targets := Targets(nodes[u], key);
      next := nodeNum;
      var j := 0;
      while j < |targets|
        invariant nodes == old(nodes) && finalNodes == old(finalNodes)
        invariant Walk(nodes, ids, start, next, stack) && KeepsIds(old(ids), ids)
        invariant Unnumbered(nodes, ids) <= bound
        invariant j <= |targets|
        invariant forall k :: 0 <= k < j ==> HasId(ids, targets[k])
      {
        TargetsSpec(nodes[u], key, targets[j]);
        next := ProcessNode(targets[j], next, start, stack);
        j := j + 1;
      }
      forall e | e in nodes[u] && e.input == key ensures HasId(ids, e.target) {
        TargetsSpec(nodes[u], key, e.target);
      }
    }

    /** `numberNodes` (regexp.js:509-514): number from `nodeNum` everything
        the entry reaches, then the exit. */
    method NumberNodes(f: Frag, nodeNum: nat) returns (next: nat)
      requires Linked(nodes) && f.entry < |nodes| && f.exit < |nodes| && 1 <= nodeNum
      requires forall u :: !HasId(ids, u)
      modifies this
      ensures nodes == old(nodes) && finalNodes == old(finalNodes)
      ensures Numbering(nodes, ids, nodeNum, next) && Finished(nodes, ids, {})
      ensures HasId(ids, f.entry) && HasId(ids, f.exit)
    {
      assert Numbered(ids) == {};
      next := ProcessNode(f.entry, nodeNum, nodeNum, {});
      next := ProcessNode(f.exit, next, nodeNum, {});
    }
  }

  // ---------------------------------------------------------------------------
  // RegExpNFA
  // ---------------------------------------------------------------------------

  /** What `new RegExpNFA(s).toNFA()` computes: parse `s`, then compile the
      tree onto an empty arena. A parse that yields `null` makes `toNFA` call
      a method of `null` (a `TypeError`); one that recurses forever throws a
      `RangeError`. */
  function NfaOf(s: seq<char>): Result<(Graph, Frag)> {
    match ParserSpec.Parse(s).value
    case Tree(n) => Build(n, [])
    case Null => Err(TypeError)
    case StackOverflow => Err(StackExceeded)
  }

  /** The ids after `numberNodes(nfa, 1)`: distinct, between 1 and the
      number of nodes, and closed under edges. */
  ghost predicate Identified(g: Graph, ids: map<nat, nat>) {
    && (forall u: nat :: HasId(ids, u) ==> u < |g| && ids[u] <= |g|)
    && (forall u: nat, v: nat :: HasId(ids, u) && HasId(ids, v) && u != v ==> ids[u] != ids[v])
    && Finished(g, ids, {})
  }

  lemma NumberingIdentifies(g: Graph, ids: map<nat, nat>, next: nat)
    requires Numbering(g, ids, 1, next) && Finished(g, ids, {})
    ensures Identified(g, ids)
  {
    NumberingBound(g, ids, 1, next);
  }

  /** The NFA of a pattern that compiles accepts, from its entry to its exit,
      exactly the words of the regular expression its tree denotes; its edges
      stay inside the arena, and every node the entry reaches gets an id. */
  lemma {:induction false} NfaOfCorrect(s: seq<char>)
    requires ParserSpec.Parse(s).value.Tree?
    ensures NfaOf(s).Err? ==> Lang.ToRe(ParserSpec.Parse(s).value.node) == Err(NfaOf(s).error)
    ensures NfaOf(s).Ok? ==>
      var (G, f) := NfaOf(s).value;
      && Lang.ToRe(ParserSpec.Parse(s).value.node).Ok?
      && Linked(G) && f.entry < |G| && f.exit < |G|
      && Accepts(G, f, Lang.ToRe(ParserSpec.Parse(s).value.node).value)
  {
    BuildCorrect(ParserSpec.Parse(s).value.node, []);
  }

  /** Every node reachable from a numbered node is numbered once the walk
      is finished. */
  lemma IdentifiedReach(g: Graph, ids: map<nat, nat>, u: nat, w: seq<char>, v: nat)
    requires Identified(g, ids) && Linked(g) && HasId(ids, u) && u < |g| && Reach(g, u, w, v)
    ensures HasId(ids, v) && 1 <= ids[v] <= |g|
  {
    var run :| IsRun(g, u, run, v) && Word(run) == w;
    FinishedReach(g, ids, u, run, v);
  }

  class RegExpNfa {
    const parser: Parser.RegExpParser
    var arena: Arena
    var nfa: ParserSpec.Option<Frag>

    /** `new RegExpNFA(expression)`. */
    constructor (expression: seq<char>)
      ensures fresh(parser) && parser.Valid() && parser.expression == expression
      ensures fresh(arena) && arena.nodes == [] && nfa == ParserSpec.None
    {
      parser := new Parser.RegExpParser(expression);
      arena := new Arena();
      nfa := ParserSpec.None;
    }

    /** `toNFA` (regexp.js:517-523): parse, compile, number the nodes from 1
        and mark the exit final. When it throws, `nfa` keeps its value. */
    method ToNfa() returns (r: Result<Frag>)
      requires parser.Valid()
      modifies this, parser
      ensures NfaOf(parser.expression).Err? ==>
        r == Err(NfaOf(parser.expression).error) && nfa == old(nfa) && arena == old(arena)
      ensures NfaOf(parser.expression).Ok? ==>
        && r == Ok(NfaOf(parser.expression).value.1) && nfa == ParserSpec.Some(r.value)
        && fresh(arena) && arena.nodes == NfaOf(parser.expression).value.0
        && arena.finalNodes == {r.value.exit}
        && Identified(arena.nodes, arena.ids)
        && HasId(arena.ids, r.value.entry) && HasId(arena.ids, r.value.exit)
    {
      var parsed := parser.Parse();
      match parsed {
        case Null =>
          r := Err(TypeError);
        case StackOverflow =>
          r := Err(StackExceeded);
        case Tree(n) =>
          var a := new Arena();
          r := a.Compile(n);
          if r.Ok? {
            var f := r.value;
            BuildCorrect(n, []);
            var next := a.NumberNodes(f, 1);
            NumberingIdentifies(a.nodes, a.ids, next);
            a.SetFinal(f.exit);
            arena := a;
            nfa := ParserSpec.Some(f);
          }
      }
    }
  }
}
