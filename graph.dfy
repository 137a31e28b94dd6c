/** The NFA as an arena: node `u` of a graph is `g[u]`, the list of its
    outgoing edges in the order `NFANode.on` added them (regexp.js:7-20).
    The source keeps them in an object from label to target list; `Keys`,
    `Targets` and `ObjectKeys` read that object back from the edge list.
    Runs, words and reachability give the automaton its meaning. */
module Graph {

  /** A transition label: a character, or ε (the source writes ε as the
      character `'ɛ'`, regexp.js:5). */
  datatype Label = Eps | Char(c: char)

  datatype Edge = Edge(input: Label, target: nat)

  type Graph = seq<seq<Edge>>

  /** `node.on(toNode, input)`: append `toNode` to the targets of `input`. */
  function On(g: Graph, u: nat, v: nat, l: Label): (r: Graph)
    requires u < |g|
    ensures |r| == |g| && r[u] == g[u] + [Edge(l, v)]
    ensures forall y :: 0 <= y < |g| && y != u ==> r[y] == g[y]
  {
    g[u := g[u] + [Edge(l, v)]]
  }

  // ---------------------------------------------------------------------------
  // The transitions object
  // ---------------------------------------------------------------------------

  /** The object's keys in insertion order: each label the first time an edge
      carries it. */
  function Keys(t: seq<Edge>): (r: seq<Label>)
    decreases |t|
  {
    if t == [] then []
    else
      var k := Keys(t[..|t| - 1]);
      if t[|t| - 1].input in k then k else k + [t[|t| - 1].input]
  }

  /** The target array stored under label `l`, in push order. */
  function Targets(t: seq<Edge>, l: Label): (r: seq<nat>)
    decreases |t|
  {
    if t == [] then []
    else Targets(t[..|t| - 1], l) + (if t[|t| - 1].input == l then [t[|t| - 1].target] else [])
  }

  predicate DistinctLabels(s: seq<Label>) {
    forall i, j :: 0 <= i < j < |s| ==> s[i] != s[j]
  }

  /** The keys are distinct and are exactly the labels of the edges. */
  lemma {:induction false} KeysSpec(t: seq<Edge>)
    ensures DistinctLabels(Keys(t))
    ensures forall l :: l in Keys(t) <==> exists e :: e in t && e.input == l
    decreases |t|
  {
    if t != [] {
      var p := t[..|t| - 1];
      KeysSpec(p);
      assert t == p + [t[|t| - 1]];
      forall l ensures (exists e :: e in t && e.input == l) ==> l in Keys(t) {
        if e :| e in t && e.input == l {
          if e != t[|t| - 1] {
            assert e in p;
          }
        }
      }
    }
  }

  /** `v` is stored under `l` exactly when an edge labelled `l` leads to it. */
  lemma {:induction false} TargetsSpec(t: seq<Edge>, l: Label, v: nat)
    ensures v in Targets(t, l) <==> Edge(l, v) in t
    decreases |t|
  {
    if t != [] {
      var p := t[..|t| - 1];
      TargetsSpec(p, l, v);
      assert t == p + [t[|t| - 1]];
    }
  }

  /** `Keys` and `Targets` unfolded over one appended edge: `on` pushes onto
      the array of its own label and leaves every other array as it was; a
      label seen for the first time becomes the last key. */
  lemma OnSpec(t: seq<Edge>, l: Label, v: nat, m: Label)
    ensures Targets(t + [Edge(l, v)], m) == Targets(t, m) + (if m == l then [v] else [])
    ensures Keys(t + [Edge(l, v)]) == Keys(t) + (if l in Keys(t) then [] else [l])
  {
    assert (t + [Edge(l, v)])[..|t|] == t;
  }

  /** A key `Object.keys` lists first: an array-index-like string, which for
      one-character keys means a decimal digit. */
  predicate IsIndexKey(l: Label) {
    l.Char? && '0' <= l.c <= '9'
  }

  function DigitKeys(keys: seq<Label>, d: nat): (r: seq<Label>)
    requires d <= 10
    decreases 10 - d
  {
    if d == 10 then []
    else
      var k := Char(('0' as int + d) as char);
      (if k in keys then [k] else []) + DigitKeys(keys, d + 1)
  }

  function OtherKeys(keys: seq<Label>): (r: seq<Label>) {
    if keys == [] then []
    else (if IsIndexKey(keys[0]) then [] else [keys[0]]) + OtherKeys(keys[1..])
  }

  /** `Object.keys(node.transitions)`: the digit keys in ascending order, then
      the other keys in insertion order. */
  function ObjectKeys(t: seq<Edge>): seq<Label> {
    DigitKeys(Keys(t), 0) + OtherKeys(Keys(t))
  }

  lemma {:induction false} DigitKeysSpec(keys: seq<Label>, d: nat)
    requires d <= 10
    ensures forall l :: l in DigitKeys(keys, d) <==> l in keys && IsIndexKey(l) && l.c as int >= '0' as int + d
    ensures DistinctLabels(DigitKeys(keys, d))
    decreases 10 - d
  {
    if d < 10 {
      DigitKeysSpec(keys, d + 1);
      var k := Char(('0' as int + d) as char);
      forall l | l in keys && IsIndexKey(l) && l.c as int >= '0' as int + d
        ensures l in DigitKeys(keys, d)
      {
        if l.c as int != '0' as int + d {
          assert l in DigitKeys(keys, d + 1);
        }
      }
    }
  }

  lemma {:induction false} OtherKeysSpec(keys: seq<Label>)
    requires DistinctLabels(keys)
    ensures forall l :: l in OtherKeys(keys) <==> l in keys && !IsIndexKey(l)
    ensures DistinctLabels(OtherKeys(keys))
    decreases |keys|
  {
    if keys != [] {
      OtherKeysSpec(keys[1..]);
      forall l | l in keys && !IsIndexKey(l) ensures l in OtherKeys(keys) {
        if l != keys[0] {
          assert l in keys[1..];
        }
      }
    }
  }

  /** `Object.keys` lists every label of the node exactly once. */
  lemma ObjectKeysSpec(t: seq<Edge>)
    ensures forall l :: l in ObjectKeys(t) <==> exists e :: e in t && e.input == l
    ensures DistinctLabels(ObjectKeys(t))
  {
    KeysSpec(t);
    DigitKeysSpec(Keys(t), 0);
    OtherKeysSpec(Keys(t));
    var a, b := DigitKeys(Keys(t), 0), OtherKeys(Keys(t));
    forall i, j | 0 <= i < j < |a + b| ensures (a + b)[i] != (a + b)[j] {
      if i < |a| && j >= |a| {
        assert (a + b)[i] in a && (a + b)[j] in b;
      }
    }
  }

  // ---------------------------------------------------------------------------
  // Runs
  // ---------------------------------------------------------------------------

  datatype Step = Step(src: nat, input: Label, dst: nat)

  predicate HasEdge(g: Graph, s: Step) {
    s.src < |g| && Edge(s.input, s.dst) in g[s.src]
  }

  /** `run` leads from `u` to `v` along edges of `g`. */
  predicate IsRun(g: Graph, u: nat, run: seq<Step>, v: nat)
    decreases |run|
  {
    if run == [] then u == v
    else run[0].src == u && HasEdge(g, run[0]) && IsRun(g, run[0].dst, run[1..], v)
  }

  function LabelWord(l: Label): seq<char> {
    if l.Eps? then [] else [l.c]
  }

  /** The characters a run reads; ε-edges read nothing. */
  function Word(run: seq<Step>): seq<char>
    decreases |run|
  {
    if run == [] then [] else LabelWord(run[0].input) + Word(run[1..])
  }

  /** `v` can be reached from `u` reading exactly `w`. */
  ghost predicate Reach(g: Graph, u: nat, w: seq<char>, v: nat) {
    exists run :: IsRun(g, u, run, v) && Word(run) == w
  }

  /** A word cut at `k` and joined again. */
  lemma Rejoin(w: seq<char>, k: nat)
    requires k <= |w|
    ensures w[..k] + w[k..] == w
  {
  }

  lemma {:induction false} WordAppend(r1: seq<Step>, r2: seq<Step>)
    ensures Word(r1 + r2) == Word(r1) + Word(r2)
    decreases |r1|
  {
    var r := r1 + r2;
    if r1 == [] {
      assert r == r2;
    } else {
      assert r[0] == r1[0] && r[1..] == r1[1..] + r2;
      WordAppend(r1[1..], r2);
    }
  }

  lemma {:induction false} RunAppend(g: Graph, u: nat, r1: seq<Step>, m: nat, r2: seq<Step>, v: nat)
    requires IsRun(g, u, r1, m) && IsRun(g, m, r2, v)
    ensures IsRun(g, u, r1 + r2, v) && Word(r1 + r2) == Word(r1) + Word(r2)
    decreases |r1|
  {
    WordAppend(r1, r2);
    var r := r1 + r2;
    if r1 == [] {
      assert r == r2;
    } else {
      assert r[0] == r1[0] && r[1..] == r1[1..] + r2;
      RunAppend(g, r1[0].dst, r1[1..], m, r2, v);
    }
  }

  /** A run split in two: the first part ends where the second starts. */
  lemma {:induction false} RunSplit(g: Graph, u: nat, r1: seq<Step>, r2: seq<Step>, v: nat) returns (m: nat)
    requires IsRun(g, u, r1 + r2, v)
    ensures IsRun(g, u, r1, m) && IsRun(g, m, r2, v)
    decreases |r1|
  {
    var r := r1 + r2;
    if r1 == [] {
      assert r == r2;
      m := u;
    } else {
      assert r[0] == r1[0] && r[1..] == r1[1..] + r2;
      m := RunSplit(g, r1[0].dst, r1[1..], r2, v);
    }
  }

  /** A run cut at step `k`: what leads to it, the step, and what follows. */
  lemma RunCut(g: Graph, u: nat, run: seq<Step>, v: nat, k: nat)
    requires IsRun(g, u, run, v) && k < |run|
    ensures IsRun(g, u, run[..k], run[k].src) && HasEdge(g, run[k])
    ensures IsRun(g, run[k].dst, run[k + 1..], v)
    ensures Word(run) == Word(run[..k]) + LabelWord(run[k].input) + Word(run[k + 1..])
  {
    var head, tail, rest := run[..k], run[k..], run[k + 1..];
    assert run == head + tail;
    var m := RunSplit(g, u, head, tail, v);
    assert tail[0] == run[k] && tail[1..] == rest;
    WordAppend(head, tail);
    assert Word(tail) == LabelWord(run[k].input) + Word(rest);
  }

  lemma ReachRefl(g: Graph, u: nat)
    ensures Reach(g, u, [], u)
  {
    assert IsRun(g, u, [], u) && Word([]) == [];
  }

  lemma ReachEdge(g: Graph, u: nat, l: Label, v: nat)
    requires u < |g| && Edge(l, v) in g[u]
    ensures Reach(g, u, LabelWord(l), v)
  {
    var run := [Step(u, l, v)];
    assert IsRun(g, v, run[1..], v);
    assert Word(run) == LabelWord(l) + Word([]);
  }

  lemma ReachTrans(g: Graph, u: nat, w1: seq<char>, m: nat, w2: seq<char>, v: nat)
    requires Reach(g, u, w1, m) && Reach(g, m, w2, v)
    ensures Reach(g, u, w1 + w2, v)
  {
    var r1 :| IsRun(g, u, r1, m) && Word(r1) == w1;
    var r2 :| IsRun(g, m, r2, v) && Word(r2) == w2;
    RunAppend(g, u, r1, m, r2, v);
  }

  // ---------------------------------------------------------------------------
  // Growing graphs and confined regions
  // ---------------------------------------------------------------------------

  /** `G` is `g` with nodes added and edges appended to old nodes. */
  ghost predicate Extends(g: Graph, G: Graph) {
    |g| <= |G| && forall u :: 0 <= u < |g| ==> g[u] <= G[u]
  }

  lemma {:induction false} RunMono(g: Graph, G: Graph, u: nat, run: seq<Step>, v: nat)
    requires Extends(g, G) && IsRun(g, u, run, v)
    ensures IsRun(G, u, run, v)
    decreases |run|
  {
    if run != [] {
      var e := Edge(run[0].input, run[0].dst);
      var i :| 0 <= i < |g[u]| && g[u][i] == e;
      assert G[u][i] == e;
      RunMono(g, G, run[0].dst, run[1..], v);
    }
  }

  lemma ReachMono(g: Graph, G: Graph, u: nat, w: seq<char>, v: nat)
    requires Extends(g, G) && Reach(g, u, w, v)
    ensures Reach(G, u, w, v)
  {
    var run :| IsRun(g, u, run, v) && Word(run) == w;
    RunMono(g, G, u, run, v);
  }

  /** Every edge out of the nodes `lo..hi-1` of `g` stays among them. */
  ghost predicate Closed(g: Graph, lo: nat, hi: nat) {
    hi <= |g| && forall u, e :: lo <= u < hi && e in g[u] ==> lo <= e.target < hi
  }

  lemma {:induction false} StaysIn(g: Graph, lo: nat, hi: nat, u: nat, run: seq<Step>, v: nat)
    requires Closed(g, lo, hi) && lo <= u < hi && IsRun(g, u, run, v)
    ensures lo <= v < hi
    decreases |run|
  {
    if run != [] {
      assert Edge(run[0].input, run[0].dst) in g[u];
      StaysIn(g, lo, hi, run[0].dst, run[1..], v);
    }
  }

  /** The region `lo..hi-1` of `g` is carried into `G` unchanged except that
      its exit `x` gained the edges `extra`. */
  ghost predicate Carried(g: Graph, G: Graph, lo: nat, hi: nat, x: nat, extra: seq<Edge>) {
    Closed(g, lo, hi) && lo <= x < hi && hi <= |G| && G[x] == g[x] + extra
    && forall y :: lo <= y < hi && y != x ==> G[y] == g[y]
  }

  /** A run of `G` that starts inside a carried region either is a run of the
      region's own graph `g` throughout, or is one up to a visit of the exit
      `x`, where it leaves along one of the edges `extra`. Returns the index
      of that leaving step, or `|run|` in the first case. */
  lemma {:induction false} Confine(g: Graph, G: Graph, lo: nat, hi: nat, x: nat, extra: seq<Edge>,
                                   u: nat, run: seq<Step>, v: nat) returns (k: nat)
    requires Carried(g, G, lo, hi, x, extra) && lo <= u < hi && IsRun(G, u, run, v)
    ensures k <= |run|
    ensures k == |run| ==> IsRun(g, u, run, v)
    ensures k < |run| ==> IsRun(g, u, run[..k], x) && run[k].src == x
                           && Edge(run[k].input, run[k].dst) in extra
    decreases |run|
  {
    if run == [] {
      return 0;
    }
    var e := Edge(run[0].input, run[0].dst);
    if u == x && e !in g[x] {
      assert run[..0] == [];
      return 0;
    }
    assert e in g[u];
    var k' := Confine(g, G, lo, hi, x, extra, run[0].dst, run[1..], v);
    k := k' + 1;
    if k < |run| {
      assert run[..k][1..] == run[1..][..k'];
    }
  }
}
