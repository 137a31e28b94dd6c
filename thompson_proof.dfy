/** Thompson's construction is correct: the fragment `Build(n, g)` returns
    accepts, from its entry to its exit, exactly the words `ToRe(n)` matches,
    and fails exactly when `ToRe(n)` does, with the same error
    (`BuildCorrect`). Each fragment is closed: no edge leaves the nodes it
    added, and later steps only add edges out of its exit, which is what lets
    a run through an enclosing fragment be cut at that exit (`Confine`). */
module ThompsonProof {
  import opened Ast
  import opened Graph
  import opened Thompson
  import opened Lang

  /** The fragment `f` of `G` accepts exactly the words of `r`. */
  ghost predicate Accepts(G: Graph, f: Frag, r: Re) {
    forall w :: Reach(G, f.entry, w, f.exit) <==> Matches(r, w)
  }

  /** What compiling onto `g` guarantees: the new nodes form a closed region
      whose fragment accepts the words of `r`. */
  ghost predicate FragCorrect(g: Graph, G: Graph, f: Frag, r: Re) {
    Closed(G, |g|, |G|) && Accepts(G, f, r)
  }

  // ---------------------------------------------------------------------------
  // Growing the arena
  // ---------------------------------------------------------------------------

  lemma ExtendsPrefix(g: Graph, G: Graph)
    requires |g| <= |G| && G[..|g|] == g
    ensures Extends(g, G)
  {
    forall u | 0 <= u < |g| ensures g[u] <= G[u] {
      assert G[..|g|][u] == G[u];
    }
  }

  lemma ExtendsOn(g: Graph, u: nat, v: nat, l: Label)
    requires u < |g|
    ensures Extends(g, On(g, u, v, l))
  {
  }

  lemma ExtendsTrans(a: Graph, b: Graph, c: Graph)
    requires Extends(a, b) && Extends(b, c)
    ensures Extends(a, c)
  {
    forall u | 0 <= u < |a| ensures a[u] <= c[u] {
      assert a[u] <= b[u] <= c[u];
    }
  }

  lemma ClosedFresh(g: Graph)
    ensures Closed(Fresh2(g), |g|, |g| + 2)
  {
  }

  lemma ClosedOn(g: Graph, lo: nat, hi: nat, u: nat, v: nat, l: Label)
    requires Closed(g, lo, hi) && u < |g| && (lo <= u < hi ==> lo <= v < hi)
    ensures Closed(On(g, u, v, l), lo, hi)
  {
  }

  lemma ClosedUnion(g: Graph, a: nat, b: nat, c: nat)
    requires a <= b <= c && Closed(g, a, b) && Closed(g, b, c)
    ensures Closed(g, a, c)
  {
  }

  /** A closed region keeps its edges when the arena grows past it. */
  lemma ClosedCarry(g: Graph, G: Graph, lo: nat, hi: nat)
    requires Closed(g, lo, hi) && |g| <= |G| && G[..|g|] == g
    ensures Closed(G, lo, hi)
  {
    forall u | lo <= u < hi ensures G[u] == g[u] {
      assert G[..|g|][u] == G[u];
    }
  }

  /** A node without edges can only be the end of the runs from it. */
  lemma NoWayOut(G: Graph, v: nat, run: seq<Step>, u: nat)
    requires v < |G| && G[v] == [] && IsRun(G, v, run, u)
    ensures run == [] && u == v
  {
  }

  lemma StarCons(r: Re, w1: seq<char>, w2: seq<char>)
    requires Matches(r, w1) && StarMatches(r, w2)
    ensures StarMatches(r, w1 + w2)
  {
    if w1 != [] {
      var w := w1 + w2;
      assert w[..|w1|] == w1 && w[|w1|..] == w2;
    } else {
      assert w1 + w2 == w2;
    }
  }

  /** Three runs joined end to end, the middle one a single edge. */
  lemma ReachVia(g: Graph, u: nat, w1: seq<char>, a: nat, l: Label, b: nat, w2: seq<char>, v: nat)
    requires Reach(g, u, w1, a) && a < |g| && Edge(l, b) in g[a] && Reach(g, b, w2, v)
    ensures Reach(g, u, w1 + LabelWord(l) + w2, v)
  {
    ReachEdge(g, a, l, b);
    ReachTrans(g, u, w1, a, LabelWord(l), b);
    ReachTrans(g, u, w1 + LabelWord(l), b, w2, v);
  }

  // ---------------------------------------------------------------------------
  // Leaves
  // ---------------------------------------------------------------------------

  /** `EmptyNode` and an empty character list accept nothing: their entry
      has no edge (regexp.js:51-58, 134-135). */
  lemma EmptyAcceptsNothing(g: Graph, w: seq<char>)
    ensures !Reach(EmptyFrag(g).0, |g|, w, |g| + 1)
  {
    var G := EmptyFrag(g).0;
    if run :| IsRun(G, |g|, run, |g| + 1) && Word(run) == w {
      NoWayOut(G, |g|, run, |g| + 1);
    }
  }

  lemma EmptyCorrect(g: Graph, l: seq<Sym>)
    requires l == []
    ensures FragCorrect(g, EmptyFrag(g).0, EmptyFrag(g).1, Void)
    ensures FragCorrect(g, EmptyFrag(g).0, EmptyFrag(g).1, Chars(l))
  {
    ClosedFresh(g);
    var (G, f) := EmptyFrag(g);
    forall w ensures !Reach(G, f.entry, w, f.exit) {
      EmptyAcceptsNothing(g, w);
    }
  }

  /** `SingleChar.toNFA` for a character other than `.`: one edge from entry
      to exit reading it, or an ε-edge for the phantom character. */
  lemma CharFragCorrect(g: Graph, x: Sym)
    requires x != Chr('.')
    ensures FragCorrect(g, CharFrag(g, x).0, CharFrag(g, x).1, Chars([x]))
  {
    var (G, f) := CharFrag(g, x);
    assert G[|g|] == [Edge(LabelOf(x), |g| + 1)] && G[|g| + 1] == [];
    forall w ensures Reach(G, |g|, w, |g| + 1) <==> Matches(Chars([x]), w) {
      if run :| IsRun(G, |g|, run, |g| + 1) && Word(run) == w {
        assert run[0] == Step(|g|, LabelOf(x), |g| + 1);
        NoWayOut(G, |g| + 1, run[1..], |g| + 1);
        assert w == LabelWord(LabelOf(x)) + Word([]);
        assert SymMatches([x][0], w);
      }
      if Matches(Chars([x]), w) {
        var k :| 0 <= k < 1 && SymMatches([x][k], w);
        ReachEdge(G, |g|, LabelOf(x), |g| + 1);
      }
    }
  }

  // ---------------------------------------------------------------------------
  // Leaving a carried region
  // ---------------------------------------------------------------------------

  /** A run that starts inside a carried region and ends outside it leaves
      through the region's exit `x` and the one edge `x` gained. */
  lemma LeaveAt(gc: Graph, G: Graph, lo: nat, hi: nat, x: nat, t: nat,
                e: nat, run: seq<Step>, v: nat) returns (k: nat)
    requires Carried(gc, G, lo, hi, x, [Edge(Eps, t)])
    requires lo <= e < hi && !(lo <= v < hi) && IsRun(G, e, run, v)
    ensures k < |run| && IsRun(gc, e, run[..k], x) && IsRun(G, t, run[k + 1..], v)
    ensures Word(run) == Word(run[..k]) + Word(run[k + 1..])
  {
    k := Confine(gc, G, lo, hi, x, [Edge(Eps, t)], e, run, v);
    if k == |run| {
      StaysIn(gc, lo, hi, e, run, v);
      assert false;
    }
    RunCut(G, e, run, v, k);
    assert LabelWord(run[k].input) == [];
  }

  /** A run that starts inside a region whose exit gained no edge stays a run
      of the region's own graph. */
  lemma StayIn(gc: Graph, G: Graph, lo: nat, hi: nat, x: nat, e: nat, run: seq<Step>, v: nat)
    requires Carried(gc, G, lo, hi, x, []) && lo <= e < hi && IsRun(G, e, run, v)
    ensures IsRun(gc, e, run, v)
  {
    var k := Confine(gc, G, lo, hi, x, [], e, run, v);
  }

  /** A word read between two nodes, wrapped in an ε-edge on each side. */
  lemma ReachWrap(G: Graph, u: nat, a: nat, w: seq<char>, b: nat, v: nat)
    requires Reach(G, a, w, b) && u < |G| && b < |G|
    requires Edge(Eps, a) in G[u] && Edge(Eps, v) in G[b]
    ensures Reach(G, u, w, v)
  {
    ReachRefl(G, u);
    ReachVia(G, u, [], u, Eps, a, w, b);
    ReachRefl(G, v);
    ReachVia(G, u, w, b, Eps, v, [], v);
    assert [] + LabelWord(Eps) + w == w && w + LabelWord(Eps) + [] == w;
  }

  // ---------------------------------------------------------------------------
  // Union
  // ---------------------------------------------------------------------------

  /** `UnionNode.toNFA` (regexp.js:35-45) adds exactly four ε-edges: from the
      new entry to both operand entries and from both operand exits to the
      new exit. No other node changes. */
  lemma UnionWiring(g: Graph, g1: Graph, f1: Frag, g2: Graph, f2: Frag)
    requires WellBuilt(Fresh2(g), g1, f1) && WellBuilt(g1, g2, f2)
    ensures var (G, f) := UnionFrag(g, g1, f1, g2, f2);
            |G| == |g2| && f == Frag(|g|, |g| + 1) && Extends(g2, G)
            && G[|g|] == [Edge(Eps, f1.entry), Edge(Eps, f2.entry)] && G[|g| + 1] == []
            && G[f1.exit] == g2[f1.exit] + [Edge(Eps, |g| + 1)]
            && G[f2.exit] == g2[f2.exit] + [Edge(Eps, |g| + 1)]
            && forall y :: |g| + 2 <= y < |G| && y != f1.exit && y != f2.exit ==> G[y] == g2[y]
  {
    var L, R := |g|, |g| + 1;
    assert g2[L] == g2[..|g1|][L] == g1[..|g| + 2][L] == [];
    assert g2[R] == g2[..|g1|][R] == g1[..|g| + 2][R] == [];
    var h1 := On(g2, L, f1.entry, Eps);
    var h2 := On(h1, L, f2.entry, Eps);
    var h3 := On(h2, f1.exit, R, Eps);
    var G := On(h3, f2.exit, R, Eps);
    ExtendsOn(g2, L, f1.entry, Eps);
    ExtendsOn(h1, L, f2.entry, Eps);
    ExtendsOn(h2, f1.exit, R, Eps);
    ExtendsOn(h3, f2.exit, R, Eps);
    ExtendsTrans(g2, h1, h2);
    ExtendsTrans(g2, h2, h3);
    ExtendsTrans(g2, h3, G);
  }

  /** Both operands' regions are carried into the union with one new edge
      on their exits, and the union's nodes form a closed region. */
  lemma UnionCarried(g: Graph, g1: Graph, f1: Frag, g2: Graph, f2: Frag)
    requires WellBuilt(Fresh2(g), g1, f1) && Closed(g1, |g| + 2, |g1|)
    requires WellBuilt(g1, g2, f2) && Closed(g2, |g1|, |g2|)
    ensures var G := UnionFrag(g, g1, f1, g2, f2).0;
            Carried(g1, G, |g| + 2, |g1|, f1.exit, [Edge(Eps, |g| + 1)])
            && Carried(g2, G, |g1|, |g2|, f2.exit, [Edge(Eps, |g| + 1)])
            && Closed(G, |g|, |G|) && Extends(g1, G) && Extends(g2, G)
  {
    var G := UnionFrag(g, g1, f1, g2, f2).0;
    UnionWiring(g, g1, f1, g2, f2);
    var extra := [Edge(Eps, |g| + 1)];
    forall y | 0 <= y < |g1| ensures g2[y] == g1[y] {
      assert g2[..|g1|][y] == g2[y];
    }
    assert Carried(g1, G, |g| + 2, |g1|, f1.exit, extra);
    assert Carried(g2, G, |g1|, |g2|, f2.exit, extra);
    forall u, e: Edge | |g| <= u < |G| && e in G[u] ensures |g| <= e.target < |G| {
      if u >= |g1| {
        assert e in g2[u] || e in extra;
      } else if u >= |g| + 2 {
        assert e in g1[u] || e in extra;
      }
    }
    ExtendsPrefix(g1, g2);
    ExtendsTrans(g1, g2, G);
  }

  /** From a node with two ε-edges, a word reaches `v` exactly when it does
      from one of their targets. */
  lemma Fork(G: Graph, u: nat, a: nat, b: nat, w: seq<char>, v: nat)
    requires u < |G| && G[u] == [Edge(Eps, a), Edge(Eps, b)] && u != v
    ensures Reach(G, u, w, v) <==> Reach(G, a, w, v) || Reach(G, b, w, v)
  {
    if run: seq<Step> :| IsRun(G, u, run, v) && Word(run) == w {
      assert Word(run) == Word(run[1..]);
      assert run[0].dst == a || run[0].dst == b;
    }
    if Reach(G, a, w, v) {
      ReachRefl(G, v);
      ReachEdge(G, u, Eps, a);
      ReachTrans(G, u, [], a, w, v);
    }
    if Reach(G, b, w, v) {
      ReachEdge(G, u, Eps, b);
      ReachTrans(G, u, [], b, w, v);
    }
  }

  /** An operand whose exit gained an ε-edge to a node without edges, outside
      its region: the words reaching that node from the operand's entry are
      the operand's own. */
  lemma Branch(gc: Graph, G: Graph, lo: nat, hi: nat, f: Frag, t: nat, w: seq<char>)
    requires Carried(gc, G, lo, hi, f.exit, [Edge(Eps, t)]) && Extends(gc, G)
    requires lo <= f.entry < hi && !(lo <= t < hi) && t < |G| && G[t] == []
    ensures Reach(G, f.entry, w, t) <==> Reach(gc, f.entry, w, f.exit)
  {
    if run: seq<Step> :| IsRun(G, f.entry, run, t) && Word(run) == w {
      var k := LeaveAt(gc, G, lo, hi, f.exit, t, f.entry, run, t);
      NoWayOut(G, t, run[k + 1..], t);
      assert w == Word(run[..k]);
    }
    if Reach(gc, f.entry, w, f.exit) {
      ReachMono(gc, G, f.entry, w, f.exit);
      ReachRefl(G, t);
      ReachVia(G, f.entry, w, f.exit, Eps, t, [], t);
      assert w + LabelWord(Eps) + [] == w;
    }
  }

  /** The union accepts the words of either operand. */
  lemma UnionCorrect(g: Graph, g1: Graph, f1: Frag, r1: Re, g2: Graph, f2: Frag, r2: Re)
    requires WellBuilt(Fresh2(g), g1, f1) && FragCorrect(Fresh2(g), g1, f1, r1)
    requires WellBuilt(g1, g2, f2) && FragCorrect(g1, g2, f2, r2)
    ensures FragCorrect(g, UnionFrag(g, g1, f1, g2, f2).0, UnionFrag(g, g1, f1, g2, f2).1, Alt(r1, r2))
  {
    var (G, f) := UnionFrag(g, g1, f1, g2, f2);
    UnionWiring(g, g1, f1, g2, f2);
    UnionCarried(g, g1, f1, g2, f2);
    var R := |g| + 1;
    forall w ensures Reach(G, f.entry, w, f.exit) <==> Matches(Alt(r1, r2), w) {
      Fork(G, |g|, f1.entry, f2.entry, w, R);
      Branch(g1, G, |g| + 2, |g1|, f1, R, w);
      Branch(g2, G, |g1|, |g2|, f2, R, w);
    }
  }

  // ---------------------------------------------------------------------------
  // Sequence
  // ---------------------------------------------------------------------------

  /** `SequenceNode.toNFA` (regexp.js:64-72) adds exactly one ε-edge, from the
      first operand's exit to the second one's entry. */
  lemma SequenceWiring(g: Graph, g1: Graph, f1: Frag, g2: Graph, f2: Frag)
    requires WellBuilt(g, g1, f1) && WellBuilt(g1, g2, f2)
    ensures var (G, f) := SequenceFrag(g, g1, f1, g2, f2);
            |G| == |g2| && f == Frag(f1.entry, f2.exit) && Extends(g2, G)
            && G[f1.exit] == g2[f1.exit] + [Edge(Eps, f2.entry)]
            && forall y :: 0 <= y < |G| && y != f1.exit ==> G[y] == g2[y]
  {
    ExtendsOn(g2, f1.exit, f2.entry, Eps);
  }

  lemma SequenceCarried(g: Graph, g1: Graph, f1: Frag, g2: Graph, f2: Frag)
    requires WellBuilt(g, g1, f1) && Closed(g1, |g|, |g1|)
    requires WellBuilt(g1, g2, f2) && Closed(g2, |g1|, |g2|)
    ensures var G := SequenceFrag(g, g1, f1, g2, f2).0;
            Carried(g1, G, |g|, |g1|, f1.exit, [Edge(Eps, f2.entry)])
            && Carried(g2, G, |g1|, |g2|, f2.exit, [])
            && Closed(G, |g|, |G|) && Extends(g1, G) && Extends(g2, G)
  {
    var G: Graph := SequenceFrag(g, g1, f1, g2, f2).0;
    SequenceWiring(g, g1, f1, g2, f2);
    var extra := [Edge(Eps, f2.entry)];
    forall y | 0 <= y < |g1| ensures g2[y] == g1[y] {
      assert g2[..|g1|][y] == g2[y];
    }
    assert Carried(g1, G, |g|, |g1|, f1.exit, extra);
    assert g2[f2.exit] + [] == g2[f2.exit];
    assert Carried(g2, G, |g1|, |g2|, f2.exit, []);
    forall u, e: Edge | |g| <= u < |G| && e in G[u] ensures |g| <= e.target < |G| {
      if u < |g1| {
        assert e in g1[u] || e in extra;
      }
    }
    ExtendsPrefix(g1, g2);
    ExtendsTrans(g1, g2, G);
  }

  /** Two carried regions chained by one ε-edge: a run across them splits
      into a run through each. */
  lemma ChainRun(g1: Graph, g2: Graph, G: Graph, lo: nat, mid: nat, hi: nat, f1: Frag, f2: Frag, run: seq<Step>)
    returns (k: nat)
    requires Carried(g1, G, lo, mid, f1.exit, [Edge(Eps, f2.entry)])
    requires Carried(g2, G, mid, hi, f2.exit, [])
    requires lo <= f1.entry < mid <= f2.entry < hi && mid <= f2.exit
    requires IsRun(G, f1.entry, run, f2.exit)
    ensures k <= |Word(run)|
    ensures Reach(g1, f1.entry, Word(run)[..k], f1.exit) && Reach(g2, f2.entry, Word(run)[k..], f2.exit)
  {
    var j := LeaveAt(g1, G, lo, mid, f1.exit, f2.entry, f1.entry, run, f2.exit);
    StayIn(g2, G, mid, hi, f2.exit, f2.entry, run[j + 1..], f2.exit);
    var w, w1, w2 := Word(run), Word(run[..j]), Word(run[j + 1..]);
    k := |w1|;
    assert w[..k] == w1 && w[k..] == w2;
  }

  lemma ChainWord(g1: Graph, g2: Graph, G: Graph, f1: Frag, f2: Frag, w1: seq<char>, w2: seq<char>)
    requires Extends(g1, G) && Extends(g2, G) && f1.exit < |g1|
    requires Edge(Eps, f2.entry) in G[f1.exit]
    requires Reach(g1, f1.entry, w1, f1.exit) && Reach(g2, f2.entry, w2, f2.exit)
    ensures Reach(G, f1.entry, w1 + w2, f2.exit)
  {
    ReachMono(g1, G, f1.entry, w1, f1.exit);
    ReachMono(g2, G, f2.entry, w2, f2.exit);
    ReachVia(G, f1.entry, w1, f1.exit, Eps, f2.entry, w2, f2.exit);
    assert w1 + LabelWord(Eps) + w2 == w1 + w2;
  }

  /** Two carried regions chained by one ε-edge: a word crosses them
      exactly when it splits into a word through each. */
  lemma Chain(g1: Graph, g2: Graph, G: Graph, lo: nat, mid: nat, hi: nat, f1: Frag, f2: Frag, w: seq<char>)
    requires Carried(g1, G, lo, mid, f1.exit, [Edge(Eps, f2.entry)]) && Extends(g1, G)
    requires Carried(g2, G, mid, hi, f2.exit, []) && Extends(g2, G)
    requires lo <= f1.entry < mid <= f2.entry < hi && mid <= f2.exit
    ensures Reach(G, f1.entry, w, f2.exit) <==>
            exists k :: 0 <= k <= |w| && Reach(g1, f1.entry, w[..k], f1.exit) && Reach(g2, f2.entry, w[k..], f2.exit)
  {
    if run: seq<Step> :| IsRun(G, f1.entry, run, f2.exit) && Word(run) == w {
      var k := ChainRun(g1, g2, G, lo, mid, hi, f1, f2, run);
    }
    if k :| 0 <= k <= |w| && Reach(g1, f1.entry, w[..k], f1.exit) && Reach(g2, f2.entry, w[k..], f2.exit) {
      assert G[f1.exit] == g1[f1.exit] + [Edge(Eps, f2.entry)];
      ChainWord(g1, g2, G, f1, f2, w[..k], w[k..]);
      Rejoin(w, k);
    }
  }

  /** The sequence accepts a word of the first operand followed by one of the
      second. */
  lemma SequenceCorrect(g: Graph, g1: Graph, f1: Frag, r1: Re, g2: Graph, f2: Frag, r2: Re)
    requires WellBuilt(g, g1, f1) && FragCorrect(g, g1, f1, r1)
    requires WellBuilt(g1, g2, f2) && FragCorrect(g1, g2, f2, r2)
    ensures FragCorrect(g, SequenceFrag(g, g1, f1, g2, f2).0, SequenceFrag(g, g1, f1, g2, f2).1, Cat(r1, r2))
  {
    var (G, f) := SequenceFrag(g, g1, f1, g2, f2);
    SequenceWiring(g, g1, f1, g2, f2);
    SequenceCarried(g, g1, f1, g2, f2);
    forall w ensures Reach(G, f.entry, w, f.exit) <==> Matches(Cat(r1, r2), w) {
      Chain(g1, g2, G, |g|, |g1|, |g2|, f1, f2, w);
    }
  }

  // ---------------------------------------------------------------------------
  // Quantifiers
  // ---------------------------------------------------------------------------

  /** The edges one quantifier adds (regexp.js:101-119, with the bypass of `*`
      and `?` on the new pair): the inner exit gains an ε-edge to the new
      exit `n1`; the new entry `n0` and `n1` get the edges below; no other
      node changes. */
  lemma QuantWiring(q: Quant, g: Graph, f: Frag)
    requires f.entry < |g| && f.exit < |g|
    ensures var (G, h) := ApplyQuant(q, g, f);
            var n0, n1 := |g|, |g| + 1;
            Extends(g, G)
            && G[f.exit] == g[f.exit] + [Edge(Eps, n1)]
            && (forall y :: 0 <= y < |g| && y != f.exit ==> G[y] == g[y])
            && (q == Star ==> G[n0] == [Edge(Eps, n1), Edge(Eps, f.entry)] && G[n1] == [Edge(Eps, n0)])
            && (q == Plus ==> G[n0] == [Edge(Eps, f.entry)] && G[n1] == [Edge(Eps, n0)])
            && (q == Opt ==> G[n0] == [Edge(Eps, n1), Edge(Eps, f.entry)] && G[n1] == [])
  {
    var G := ApplyQuant(q, g, f).0;
    forall y | 0 <= y < |g| ensures g[y] <= G[y] {
      if y == f.exit {
        assert G[y] == g[y] + [Edge(Eps, |g| + 1)];
      }
    }
  }

  lemma QuantCarried(q: Quant, g: Graph, f: Frag, lo: nat)
    requires Closed(g, lo, |g|) && lo <= f.entry < |g| && lo <= f.exit < |g|
    ensures var G := ApplyQuant(q, g, f).0;
            Carried(g, G, lo, |g|, f.exit, [Edge(Eps, |g| + 1)]) && Closed(G, lo, |G|)
  {
    var G: Graph := ApplyQuant(q, g, f).0;
    QuantWiring(q, g, f);
    var extra := [Edge(Eps, |g| + 1)];
    forall u, e: Edge | lo <= u < |G| && e in G[u] ensures lo <= e.target < |G| {
      if u < |g| {
        assert e in g[u] || e in extra;
      }
    }
  }

  /** A run from the loop body's entry to the new exit `n1`: a word of the
      body, then the ε-edge out of the body's exit, then a run from `n1`. */
  lemma LoopBody(g: Graph, G: Graph, lo: nat, f: Frag, r: Re, run: seq<Step>) returns (k: nat)
    requires Carried(g, G, lo, |g|, f.exit, [Edge(Eps, |g| + 1)]) && Accepts(g, f, r) && lo <= f.entry < |g|
    requires IsRun(G, f.entry, run, |g| + 1)
    ensures k < |run| && Matches(r, Word(run[..k])) && IsRun(G, |g| + 1, run[k + 1..], |g| + 1)
    ensures Word(run) == Word(run[..k]) + Word(run[k + 1..])
  {
    k := LeaveAt(g, G, lo, |g|, f.exit, |g| + 1, f.entry, run, |g| + 1);
    assert Reach(g, f.entry, Word(run[..k]), f.exit);
  }

  /** Runs that go round the loop of `*` or `+`: from either new node to the
      new exit, they read words of the loop body one after another. */
  lemma {:induction false} LoopForward(g: Graph, G: Graph, lo: nat, f: Frag, r: Re, u: nat, run: seq<Step>)
    requires AroundBody(g, G, lo, f, r) && G[|g| + 1] == [Edge(Eps, |g|)]
    requires G[|g|] == [Edge(Eps, |g| + 1), Edge(Eps, f.entry)] || G[|g|] == [Edge(Eps, f.entry)]
    requires (u == |g| || u == |g| + 1) && IsRun(G, u, run, |g| + 1)
    ensures StarMatches(r, Word(run))
    decreases |run|, 1
  {
    if run != [] {
      if run[0].dst == f.entry {
        LoopThroughBody(g, G, lo, f, r, u, run);
      } else {
        assert Word(run) == Word(run[1..]);
        LoopForward(g, G, lo, f, r, run[0].dst, run[1..]);
      }
    }
  }

  /** A run of `LoopForward` whose first step enters the body. */
  lemma {:induction false} LoopThroughBody(g: Graph, G: Graph, lo: nat, f: Frag, r: Re, u: nat, run: seq<Step>)
    requires AroundBody(g, G, lo, f, r) && G[|g| + 1] == [Edge(Eps, |g|)]
    requires G[|g|] == [Edge(Eps, |g| + 1), Edge(Eps, f.entry)] || G[|g|] == [Edge(Eps, f.entry)]
    requires (u == |g| || u == |g| + 1) && IsRun(G, u, run, |g| + 1)
    requires run != [] && run[0].dst == f.entry
    ensures StarMatches(r, Word(run))
    decreases |run|, 0
  {
    var rest := run[1..];
    assert Word(run) == Word(rest);
    var k := LoopBody(g, G, lo, f, r, rest);
    LoopForward(g, G, lo, f, r, |g| + 1, rest[k + 1..]);
    StarCons(r, Word(rest[..k]), Word(rest[k + 1..]));
  }

  /** Entering the loop body from the new entry `n0`: a body word, the
      ε-edge to the new exit `n1`, then a run from `n1` back to itself. */
  lemma Enter(g: Graph, G: Graph, f: Frag, w1: seq<char>, w2: seq<char>)
    requires Extends(g, G) && f.exit < |g| && |g| + 2 <= |G| && Reach(g, f.entry, w1, f.exit)
    requires Edge(Eps, f.entry) in G[|g|] && Edge(Eps, |g| + 1) in G[f.exit]
    requires Reach(G, |g| + 1, w2, |g| + 1)
    ensures Reach(G, |g|, w1 + w2, |g| + 1)
  {
    var n0, n1 := |g|, |g| + 1;
    ReachMono(g, G, f.entry, w1, f.exit);
    ReachWrap(G, n0, f.entry, w1, f.exit, n1);
    ReachTrans(G, n0, w1, n1, w2, n1);
  }

  /** One more word of the loop body in front of a run from the new exit
      `n1` back to itself: `n1 -ε-> n0 -ε-> body -ε-> n1`. */
  lemma LoopStep(g: Graph, G: Graph, f: Frag, w1: seq<char>, w2: seq<char>)
    requires Extends(g, G) && f.exit < |g| && |g| + 2 <= |G| && Reach(g, f.entry, w1, f.exit)
    requires Edge(Eps, |g|) in G[|g| + 1] && Edge(Eps, f.entry) in G[|g|] && Edge(Eps, |g| + 1) in G[f.exit]
    requires Reach(G, |g| + 1, w2, |g| + 1)
    ensures Reach(G, |g| + 1, w1 + w2, |g| + 1)
  {
    Enter(g, G, f, w1, w2);
    ReachEdge(G, |g| + 1, Eps, |g|);
    ReachTrans(G, |g| + 1, [], |g|, w1 + w2, |g| + 1);
    assert [] + (w1 + w2) == w1 + w2;
  }

  /** Every sequence of loop-body words leads from the new exit back to
      itself. */
  lemma {:induction false} LoopBack(g: Graph, G: Graph, f: Frag, r: Re, w: seq<char>)
    requires Extends(g, G) && Accepts(g, f, r) && f.exit < |g| && |g| + 2 <= |G|
    requires Edge(Eps, |g|) in G[|g| + 1] && Edge(Eps, f.entry) in G[|g|] && Edge(Eps, |g| + 1) in G[f.exit]
    requires StarMatches(r, w)
    ensures Reach(G, |g| + 1, w, |g| + 1)
    decreases |w|
  {
    if w == [] {
      ReachRefl(G, |g| + 1);
    } else {
      var k :| 1 <= k <= |w| && Matches(r, w[..k]) && StarMatches(r, w[k..]);
      LoopBack(g, G, f, r, w[k..]);
      LoopStep(g, G, f, w[..k], w[k..]);
      Rejoin(w, k);
    }
  }

  /** The shape every quantifier shares: the inner fragment `f` is carried
      with one ε-edge from its exit to the new exit `n1 = |g| + 1`. */
  ghost predicate AroundBody(g: Graph, G: Graph, lo: nat, f: Frag, r: Re) {
    Carried(g, G, lo, |g|, f.exit, [Edge(Eps, |g| + 1)]) && Extends(g, G) && Accepts(g, f, r)
    && lo <= f.entry < |g| && |g| + 2 <= |G|
  }

  lemma StarLang(g: Graph, G: Graph, lo: nat, f: Frag, r: Re, w: seq<char>)
    requires AroundBody(g, G, lo, f, r)
    requires G[|g|] == [Edge(Eps, |g| + 1), Edge(Eps, f.entry)] && G[|g| + 1] == [Edge(Eps, |g|)]
    ensures Reach(G, |g|, w, |g| + 1) <==> StarMatches(r, w)
  {
    if run: seq<Step> :| IsRun(G, |g|, run, |g| + 1) && Word(run) == w {
      LoopForward(g, G, lo, f, r, |g|, run);
    }
    if StarMatches(r, w) {
      LoopBack(g, G, f, r, w);
      ReachEdge(G, |g|, Eps, |g| + 1);
      ReachTrans(G, |g|, [], |g| + 1, w, |g| + 1);
      assert [] + w == w;
    }
  }

  lemma PlusRun(g: Graph, G: Graph, lo: nat, f: Frag, r: Re, run: seq<Step>)
    requires AroundBody(g, G, lo, f, r)
    requires G[|g|] == [Edge(Eps, f.entry)] && G[|g| + 1] == [Edge(Eps, |g|)]
    requires IsRun(G, |g|, run, |g| + 1)
    ensures Matches(OneOrMore(r), Word(run))
  {
    var rest := run[1..];
    assert Word(run) == Word(rest) && run[0].dst == f.entry;
    var k := LoopBody(g, G, lo, f, r, rest);
    LoopForward(g, G, lo, f, r, |g| + 1, rest[k + 1..]);
    var w, w1, w2 := Word(run), Word(rest[..k]), Word(rest[k + 1..]);
    assert w[..|w1|] == w1 && w[|w1|..] == w2;
  }

  lemma PlusWord(g: Graph, G: Graph, f: Frag, r: Re, w: seq<char>)
    requires Extends(g, G) && Accepts(g, f, r) && f.exit < |g| && |g| + 2 <= |G|
    requires Edge(Eps, |g|) in G[|g| + 1] && Edge(Eps, f.entry) in G[|g|] && Edge(Eps, |g| + 1) in G[f.exit]
    requires Matches(OneOrMore(r), w)
    ensures Reach(G, |g|, w, |g| + 1)
  {
    var k :| 0 <= k <= |w| && Matches(r, w[..k]) && StarMatches(r, w[k..]);
    LoopBack(g, G, f, r, w[k..]);
    Enter(g, G, f, w[..k], w[k..]);
    Rejoin(w, k);
  }

  lemma PlusLang(g: Graph, G: Graph, lo: nat, f: Frag, r: Re, w: seq<char>)
    requires AroundBody(g, G, lo, f, r)
    requires G[|g|] == [Edge(Eps, f.entry)] && G[|g| + 1] == [Edge(Eps, |g|)]
    ensures Reach(G, |g|, w, |g| + 1) <==> Matches(OneOrMore(r), w)
  {
    if run: seq<Step> :| IsRun(G, |g|, run, |g| + 1) && Word(run) == w {
      PlusRun(g, G, lo, f, r, run);
    }
    if Matches(OneOrMore(r), w) {
      PlusWord(g, G, f, r, w);
    }
  }

  lemma OptLang(g: Graph, G: Graph, lo: nat, f: Frag, r: Re, w: seq<char>)
    requires AroundBody(g, G, lo, f, r)
    requires G[|g|] == [Edge(Eps, |g| + 1), Edge(Eps, f.entry)] && G[|g| + 1] == []
    ensures Reach(G, |g|, w, |g| + 1) <==> Matches(ZeroOrOne(r), w)
  {
    var n1 := |g| + 1;
    Fork(G, |g|, n1, f.entry, w, n1);
    Branch(g, G, lo, |g|, f, n1, w);
    if run: seq<Step> :| IsRun(G, n1, run, n1) && Word(run) == w {
      NoWayOut(G, n1, run, n1);
    }
    if w == [] {
      ReachRefl(G, n1);
    }
  }

  /** One quantifier keeps the region closed and accepts the quantified
      language. */
  lemma QuantCorrect(q: Quant, g: Graph, f: Frag, lo: nat, r: Re)
    requires Closed(g, lo, |g|) && lo <= f.entry < |g| && lo <= f.exit < |g| && Accepts(g, f, r)
    ensures Closed(ApplyQuant(q, g, f).0, lo, |ApplyQuant(q, g, f).0|)
    ensures Accepts(ApplyQuant(q, g, f).0, ApplyQuant(q, g, f).1, Quantified(q, r))
  {
    QuantWiring(q, g, f);
    QuantCarried(q, g, f, lo);
    var (G, h) := ApplyQuant(q, g, f);
    assert AroundBody(g, G, lo, f, r);
    forall w ensures Reach(G, h.entry, w, h.exit) <==> Matches(Quantified(q, r), w) {
      match q
      case Star => StarLang(g, G, lo, f, r, w);
      case Plus => PlusLang(g, G, lo, f, r, w);
      case Opt => OptLang(g, G, lo, f, r, w);
    }
  }

  /** A chain of quantifiers applies them left to right. */
  lemma {:induction false} QuantsCorrect(ops: Ops, g: Graph, f: Frag, lo: nat, r: Re)
    requires Closed(g, lo, |g|) && lo <= f.entry < |g| && lo <= f.exit < |g| && Accepts(g, f, r)
    ensures Closed(ApplyQuants(ops, g, f).0, lo, |ApplyQuants(ops, g, f).0|)
    ensures Accepts(ApplyQuants(ops, g, f).0, ApplyQuants(ops, g, f).1, Quantify(r, ops))
    decreases ops
  {
    match ops
    case OpNode(q) =>
      QuantCorrect(q, g, f, lo, r);
    case SequentialOps(q, rest) =>
      QuantCorrect(q, g, f, lo, r);
      var (g1, f1) := ApplyQuant(q, g, f);
      QuantsCorrect(rest, g1, f1, lo, Quantified(q, r));
  }

  // ---------------------------------------------------------------------------
  // Character lists
  // ---------------------------------------------------------------------------

  /** A single character's list means what the character means. */
  lemma SingleMeaning(x: Sym, w: seq<char>)
    ensures Matches(Chars(SingleCharList(x)), w) <==> SymMatches(x, w)
  {
    assert '.' != Epsilon;
    if x == Chr('.') {
      DotMeansDotChars(w);
    } else {
      assert SingleCharList(x) == [x];
      OneListMatches(x, w);
    }
  }

  /** A one-element list means what its element means. */
  lemma OneListMatches(x: Sym, w: seq<char>)
    ensures ListMatches([x], w) <==> SymMatches(x, w)
  {
    if ListMatches([x], w) {
      var k :| 0 <= k < 1 && SymMatches([x][k], w);
      assert k == 0;
    }
    if SymMatches(x, w) {
      assert SymMatches([x][0], w);
    }
  }

  /** The union `NFANodeFromCharList` builds accepts exactly the words of
      one of the listed characters. */
  lemma {:induction false} LeftUnionMeaning(l: seq<Sym>, w: seq<char>)
    requires |l| > 0
    ensures ToRe(LeftUnion(l)).Ok?
    ensures Matches(ToRe(LeftUnion(l)).value, w) <==> ListMatches(l, w)
    decreases |l|
  {
    var last := l[|l| - 1];
    SingleMeaning(last, w);
    if |l| == 1 {
      assert ListMatches(l, w) <==> SymMatches(l[0], w);
    } else {
      var init := l[..|l| - 1];
      LeftUnionMeaning(init, w);
      if ListMatches(l, w) {
        var k :| 0 <= k < |l| && SymMatches(l[k], w);
        if k < |l| - 1 {
          assert init[k] == l[k];
        }
      }
      if ListMatches(init, w) {
        var k :| 0 <= k < |init| && SymMatches(init[k], w);
        assert l[k] == init[k];
      }
    }
  }

  // ---------------------------------------------------------------------------
  // The whole construction
  // ---------------------------------------------------------------------------

  /** `toNFA` builds, for every AST node, a closed fragment accepting exactly
      the words of `ToRe(n)`; it throws exactly when `ToRe(n)` fails, and with
      the same error. */
  lemma {:induction false} BuildCorrect(n: Node, g: Graph)
    ensures Build(n, g).Err? ==> ToRe(n) == Err(Build(n, g).error)
    ensures Build(n, g).Ok? ==>
      ToRe(n).Ok? && FragCorrect(g, Build(n, g).value.0, Build(n, g).value.1, ToRe(n).value)
    decreases Weight(n), 0, Size(n)
  {
    match n
    case Union(n1, n2) =>
      BuildCorrect(n1, Fresh2(g));
      if Build(n1, Fresh2(g)).Ok? {
        var (g1, f1) := Build(n1, Fresh2(g)).value;
        BuildCorrect(n2, g1);
        if Build(n2, g1).Ok? {
          var (g2, f2) := Build(n2, g1).value;
          UnionCorrect(g, g1, f1, ToRe(n1).value, g2, f2, ToRe(n2).value);
        }
      }
    case Empty =>
      EmptyCorrect(g, []);
    case Sequence(n1, n2) =>
      BuildCorrect(n1, g);
      if Build(n1, g).Ok? {
        var (g1, f1) := Build(n1, g).value;
        BuildCorrect(n2, g1);
        if Build(n2, g1).Ok? {
          var (g2, f2) := Build(n2, g1).value;
          SequenceCorrect(g, g1, f1, ToRe(n1).value, g2, f2, ToRe(n2).value);
        }
      }
    case ApplyOps(sym, ops) =>
      BuildCorrect(sym, g);
      if Build(sym, g).Ok? {
        var (g1, f1) := Build(sym, g).value;
        QuantsCorrect(ops, g1, f1, |g|, ToRe(sym).value);
      }
    case Single(x) =>
      SingleFragCorrect(x, g);
    case Negation(m) =>
      if CharListOf(m).Ok? {
        NegatedDotCount(CharListOf(m).value);
        ListFragCorrect(Difference(AllChars(), CharListOf(m).value), g);
      }
    case _ =>
      if CharListOf(n).Ok? {
        ClassDotCount(n);
        ListFragCorrect(CharListOf(n).value, g);
      }
  }

  /** `NFANodeFromCharList` accepts exactly the words of one listed
      character, and never throws. */
  lemma {:induction false} SingleFragCorrect(x: Sym, g: Graph)
    ensures SingleFrag(x, g).Ok?
    ensures FragCorrect(g, SingleFrag(x, g).value.0, SingleFrag(x, g).value.1, Chars(SingleCharList(x)))
    decreases Weight(Single(x)), 0, 0
  {
    var list := SingleCharList(x);
    SingleCharListShape(x);
    if |list| == 1 {
      CharFragCorrect(g, x);
    } else {
      SingleListLighter(x, list);
      ListFragCorrect(list, g);
    }
  }

  lemma {:induction false} ListFragCorrect(l: seq<Sym>, g: Graph)
    ensures ListFrag(l, g).Ok?
    ensures FragCorrect(g, ListFrag(l, g).value.0, ListFrag(l, g).value.1, Chars(l))
    decreases DotCount(l), 1, 0
  {
    if |l| == 0 {
      EmptyCorrect(g, l);
    } else {
      LeftUnionWeight(l);
      BuildCorrect(LeftUnion(l), g);
      LeftUnionMeaning(l, []);
      var (G, f) := ListFrag(l, g).value;
      forall w ensures Reach(G, f.entry, w, f.exit) <==> Matches(Chars(l), w) {
        LeftUnionMeaning(l, w);
      }
    }
  }
}
