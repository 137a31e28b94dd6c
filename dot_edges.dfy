/** No compiled transition reads `.` (regexp.js:132-143, 196-213).

    `SingleChar.toNFA` compiles a character whose list has one member as one
    edge, and any other list through `NFANodeFromCharList`, which compiles
    every member through `SingleChar.toNFA` again. The list of `.` is the
    alphabet without `.`, so the one-member case never meets `.` and every
    `.` of a pattern, of a class or of a complement ends up as the 255-way
    union of the other codes. */
module DotEdges {
  import opened Ast
  import opened Graph
  import opened Thompson
  import Nfa
  import ParserSpec

  /** No transition of `g` is labelled with the character `.`. */
  ghost predicate NoDotEdge(g: Graph) {
    forall u, e :: 0 <= u < |g| && e in g[u] ==> e.input != Char('.')
  }

  lemma OnNoDot(g: Graph, u: nat, v: nat, l: Label)
    requires NoDotEdge(g) && u < |g| && l != Char('.')
    ensures NoDotEdge(On(g, u, v, l))
  {
  }

  lemma UnionNoDot(g: Graph, g1: Graph, f1: Frag, g2: Graph, f2: Frag)
    requires WellBuilt(Fresh2(g), g1, f1) && WellBuilt(g1, g2, f2) && NoDotEdge(g2)
    ensures NoDotEdge(UnionFrag(g, g1, f1, g2, f2).0)
  {
    var a := On(g2, |g|, f1.entry, Eps);
    OnNoDot(g2, |g|, f1.entry, Eps);
    var b := On(a, |g|, f2.entry, Eps);
    OnNoDot(a, |g|, f2.entry, Eps);
    var c := On(b, f1.exit, |g| + 1, Eps);
    OnNoDot(b, f1.exit, |g| + 1, Eps);
    OnNoDot(c, f2.exit, |g| + 1, Eps);
  }

  lemma QuantNoDot(q: Quant, g: Graph, f: Frag)
    requires f.entry < |g| && f.exit < |g| && NoDotEdge(g)
    ensures NoDotEdge(ApplyQuant(q, g, f).0)
  {
    var n0, n1 := |g|, |g| + 1;
    var g0 := Fresh2(g);
    assert NoDotEdge(g0) by {
      forall u: nat, e: Edge | u < |g0| && e in g0[u] ensures e.input != Char('.') {
        assert u < |g| && g0[u] == g[u];
      }
    }
    match q
    case Star =>
      var a := On(g0, n0, n1, Eps);
      OnNoDot(g0, n0, n1, Eps);
      var b := On(a, n1, n0, Eps);
      OnNoDot(a, n1, n0, Eps);
      var c := On(b, n0, f.entry, Eps);
      OnNoDot(b, n0, f.entry, Eps);
      OnNoDot(c, f.exit, n1, Eps);
    case Plus =>
      var b := On(g0, n1, n0, Eps);
      OnNoDot(g0, n1, n0, Eps);
      var c := On(b, n0, f.entry, Eps);
      OnNoDot(b, n0, f.entry, Eps);
      OnNoDot(c, f.exit, n1, Eps);
    case Opt =>
      var b := On(g0, n0, n1, Eps);
      OnNoDot(g0, n0, n1, Eps);
      var c := On(b, n0, f.entry, Eps);
      OnNoDot(b, n0, f.entry, Eps);
      OnNoDot(c, f.exit, n1, Eps);
  }

  lemma {:induction false} QuantsNoDot(ops: Ops, g: Graph, f: Frag)
    requires f.entry < |g| && f.exit < |g| && NoDotEdge(g)
    ensures NoDotEdge(ApplyQuants(ops, g, f).0)
    decreases ops
  {
    QuantNoDot(ops.op, g, f);
    match ops
    case OpNode(_) =>
    case SequentialOps(q, rest) =>
      var (g1, f1) := ApplyQuant(q, g, f);
      QuantsNoDot(rest, g1, f1);
  }

  lemma FreshNoDot(g: Graph)
    requires NoDotEdge(g)
    ensures NoDotEdge(Fresh2(g))
  {
    var g0 := Fresh2(g);
    forall u: nat, e: Edge | u < |g0| && e in g0[u] ensures e.input != Char('.') {
      assert u < |g| && g0[u] == g[u];
    }
  }

  /** Compiling any AST node onto an arena without `.` transitions adds
      none. */
  lemma {:induction false} BuildNoDot(n: Node, g: Graph)
    requires NoDotEdge(g)
    ensures Build(n, g).Ok? ==> NoDotEdge(Build(n, g).value.0)
    decreases Weight(n), 0, Size(n)
  {
    match n
    case Union(n1, n2) =>
      FreshNoDot(g);
      BuildNoDot(n1, Fresh2(g));
      if Build(n1, Fresh2(g)).Ok? {
        var (g1, f1) := Build(n1, Fresh2(g)).value;
        BuildNoDot(n2, g1);
        if Build(n2, g1).Ok? {
          var (g2, f2) := Build(n2, g1).value;
          UnionNoDot(g, g1, f1, g2, f2);
        }
      }
    case Empty =>
      FreshNoDot(g);
    case Sequence(n1, n2) =>
      BuildNoDot(n1, g);
      if Build(n1, g).Ok? {
        var (g1, f1) := Build(n1, g).value;
        BuildNoDot(n2, g1);
        if Build(n2, g1).Ok? {
          var (g2, f2) := Build(n2, g1).value;
          OnNoDot(g2, f1.exit, f2.entry, Eps);
        }
      }
    case ApplyOps(sym, ops) =>
      BuildNoDot(sym, g);
      if Build(sym, g).Ok? {
        var (g1, f1) := Build(sym, g).value;
        QuantsNoDot(ops, g1, f1);
      }
    case Single(x) =>
      SingleFragNoDot(x, g);
    case Negation(m) =>
      if CharListOf(m).Ok? {
        NegatedDotCount(CharListOf(m).value);
        ListFragNoDot(Difference(AllChars(), CharListOf(m).value), g);
      }
    case _ =>
      if CharListOf(n).Ok? {
        ClassDotCount(n);
        ListFragNoDot(CharListOf(n).value, g);
      }
  }

  /** A single character becomes one edge only when it is not `.`. */
  lemma {:induction false} SingleFragNoDot(x: Sym, g: Graph)
    requires NoDotEdge(g)
    ensures SingleFrag(x, g).Ok? ==> NoDotEdge(SingleFrag(x, g).value.0)
    decreases Weight(Single(x)), 0, 0
  {
    var list := SingleCharList(x);
    SingleCharListShape(x);
    if |list| == 1 {
      FreshNoDot(g);
      OnNoDot(Fresh2(g), |g|, |g| + 1, LabelOf(x));
    } else {
      SingleListLighter(x, list);
      ListFragNoDot(list, g);
    }
  }

  lemma {:induction false} ListFragNoDot(l: seq<Sym>, g: Graph)
    requires NoDotEdge(g)
    ensures ListFrag(l, g).Ok? ==> NoDotEdge(ListFrag(l, g).value.0)
    decreases DotCount(l), 1, 0
  {
    if |l| == 0 {
      FreshNoDot(g);
    } else {
      LeftUnionWeight(l);
      BuildNoDot(LeftUnion(l), g);
    }
  }

  /** The automaton `toNFA` builds for any pattern has no `.` transition. */
  lemma CompiledNoDot(s: seq<char>)
    ensures Nfa.NfaOf(s).Ok? ==> NoDotEdge(Nfa.NfaOf(s).value.0)
  {
    match ParserSpec.Parse(s).value
    case Tree(n) => BuildNoDot(n, []);
    case Null =>
    case StackOverflow =>
  }
}
