/** The bypass edge of `*` and `?` as regexp.js:101-119 places it.

    `SequentialOpsNode.toNFA` adds the ε-edge that lets `*` and `?` match the
    empty word between the entry and exit of the fragment it quantifies
    instead of between the two nodes it allocates. That inner pair is not
    private to the quantifier: when the fragment is itself the body of a
    loop, the loop's back edge re-enters the inner entry, and the bypass then
    lets a run leave the body half way through. For `(a*b)*` the built
    automaton reads `a` from the start to the final node, although every
    word of `(a*b)*` is empty or ends with `b`. `Thompson.ApplyQuant` places
    the bypass between the new pair; `ThompsonProof.QuantCorrect` proves that
    placement right, and `CorrectedRejectsA` shows that it rejects `a`. */
module Findings {
  import opened Ast
  import opened Graph
  import opened Thompson
  import ThompsonProof
  import Lang
  import ParserSpec
  import Nfa

  /** `SequentialOpsNode.toNFA` as written: the same edges as
      `Thompson.ApplyQuant`, in the source's order, except that the bypass
      of `*` and `?` joins the inner fragment's entry to its exit. */
  function ApplyQuantAsWritten(q: Quant, g: Graph, f: Frag): (r: (Graph, Frag))
    requires f.entry < |g| && f.exit < |g|
    ensures |r.0| == |g| + 2 && r.1 == Frag(|g|, |g| + 1)
    ensures q != Plus ==> Edge(Eps, f.exit) in r.0[f.entry]
    ensures q == Plus && f.entry != f.exit ==> r.0[f.entry] == g[f.entry]
  {
    var n0, n1 := |g|, |g| + 1;
    var g0 := Fresh2(g);
    assert g0[f.entry] == g0[..|g|][f.entry];
    match q
    case Star =>
      (On(On(On(On(g0, f.entry, f.exit, Eps), n1, n0, Eps), n0, f.entry, Eps), f.exit, n1, Eps), Frag(n0, n1))
    case Plus =>
      (On(On(On(g0, n1, n0, Eps), n0, f.entry, Eps), f.exit, n1, Eps), Frag(n0, n1))
    case Opt =>
      (On(On(On(g0, f.entry, f.exit, Eps), n0, f.entry, Eps), f.exit, n1, Eps), Frag(n0, n1))
  }

  /** Every edge `SequentialOpsNode.toNFA` adds as written (regexp.js:101-119):
      the inner exit gains an ε-edge to the new exit `n1`; for `*` and `?`
      the inner entry gains the bypass to the inner exit; `n0` gets only the
      ε-edge into the fragment; `n1` loops back to `n0` for `*` and `+`; no
      other node changes. Compare `ThompsonProof.QuantWiring`. */
  lemma QuantWiringAsWritten(q: Quant, g: Graph, f: Frag)
    requires f.entry < |g| && f.exit < |g|
    ensures var (G, h) := ApplyQuantAsWritten(q, g, f);
            var n0, n1 := |g|, |g| + 1;
            && Extends(g, G)
            && (q == Plus || f.entry == f.exit ==> G[f.exit] == g[f.exit] + (if q == Plus then [] else [Edge(Eps, f.exit)]) + [Edge(Eps, n1)])
            && (q != Plus && f.entry != f.exit ==>
                  G[f.entry] == g[f.entry] + [Edge(Eps, f.exit)] && G[f.exit] == g[f.exit] + [Edge(Eps, n1)])
            && (forall y :: 0 <= y < |g| && y != f.exit && (q == Plus || y != f.entry) ==> G[y] == g[y])
            && G[n0] == [Edge(Eps, f.entry)]
            && G[n1] == (if q == Opt then [] else [Edge(Eps, n0)])
  {
    var G := ApplyQuantAsWritten(q, g, f).0;
    var g0 := Fresh2(g);
    assert g0[f.entry] == g[f.entry] && g0[f.exit] == g[f.exit];
    forall y | 0 <= y < |g| ensures g[y] <= G[y] {
      assert g0[y] == g[y];
    }
  }

  /** The AST of `(a*b)*`. */
  const AStarBStar: Node :=
    ApplyOps(Sequence(ApplyOps(Single(Chr('a')), OpNode(Star)), Single(Chr('b'))), OpNode(Star))

  /** The parser reads `(a*b)*` as `AStarBStar`. */
  /** The group body `a*b` of `(a*b)*`, read from position 1 up to the `)`. */
  lemma AStarBParses()
    ensures ParserSpec.ParseRegexp("(a*b)*", 1)
         == ParserSpec.At(ParserSpec.Tree(Sequence(ApplyOps(Single(Chr('a')), OpNode(Star)), Single(Chr('b')))), 4)
  {
    var s := "(a*b)*";
    var a := ApplyOps(Single(Chr('a')), OpNode(Star));
    var body := Sequence(a, Single(Chr('b')));
    assert ParserSpec.ParseRegexpBasic(s, 4) == ParserSpec.At(ParserSpec.Null, 4);
    assert ParserSpec.ParseRegexpNoUnion(s, 4) == ParserSpec.At(ParserSpec.Null, 4);
    assert ParserSpec.ParseRegexpBasic(s, 3) == ParserSpec.At(ParserSpec.Tree(Single(Chr('b'))), 4);
    assert ParserSpec.ParseRegexpNoUnion(s, 3) == ParserSpec.At(ParserSpec.Tree(Single(Chr('b'))), 4);
    assert ParserSpec.ParseRegexpBasic(s, 1) == ParserSpec.At(ParserSpec.Tree(Single(Chr('a'))), 2);
    assert ParserSpec.ParseRegexpOp(s, 2) == ParserSpec.At(ParserSpec.Some(OpNode(Star)), 3);
    assert ParserSpec.ParseRegexpNoUnion(s, 1) == ParserSpec.At(ParserSpec.Tree(body), 4);
  }

  lemma AStarBStarParses()
    ensures ParserSpec.Parse("(a*b)*") == ParserSpec.At(ParserSpec.Tree(AStarBStar), 6)
  {
    var s := "(a*b)*";
    var body := Sequence(ApplyOps(Single(Chr('a')), OpNode(Star)), Single(Chr('b')));
    AStarBParses();
    assert ParserSpec.ParseRegexpBasic(s, 0) == ParserSpec.At(ParserSpec.Tree(body), 5);
    assert ParserSpec.ParseRegexpOp(s, 5) == ParserSpec.At(ParserSpec.Some(OpNode(Star)), 6);
    assert ParserSpec.ParseRegexpNoUnion(s, 0) == ParserSpec.At(ParserSpec.Tree(AStarBStar), 6);
  }

  /** What `toNFA` builds for `AStarBStar` from an empty arena with the
      quantifier as written: `a` on nodes 0-1, its `*` on 2-3, `b` on 4-5,
      the concatenation `3 → 4`, and the outer `*` on 6-7. */
  function AStarBStarAsWritten(): (r: (Graph, Frag))
    ensures |r.0| == 8 && r.1 == Frag(6, 7)
  {
    var (g1, a) := CharFrag([], Chr('a'));
    var (g2, s) := ApplyQuantAsWritten(Star, g1, a);
    var (g3, b) := CharFrag(g2, Chr('b'));
    var (g4, ab) := SequenceFrag([], g2, s, g3, b);
    ApplyQuantAsWritten(Star, g4, ab)
  }

  /** The arena `AStarBStarAsWritten` builds, node by node, with every
      transition in the order the source adds it. */
  const AsWrittenArena: Graph :=
      [[Edge(Char('a'), 1), Edge(Eps, 1)], [Edge(Eps, 3)], [Edge(Eps, 0), Edge(Eps, 5)],
       [Edge(Eps, 2), Edge(Eps, 4)], [Edge(Char('b'), 5)], [Edge(Eps, 7)], [Edge(Eps, 2)], [Edge(Eps, 6)]]

  /** The arena after `a*`: the bypass `0 → 1` lands on the inner pair. */
  const InnerArena: Graph :=
      [[Edge(Char('a'), 1), Edge(Eps, 1)], [Edge(Eps, 3)], [Edge(Eps, 0)], [Edge(Eps, 2)]]

  /** The arena after `a*b`, before the outer `*`. */
  const BodyArena: Graph :=
      [[Edge(Char('a'), 1), Edge(Eps, 1)], [Edge(Eps, 3)], [Edge(Eps, 0)],
       [Edge(Eps, 2), Edge(Eps, 4)], [Edge(Char('b'), 5)], []]

  lemma InnerStar()
    ensures ApplyQuantAsWritten(Star, [[Edge(Char('a'), 1)], []], Frag(0, 1)).0 == InnerArena
  {
    var g2 := ApplyQuantAsWritten(Star, [[Edge(Char('a'), 1)], []], Frag(0, 1)).0;
    assert g2[0] == [Edge(Char('a'), 1), Edge(Eps, 1)];
    assert g2[1] == [Edge(Eps, 3)] && g2[2] == [Edge(Eps, 0)] && g2[3] == [Edge(Eps, 2)];
  }

  lemma OuterStar()
    ensures ApplyQuantAsWritten(Star, BodyArena, Frag(2, 5)).0 == AsWrittenArena
  {
    var G := ApplyQuantAsWritten(Star, BodyArena, Frag(2, 5)).0;
    assert G[2] == [Edge(Eps, 0), Edge(Eps, 5)] && G[5] == [Edge(Eps, 7)] && G[6] == [Edge(Eps, 2)] && G[7] == [Edge(Eps, 6)];
    assert G[0] == BodyArena[0] && G[1] == BodyArena[1] && G[3] == BodyArena[3] && G[4] == BodyArena[4];
  }

  lemma CharA()
    ensures CharFrag([], Chr('a')) == ([[Edge(Char('a'), 1)], []], Frag(0, 1))
  {
    assert LabelOf(Chr('a')) == Char('a');
    var g1 := CharFrag([], Chr('a')).0;
    assert g1[0] == [Edge(Char('a'), 1)] && g1[1] == [];
    assert g1 == [[Edge(Char('a'), 1)], []] && CharFrag([], Chr('a')).1 == Frag(0, 1);
  }

  lemma CharB()
    ensures CharFrag(InnerArena, Chr('b')) == (InnerArena + [[Edge(Char('b'), 5)], []], Frag(4, 5))
  {
    assert LabelOf(Chr('b')) == Char('b');
    var g3 := CharFrag(InnerArena, Chr('b')).0;
    assert |g3| == 6 && g3[4] == [Edge(Char('b'), 5)] && g3[5] == [] && g3[..4] == InnerArena;
    assert g3 == InnerArena + [[Edge(Char('b'), 5)], []] && CharFrag(InnerArena, Chr('b')).1 == Frag(4, 5);
  }

  lemma ConcatAB()
    ensures SequenceFrag([], InnerArena, Frag(2, 3), InnerArena + [[Edge(Char('b'), 5)], []], Frag(4, 5))
            == (BodyArena, Frag(2, 5))
  {
    var g4 := SequenceFrag([], InnerArena, Frag(2, 3), InnerArena + [[Edge(Char('b'), 5)], []], Frag(4, 5)).0;
    assert |g4| == 6 && g4[3] == [Edge(Eps, 2), Edge(Eps, 4)];
    assert g4[0] == BodyArena[0] && g4[1] == BodyArena[1] && g4[2] == BodyArena[2];
    assert g4[4] == BodyArena[4] && g4[5] == BodyArena[5];
    assert g4 == BodyArena;
  }

  lemma AStarBStarAsWrittenGraph()
    ensures AStarBStarAsWritten().0 == AsWrittenArena
  {
    CharA();
    InnerStar();
    CharB();
    ConcatAB();
    OuterStar();
  }

  /** As written, the automaton of `(a*b)*` accepts `a`: from the outer
      entry into the body, over `a`, back to the body's entry by the inner
      loop, across the misplaced bypass to the body's exit and out. */
  lemma AsWrittenAcceptsA()
    ensures Reach(AStarBStarAsWritten().0, 6, "a", 7)
  {
    AStarBStarAsWrittenGraph();
    ArenaReadsA();
  }

  lemma ArenaReadsA()
    ensures Reach(AsWrittenArena, 6, "a", 7)
  {
    var G := AsWrittenArena;
    var run: seq<Step> := [];
    assert IsRun(G, 7, run, 7) && Word(run) == [];
    run := Prepend(G, Step(5, Eps, 7), run, 7);
    run := Prepend(G, Step(2, Eps, 5), run, 7);
    run := Prepend(G, Step(3, Eps, 2), run, 7);
    run := Prepend(G, Step(1, Eps, 3), run, 7);
    run := Prepend(G, Step(0, Char('a'), 1), run, 7);
    run := Prepend(G, Step(2, Eps, 0), run, 7);
    run := Prepend(G, Step(6, Eps, 2), run, 7);
  }

  /** A step in front of a run from its target. */
  lemma Prepend(g: Graph, s: Step, run: seq<Step>, v: nat) returns (run': seq<Step>)
    requires HasEdge(g, s) && IsRun(g, s.dst, run, v)
    ensures run' == [s] + run
    ensures IsRun(g, s.src, run', v) && Word(run') == LabelWord(s.input) + Word(run)
  {
    run' := [s] + run;
    assert run'[1..] == run;
  }

  /** Every word of `a*b` ends with `b`, so `a` is not one. */
  lemma BodyRejectsA()
    ensures !Lang.Matches(Lang.Cat(Lang.ZeroOrMore(Lang.Chars([Chr('a')])), Lang.Chars([Chr('b')])), "a")
  {
    assert "a"[..0] == [] && "a"[0..] == "a" && "a"[..1] == "a" && "a"[1..] == [];
  }

  /** No word of `(a*b)*` is `a`. */
  lemma AStarBStarRejectsA()
    ensures Lang.ToRe(AStarBStar).Ok? && !Lang.Matches(Lang.ToRe(AStarBStar).value, "a")
  {
    var body := Lang.Cat(Lang.ZeroOrMore(Lang.Chars([Chr('a')])), Lang.Chars([Chr('b')]));
    assert Lang.ToRe(AStarBStar) == Ok(Lang.ZeroOrMore(body));
    BodyRejectsA();
    assert "a"[..1] == "a";
  }

  /** With the bypass between the new pair, `(a*b)*` compiles to an
      automaton that rejects `a`. */
  lemma CorrectedRejectsA()
    ensures Nfa.NfaOf("(a*b)*") == Build(AStarBStar, []) && Build(AStarBStar, []).Ok?
    ensures !Reach(Build(AStarBStar, []).value.0, Build(AStarBStar, []).value.1.entry, "a",
                   Build(AStarBStar, []).value.1.exit)
  {
    AStarBStarParses();
    ThompsonProof.BuildCorrect(AStarBStar, []);
    AStarBStarRejectsA();
  }
}
