/** Thompson's construction as the `toNFA` methods of the AST classes run it
    (regexp.js:29-143, 145-258), written as functions that thread the arena:
    `Build(n, g)` returns the arena after compiling `n` onto `g` together
    with the new fragment's entry and exit, or the error the source throws.
    Nodes are allocated in the order the source creates them; `On` appends
    an edge as `NFANode.on` does.

    Quantifiers are compiled by `ApplyQuant`, which puts the bypass edge of
    `*` and `?` between the fragment's new entry and exit; the source puts it
    between the inner fragment's entry and exit instead, which
    `Findings.ApplyQuantAsWritten` models. */
module Thompson {
  import opened Ast
  import opened Graph

  /** An `[entry, exit]` node pair. */
  datatype Frag = Frag(entry: nat, exit: nat)

  /** The key `on` files an edge under (regexp.js:13): the phantom
      character becomes ε by `input || epsilon`, and the character `ɛ` is
      the key `epsilon` itself. */
  function LabelOf(x: Sym): (r: Label)
    ensures r == Eps <==> x == Phantom || x == Chr(Epsilon)
  {
    match x
    case Phantom => Eps
    case Chr(c) => if c == Epsilon then Eps else Char(c)
  }

  /** Two fresh nodes appended to the arena. */
  function Fresh2(g: Graph): (r: Graph)
    ensures |r| == |g| + 2 && r[..|g|] == g && r[|g|] == [] && r[|g| + 1] == []
  {
    g + [[], []]
  }

  /** What compiling onto `g` may do: append at least the fragment's two
      nodes, place the fragment's entry and exit among the new nodes, and
      leave every old node as it was. */
  predicate WellBuilt(g: Graph, G: Graph, f: Frag) {
    |g| + 2 <= |G| && G[..|g|] == g
    && |g| <= f.entry < |G| && |g| <= f.exit < |G|
  }

  // ---------------------------------------------------------------------------
  // Termination measure
  // ---------------------------------------------------------------------------

  /** Occurrences of `.` in a list. */
  function DotCount(l: seq<Sym>): nat {
    multiset(l)[Chr('.')]
  }

  lemma DotCountNone(l: seq<Sym>)
    requires Chr('.') !in l
    ensures DotCount(l) == 0
  {
  }

  /** A list without repetitions holds `.` at most once. */
  lemma {:induction false} DistinctDotCount(l: seq<Sym>)
    requires Distinct(l)
    ensures DotCount(l) <= 1
    decreases |l|
  {
    if |l| > 0 {
      assert l == [l[0]] + l[1..];
      assert Distinct(l[1..]) by {
        forall i, j | 0 <= i < j < |l| - 1 ensures l[1..][i] != l[1..][j] {
          assert l[1..][i] == l[i + 1] && l[1..][j] == l[j + 1];
        }
      }
      DistinctDotCount(l[1..]);
      if l[0] == Chr('.') {
        assert Chr('.') !in l[1..] by {
          forall k | 0 <= k < |l| - 1 ensures l[1..][k] != l[0] {
            assert l[1..][k] == l[k + 1];
          }
        }
      }
    }
  }

  /** The complement of a list within the alphabet holds `.` at most once. */
  lemma NegatedDotCount(l: seq<Sym>)
    ensures DotCount(Difference(AllChars(), l)) <= 1
  {
    AllCharsDistinct();
    DifferenceDistinct(AllChars(), l);
    DistinctDotCount(Difference(AllChars(), l));
  }

  /** Each leaf of a character class contributes `.` at most once to the
      class's list: a range and `\S` list distinct codes, `.` lists every
      code but `.`, and any other leaf lists one symbol. */
  lemma {:induction false} ClassDotCount(n: Node)
    requires CharListOf(n).Ok?
    ensures DotCount(CharListOf(n).value) <= Size(n)
  {
    match n
    case CharList(a, b) =>
      ClassDotCount(a);
      ClassDotCount(b);
    case CharRange(lhs, rhs) =>
      var l := CharListOf(n).value;
      RangeCharListSpec(lhs.c, rhs.c);
      assert Distinct(l) by {
        forall i, j | 0 <= i < j < |l| ensures l[i] != l[j] {
          assert l[i].c < l[j].c;
        }
      }
      DistinctDotCount(l);
    case Single(x) =>
      SingleCharListShape(x);
    case Escaped(ch) =>
      if ch == 'S' {
        NegatedDotCount(WsChars);
      } else if ch == 's' {
        DotCountNone(WsChars);
      }
  }

  /** How many times compiling `n` expands a character list, counting the
      255-way union each `.` in a list expands to. A node that compiles its
      list through `NFANodeFromCharList` weighs more than the union of single
      characters it builds: a class lists `.` at most once per leaf, and a
      negated class at most once in all. */
  function Weight(n: Node): nat {
    match n
    case Union(n1, n2) => Weight(n1) + Weight(n2)
    case Sequence(n1, n2) => Weight(n1) + Weight(n2)
    case ApplyOps(sym, _) => Weight(sym)
    case Empty => 0
    case Single(x) => if x == Chr('.') then 1 else 0
    case Negation(_) => 2
    case _ => 1 + Size(n)
  }

  // ---------------------------------------------------------------------------
  // Character lists
  // ---------------------------------------------------------------------------

  /** The union `NFANodeFromCharList` builds for a non-empty list: the first
      character, then each further one joined on the right (regexp.js:137-141). */
  function LeftUnion(l: seq<Sym>): (r: Node)
    requires |l| > 0
    decreases |l|
  {
    if |l| == 1 then Single(l[0])
    else Union(LeftUnion(l[..|l| - 1]), Single(l[|l| - 1]))
  }

  lemma {:induction false} LeftUnionWeight(l: seq<Sym>)
    requires |l| > 0
    ensures Weight(LeftUnion(l)) == DotCount(l)
    decreases |l|
  {
    var init, last := l[..|l| - 1], l[|l| - 1];
    assert l == init + [last];
    if |l| > 1 {
      LeftUnionWeight(init);
    } else {
      assert init == [];
    }
  }

  // ---------------------------------------------------------------------------
  // Fragments
  // ---------------------------------------------------------------------------

  /** `EmptyNode.toNFA` (regexp.js:53-57): two nodes and no edge. */
  function EmptyFrag(g: Graph): (Graph, Frag) {
    (Fresh2(g), Frag(|g|, |g| + 1))
  }

  /** `SingleChar.toNFA` for a one-character list: one edge labelled with the
      character (regexp.js:205-209). */
  function CharFrag(g: Graph, x: Sym): (Graph, Frag) {
    (On(Fresh2(g), |g|, |g| + 1, LabelOf(x)), Frag(|g|, |g| + 1))
  }

  /** `UnionNode.toNFA` after both operands are built: ε from the new entry to
      both entries, then ε from both exits to the new exit (regexp.js:40-43).
      The entry and exit are the two nodes allocated first, at `|g|`. */
  function UnionFrag(g: Graph, g1: Graph, f1: Frag, g2: Graph, f2: Frag): (r: (Graph, Frag))
    requires WellBuilt(Fresh2(g), g1, f1) && WellBuilt(g1, g2, f2)
    ensures WellBuilt(g, r.0, r.1)
  {
    var lhs, rhs := |g|, |g| + 1;
    assert g2[..|g|] == g2[..|g1|][..|g|];
    (On(On(On(On(g2, lhs, f1.entry, Eps), lhs, f2.entry, Eps), f1.exit, rhs, Eps), f2.exit, rhs, Eps), Frag(lhs, rhs))
  }

  /** `SequenceNode.toNFA` after both operands are built (regexp.js:69-70). */
  function SequenceFrag(g: Graph, g1: Graph, f1: Frag, g2: Graph, f2: Frag): (r: (Graph, Frag))
    requires WellBuilt(g, g1, f1) && WellBuilt(g1, g2, f2)
    ensures WellBuilt(g, r.0, r.1)
  {
    assert g2[..|g|] == g2[..|g1|][..|g|];
    (On(g2, f1.exit, f2.entry, Eps), Frag(f1.entry, f2.exit))
  }

  /** One quantifier applied to the fragment `f` (regexp.js:101-119), with the
      bypass of `*` and `?` from the new entry to the new exit. */
  function ApplyQuant(q: Quant, g: Graph, f: Frag): (r: (Graph, Frag))
    requires f.entry < |g| && f.exit < |g|
    ensures |r.0| == |g| + 2 && r.1 == Frag(|g|, |g| + 1)
    ensures r.0[..f.exit] == g[..f.exit]
  {
    var n0, n1 := |g|, |g| + 1;
    var g0 := Fresh2(g);
    match q
    case Star =>
      (On(On(On(On(g0, n0, n1, Eps), n1, n0, Eps), n0, f.entry, Eps), f.exit, n1, Eps), Frag(n0, n1))
    case Plus =>
      (On(On(On(g0, n1, n0, Eps), n0, f.entry, Eps), f.exit, n1, Eps), Frag(n0, n1))
    case Opt =>
      (On(On(On(g0, n0, n1, Eps), n0, f.entry, Eps), f.exit, n1, Eps), Frag(n0, n1))
  }

  /** `SequentialOpsNode.toNFA` over a chain of quantifiers: each applies to
      the fragment the previous one built (regexp.js:124-128). */
  function ApplyQuants(ops: Ops, g: Graph, f: Frag): (r: (Graph, Frag))
    requires f.entry < |g| && f.exit < |g|
    ensures |g| + 2 <= |r.0| && r.1.entry < |r.0| && r.1.exit < |r.0| && |g| <= r.1.entry && |g| <= r.1.exit
    ensures r.0[..f.exit] == g[..f.exit]
    decreases ops
  {
    match ops
    case OpNode(q) => ApplyQuant(q, g, f)
    case SequentialOps(q, rest) =>
      var (g1, f1) := ApplyQuant(q, g, f);
      assert ApplyQuants(rest, g1, f1).0[..f.exit] == ApplyQuants(rest, g1, f1).0[..f1.exit][..f.exit];
      ApplyQuants(rest, g1, f1)
  }

  /** `ApplyOpsNode.toNFA` after the operand is built (regexp.js:81). */
  function OpsFrag(g: Graph, ops: Ops, g1: Graph, f1: Frag): (r: (Graph, Frag))
    requires WellBuilt(g, g1, f1)
    ensures WellBuilt(g, r.0, r.1)
  {
    var r := ApplyQuants(ops, g1, f1);
    assert r.0[..|g|] == r.0[..f1.exit][..|g|];
    r
  }

  /** `toNFA` of every AST node, with the throws of `getCharList` as errors.
      The order of the recursive calls is the order in which the source
      evaluates them, so the error reported is the first one thrown. */
  function Build(n: Node, g: Graph): (r: Result<(Graph, Frag)>)
    ensures r.Ok? ==> WellBuilt(g, r.value.0, r.value.1)
    decreases Weight(n), 0, Size(n)
  {
    match n
    case Union(n1, n2) =>
      (match Build(n1, Fresh2(g))
       case Err(e) => Err(e)
       case Ok((g1, f1)) =>
         match Build(n2, g1)
         case Err(e) => Err(e)
         case Ok((g2, f2)) => Ok(UnionFrag(g, g1, f1, g2, f2)))
    case Empty => Ok(EmptyFrag(g))
    case Sequence(n1, n2) =>
      (match Build(n1, g)
       case Err(e) => Err(e)
       case Ok((g1, f1)) =>
         match Build(n2, g1)
         case Err(e) => Err(e)
         case Ok((g2, f2)) => Ok(SequenceFrag(g, g1, f1, g2, f2)))
    case ApplyOps(sym, ops) =>
      (match Build(sym, g)
       case Err(e) => Err(e)
       case Ok((g1, f1)) => Ok(OpsFrag(g, ops, g1, f1)))
    case Single(x) => SingleFrag(x, g)
    case Negation(m) =>
      (match CharListOf(m)
       case Err(e) => Err(e)
       case Ok(l) =>
         NegatedDotCount(l);
         ListFrag(Difference(AllChars(), l), g))
    case _ =>
      (match CharListOf(n)
       case Err(e) => Err(e)
       case Ok(l) =>
         ClassDotCount(n);
         ListFrag(l, g))
  }

  /** `SingleChar.toNFA` (regexp.js:205-212): a character whose list has one
      member is one edge; `.` compiles its list. */
  function SingleFrag(x: Sym, g: Graph): (r: Result<(Graph, Frag)>)
    ensures r.Ok? ==> WellBuilt(g, r.value.0, r.value.1)
    decreases Weight(Single(x)), 0, 0
  {
    var list := SingleCharList(x);
    if |list| == 1 then Ok(CharFrag(g, x))
    else
      SingleListLighter(x, list);
      ListFrag(list, g)
  }

  lemma SingleListLighter(x: Sym, list: seq<Sym>)
    requires list == SingleCharList(x) && |list| != 1
    ensures DotCount(list) < Weight(Single(x))
  {
    SingleCharListShape(x);
    DotCountNone(list);
  }

  /** `NFANodeFromCharList` (regexp.js:132-143): an empty list is an empty
      fragment, any other list the left-nested union of its characters. */
  function ListFrag(l: seq<Sym>, g: Graph): (r: Result<(Graph, Frag)>)
    ensures r.Ok? ==> WellBuilt(g, r.value.0, r.value.1)
    decreases DotCount(l), 1, 0
  {
    if |l| == 0 then Ok(EmptyFrag(g))
    else
      LeftUnionWeight(l);
      Build(LeftUnion(l), g)
  }
}
