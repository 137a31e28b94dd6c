/** Thompson's simulation of the NFA (regexp.js:581-641): the set of states
    reachable after each prefix of the subject is kept in a queue, and
    `addedNodes`, an array indexed by node id, says which nodes the queue
    being filled already holds.

    The queues, `addedNodes` and `matches` are arrays the source mutates in
    place; here they are values passed in and returned. The arena's edge
    lists, ids and final flags are read-only during a search and are passed
    as values too. */
module Search {
  import opened Graph
  import Lang
  import opened Nfa
  import Thompson
  import ThompsonProof
  import ParserSpec
  import opened Ast

  // ---------------------------------------------------------------------------
  // What the queues should hold
  // ---------------------------------------------------------------------------

  /** The states reachable from `u` reading exactly `w`. */
  ghost function Front(g: Graph, u: nat, w: seq<char>): set<nat> {
    set v: nat | v < |g| && Reach(g, u, w, v)
  }

  /** The queue holds exactly the front of `w`. */
  ghost predicate AtFront(g: Graph, u: nat, q: seq<nat>, w: seq<char>) {
    forall v :: v in q <==> v in Front(g, u, w)
  }

  /** Every queued node is a numbered node of the arena. */
  ghost predicate Inside(g: Graph, ids: map<nat, nat>, q: seq<nat>) {
    forall j :: 0 <= j < |q| ==> q[j] < |g| && HasId(ids, q[j])
  }

  /** `node.id` is set and `addedNodes[node.id]` is filled. */
  predicate InAdded(ids: map<nat, nat>, added: map<nat, nat>, v: nat) {
    HasId(ids, v) && ids[v] in added
  }

  /** `addedNodes` and the queue it guards agree: under each id it holds the
      queue's node with that id, and the queue holds every node once. */
  ghost predicate Tracks(g: Graph, ids: map<nat, nat>, q: seq<nat>, added: map<nat, nat>) {
    && (forall k :: k in added ==> added[k] in q && HasId(ids, added[k]) && ids[added[k]] == k)
    && (forall j :: 0 <= j < |q| ==> q[j] < |g| && InAdded(ids, added, q[j]) && added[ids[q[j]]] == q[j])
    && (forall j, j' :: 0 <= j < j' < |q| ==> q[j] != q[j'])
  }

  /** Every ε-edge out of an added node that is not on `stack` leads to an
      added node: `addNode` has finished expanding it. */
  ghost predicate EpsDone(g: Graph, ids: map<nat, nat>, added: map<nat, nat>, stack: set<nat>) {
    forall v: nat, e :: v < |g| && InAdded(ids, added, v) && v !in stack && e in g[v] && e.input == Eps ==>
      InAdded(ids, added, e.target)
  }

  /** `goal` is closed under ε-edges. */
  ghost predicate EpsClosed(g: Graph, goal: set<nat>) {
    forall v, e :: v in goal && v < |g| && e in g[v] && e.input == Eps ==> e.target in goal
  }

  /** Every node in `addedNodes` belongs to `goal`. */
  ghost predicate Within(added: map<nat, nat>, goal: set<nat>) {
    forall k :: k in added ==> added[k] in goal
  }

  /** `addedNodes` only gains entries. */
  ghost predicate Grows(added0: map<nat, nat>, added: map<nat, nat>) {
    forall k :: k in added0 ==> k in added && added[k] == added0[k]
  }

  /** The ids `addedNodes` can still take. */
  ghost function Pending(g: Graph, added: map<nat, nat>): set<nat> {
    set k: nat | k <= |g| && k !in added
  }

  /** Facts about the numbered arena the search relies on. */
  ghost predicate Ready(g: Graph, ids: map<nat, nat>) {
    Linked(g) && Identified(g, ids)
  }

  // ---------------------------------------------------------------------------
  // addNode
  // ---------------------------------------------------------------------------

  /** `addNode` (regexp.js:581-593): unless `addedNodes` already holds it,
      record `u`, push it, and expand its ε-edges depth-first. The nodes it
      adds all lie in any ε-closed `goal` holding `u`; afterwards `u` is added
      and expanded, and the queue is the old one with new nodes pushed. */
  method AddNode(g: Graph, ids: map<nat, nat>, u: nat, q: seq<nat>, added: map<nat, nat>,
                 ghost goal: set<nat>, ghost stack: set<nat>)
    returns (q': seq<nat>, added': map<nat, nat>)
    requires Ready(g, ids) && u < |g| && HasId(ids, u)
    requires Tracks(g, ids, q, added) && EpsDone(g, ids, added, stack)
    requires Within(added, goal) && u in goal && EpsClosed(g, goal)
    ensures Tracks(g, ids, q', added') && EpsDone(g, ids, added', stack) && Within(added', goal)
    ensures |q| <= |q'| && q'[..|q|] == q
    ensures Grows(added, added') && InAdded(ids, added', u)
    ensures Pending(g, added') <= Pending(g, added)
    decreases Pending(g, added)
  {
    if ids[u] in added {
      return q, added;
    }
    ghost var bound := Pending(g, added) - {ids[u]};
    AddOne(g, ids, u, q, added, stack);
    added' := added[ids[u] := u];
    q' := q + [u];
    if Eps !in Keys(g[u]) {
      NoEpsEdges(g, ids, added', stack, u);
      return;
    }
    var targets := Targets(g[u], Eps);
    var j := 0;
    while j < |targets|
      invariant j <= |targets|
      invariant Tracks(g, ids, q', added') && EpsDone(g, ids, added', stack + {u}) && Within(added', goal)
      invariant |q| <= |q'| && q'[..|q|] == q
      invariant Grows(added, added') && InAdded(ids, added', u)
      invariant Pending(g, added') <= bound
      invariant forall k :: 0 <= k < j ==> InAdded(ids, added', targets[k])
    {
      TargetsSpec(g[u], Eps, targets[j]);
      ghost var q0, added0 := q', added';
      q', added' := AddNode(g, ids, targets[j], q', added', goal, stack + {u});
      PrefixOfPrefix(q', q0, q);
      StillAdded(ids, added0, added', targets, j);
      j := j + 1;
    }
    EpsTargetsDone(g, ids, added', stack, u, targets);
  }

  /** A prefix of a prefix is a prefix. */
  lemma PrefixOfPrefix(a: seq<nat>, b: seq<nat>, c: seq<nat>)
    requires |c| <= |b| <= |a| && a[..|b|] == b && b[..|c|] == c
    ensures a[..|c|] == c
  {
    assert a[..|c|] == a[..|b|][..|c|];
  }

  /** Recording `u` under its id and pushing it keeps the queue tracked and
      the expanded nodes expanded, with `u` on the stack. */
  lemma AddOne(g: Graph, ids: map<nat, nat>, u: nat, q: seq<nat>, added: map<nat, nat>, stack: set<nat>)
    requires Ready(g, ids) && u < |g| && HasId(ids, u) && ids[u] !in added
    requires Tracks(g, ids, q, added) && EpsDone(g, ids, added, stack)
    ensures Tracks(g, ids, q + [u], added[ids[u] := u])
    ensures EpsDone(g, ids, added[ids[u] := u], stack + {u})
    ensures Grows(added, added[ids[u] := u])
    ensures Pending(g, added[ids[u] := u]) == Pending(g, added) - {ids[u]}
  {
    var added' := added[ids[u] := u];
    var q': seq<nat> := q + [u];
    forall j | 0 <= j < |q'| ensures q'[j] < |g| && InAdded(ids, added', q'[j]) && added'[ids[q'[j]]] == q'[j] {
      if j < |q| {
        assert q'[j] == q[j];
      }
    }
    forall j, j' | 0 <= j < j' < |q'| ensures q'[j] != q'[j'] {
      if j' == |q| {
        assert q'[j] == q[j];
      }
    }
    forall v: nat, e | v < |g| && InAdded(ids, added', v) && v !in stack + {u} && e in g[v] && e.input == Eps
      ensures InAdded(ids, added', e.target)
    {
      assert ids[v] != ids[u];
      assert InAdded(ids, added, v);
    }
  }

  /** A node without ε-edges is expanded as soon as it is added. */
  lemma NoEpsEdges(g: Graph, ids: map<nat, nat>, added: map<nat, nat>, stack: set<nat>, u: nat)
    requires u < |g| && Eps !in Keys(g[u])
    requires EpsDone(g, ids, added, stack + {u})
    ensures EpsDone(g, ids, added, stack)
  {
    KeysSpec(g[u]);
  }

  /** Targets already added stay added while `addedNodes` grows. */
  lemma StillAdded(ids: map<nat, nat>, added0: map<nat, nat>, added: map<nat, nat>, targets: seq<nat>, j: nat)
    requires j < |targets| && Grows(added0, added)
    requires forall k :: 0 <= k < j ==> InAdded(ids, added0, targets[k])
    requires InAdded(ids, added, targets[j])
    ensures forall k :: 0 <= k < j + 1 ==> InAdded(ids, added, targets[k])
  {
  }

  /** Once every ε-target of `u` is added, `u` leaves the stack. */
  lemma EpsTargetsDone(g: Graph, ids: map<nat, nat>, added: map<nat, nat>, stack: set<nat>, u: nat, targets: seq<nat>)
    requires u < |g| && targets == Targets(g[u], Eps)
    requires EpsDone(g, ids, added, stack + {u})
    requires forall k :: 0 <= k < |targets| ==> InAdded(ids, added, targets[k])
    ensures EpsDone(g, ids, added, stack)
  {
    forall e | e in g[u] && e.input == Eps ensures InAdded(ids, added, e.target) {
      TargetsSpec(g[u], Eps, e.target);
    }
  }

  // ---------------------------------------------------------------------------
  // Following one character
  // ---------------------------------------------------------------------------

  /** Every edge labelled `c` out of `s` leads to an added node. */
  ghost predicate CharDone(g: Graph, ids: map<nat, nat>, added: map<nat, nat>, s: nat, c: char) {
    s < |g| && forall e :: e in g[s] && e.input == Char(c) ==> InAdded(ids, added, e.target)
  }

  /** The `forEach` over `q[j].transitions[str[i]]` (regexp.js:620-624): when
      `s` has edges labelled `c`, add each of their targets. */
  method StepNode(g: Graph, ids: map<nat, nat>, s: nat, c: char, q: seq<nat>, added: map<nat, nat>,
                  ghost goal: set<nat>)
    returns (q': seq<nat>, added': map<nat, nat>)
    requires Ready(g, ids) && s < |g| && HasId(ids, s)
    requires Tracks(g, ids, q, added) && EpsDone(g, ids, added, {}) && Within(added, goal) && EpsClosed(g, goal)
    requires forall e :: e in g[s] && e.input == Char(c) ==> e.target in goal
    ensures Tracks(g, ids, q', added') && EpsDone(g, ids, added', {}) && Within(added', goal)
    ensures Grows(added, added') && CharDone(g, ids, added', s, c)
  {
    q', added' := q, added;
    if Char(c) !in Keys(g[s]) {
      KeysSpec(g[s]);
      return;
    }
    var targets := Targets(g[s], Char(c));
    var j := 0;
    while j < |targets|
      invariant j <= |targets|
      invariant Tracks(g, ids, q', added') && EpsDone(g, ids, added', {}) && Within(added', goal)
      invariant Grows(added, added')
      invariant forall k :: 0 <= k < j ==> InAdded(ids, added', targets[k])
    {
      TargetsSpec(g[s], Char(c), targets[j]);
      ghost var added0 := added';
      q', added' := AddNode(g, ids, targets[j], q', added', goal, {});
      StillAdded(ids, added0, added', targets, j);
      j := j + 1;
    }
    forall e | e in g[s] && e.input == Char(c) ensures InAdded(ids, added', e.target) {
      TargetsSpec(g[s], Char(c), e.target);
    }
  }

  /** States already followed stay followed while `addedNodes` grows. */
  lemma StillDone(g: Graph, ids: map<nat, nat>, added0: map<nat, nat>, added: map<nat, nat>, q: seq<nat>, c: char, j: nat)
    requires j < |q| && Grows(added0, added)
    requires forall k :: 0 <= k < j ==> CharDone(g, ids, added0, q[k], c)
    requires CharDone(g, ids, added, q[j], c)
    ensures forall k :: 0 <= k < j + 1 ==> CharDone(g, ids, added, q[k], c)
  {
    forall k | 0 <= k < j + 1 ensures CharDone(g, ids, added, q[k], c) {
      if k < j {
        assert CharDone(g, ids, added0, q[k], c);
      }
    }
  }

  /** The inner loop of `searchNFA` (regexp.js:617-626): follow `c` from
      every state of `q`, filling `otherq`. */
  method Advance(g: Graph, ids: map<nat, nat>, q: seq<nat>, c: char, otherq: seq<nat>, added: map<nat, nat>,
                 ghost goal: set<nat>)
    returns (otherq': seq<nat>, added': map<nat, nat>)
    requires Ready(g, ids) && forall j :: 0 <= j < |q| ==> q[j] < |g| && HasId(ids, q[j])
    requires Tracks(g, ids, otherq, added) && EpsDone(g, ids, added, {}) && Within(added, goal) && EpsClosed(g, goal)
    requires forall j, e :: 0 <= j < |q| && e in g[q[j]] && e.input == Char(c) ==> e.target in goal
    ensures Tracks(g, ids, otherq', added') && EpsDone(g, ids, added', {}) && Within(added', goal)
    ensures forall j :: 0 <= j < |q| ==> CharDone(g, ids, added', q[j], c)
  {
    otherq', added' := otherq, added;
    var j := 0;
    while j < |q|
      invariant j <= |q|
      invariant Tracks(g, ids, otherq', added') && EpsDone(g, ids, added', {}) && Within(added', goal)
      invariant forall k :: 0 <= k < j ==> CharDone(g, ids, added', q[k], c)
    {
      ghost var added0 := added';
      otherq', added' := StepNode(g, ids, q[j], c, otherq', added', goal);
      StillDone(g, ids, added0, added', q, c, j);
      j := j + 1;
    }
  }

  // ---------------------------------------------------------------------------
  // The queue holds the front
  // ---------------------------------------------------------------------------

  /** Peeling the first letter off both sides of `[a] + x == w + [c]`. */
  lemma ConsSnoc(a: char, x: seq<char>, w: seq<char>, c: char)
    requires [a] + x == w + [c]
    ensures w == [] ==> a == c && x == []
    ensures w != [] ==> a == w[0] && x == w[1..] + [c]
  {
    assert |x| == |w|;
    if w != [] {
      assert ([a] + x)[0] == (w + [c])[0];
      forall k | 0 <= k < |x| ensures x[k] == (w[1..] + [c])[k] {
        assert ([a] + x)[k + 1] == (w + [c])[k + 1];
      }
    } else {
      assert ([a] + x)[0] == (w + [c])[0];
    }
  }

  /** The first step of a non-empty run. */
  lemma RunHead(g: Graph, u: nat, run: seq<Step>, v: nat)
    requires IsRun(g, u, run, v) && run != []
    ensures u < |g| && Edge(run[0].input, run[0].dst) in g[u] && IsRun(g, run[0].dst, run[1..], v)
    ensures Word(run) == LabelWord(run[0].input) + Word(run[1..])
  {
  }

  /** A run reading `w + [c]` ends with ε-edges after the edge that reads `c`. */
  lemma {:induction false} ReachLastChar(g: Graph, u: nat, run: seq<Step>, v: nat, w: seq<char>, c: char)
    returns (s: nat, m: nat)
    requires IsRun(g, u, run, v) && Word(run) == w + [c]
    ensures Reach(g, u, w, s) && s < |g| && Edge(Char(c), m) in g[s] && Reach(g, m, [], v)
    decreases |run|
  {
    assert run != [];
    RunHead(g, u, run, v);
    var l, x, rest := run[0].input, run[0].dst, run[1..];
    ReachEdge(g, u, l, x);
    if l.Eps? {
      assert Word(rest) == w + [c] by {
        assert LabelWord(l) == [];
      }
      s, m := ReachLastChar(g, x, rest, v, w, c);
      ReachTrans(g, u, [], x, w, s);
      assert [] + w == w;
    } else {
      ConsSnoc(l.c, Word(rest), w, c);
      if w == [] {
        s, m := u, x;
        ReachRefl(g, u);
        assert Reach(g, x, [], v) by {
          assert IsRun(g, x, rest, v) && Word(rest) == [];
        }
      } else {
        s, m := ReachLastChar(g, x, rest, v, w[1..], c);
        ReachTrans(g, u, [l.c], x, w[1..], s);
        assert [l.c] + w[1..] == w;
      }
    }
  }

  /** A front is closed under ε-edges. */
  lemma FrontEpsClosed(g: Graph, u: nat, w: seq<char>)
    requires Linked(g)
    ensures EpsClosed(g, Front(g, u, w))
  {
    forall v, e | v in Front(g, u, w) && v < |g| && e in g[v] && e.input == Eps
      ensures e.target in Front(g, u, w)
    {
      ReachEdge(g, v, Eps, e.target);
      ReachTrans(g, u, w, v, [], e.target);
      assert w + [] == w;
    }
  }

  /** An edge reading `c` leads from the front of `w` into the front of
      `w + [c]`. */
  lemma FrontCharStep(g: Graph, u: nat, w: seq<char>, c: char, q: seq<nat>)
    requires Linked(g) && AtFront(g, u, q, w)
    ensures forall j, e :: 0 <= j < |q| && q[j] < |g| && e in g[q[j]] && e.input == Char(c) ==>
      e.target in Front(g, u, w + [c])
  {
    forall j, e | 0 <= j < |q| && q[j] < |g| && e in g[q[j]] && e.input == Char(c) ensures e.target in Front(g, u, w + [c]) {
      assert q[j] in Front(g, u, w);
      ReachEdge(g, q[j], Char(c), e.target);
      ReachTrans(g, u, w, q[j], [c], e.target);
    }
  }

  /** ε-runs from an added node end in added nodes once nothing is left
      to expand. */
  lemma {:induction false} EpsDoneReach(g: Graph, ids: map<nat, nat>, added: map<nat, nat>, m: nat, run: seq<Step>, v: nat)
    requires Linked(g) && m < |g| && InAdded(ids, added, m) && EpsDone(g, ids, added, {})
    requires IsRun(g, m, run, v) && Word(run) == []
    ensures v < |g| && InAdded(ids, added, v)
    decreases |run|
  {
    if run != [] {
      var l, x := run[0].input, run[0].dst;
      assert Word(run) == LabelWord(l) + Word(run[1..]);
      assert Edge(l, x) in g[m];
      EpsDoneReach(g, ids, added, x, run[1..], v);
    }
  }

  /** With distinct ids, a node whose id is in `addedNodes` is in the queue. */
  lemma AddedInQueue(g: Graph, ids: map<nat, nat>, q: seq<nat>, added: map<nat, nat>, v: nat)
    requires Identified(g, ids) && Tracks(g, ids, q, added) && InAdded(ids, added, v)
    ensures v in q
  {
    var k := ids[v];
    assert HasId(ids, added[k]) && ids[added[k]] == ids[v];
  }

  /** Once the queue is filled, it holds exactly the ε-closure of the
      `c`-successors of the previous front: the front of `w + [c]`. */
  lemma FrontNext(g: Graph, ids: map<nat, nat>, u: nat, w: seq<char>, c: char, q: seq<nat>,
                  otherq: seq<nat>, added: map<nat, nat>)
    requires Ready(g, ids) && AtFront(g, u, q, w)
    requires Tracks(g, ids, otherq, added) && EpsDone(g, ids, added, {}) && Within(added, Front(g, u, w + [c]))
    requires forall j :: 0 <= j < |q| ==> CharDone(g, ids, added, q[j], c)
    ensures AtFront(g, u, otherq, w + [c])
  {
    forall v ensures v in otherq <==> v in Front(g, u, w + [c]) {
      if v in otherq {
        var j :| 0 <= j < |otherq| && otherq[j] == v;
        assert added[ids[v]] == v;
      }
      if v in Front(g, u, w + [c]) {
        var run :| IsRun(g, u, run, v) && Word(run) == w + [c];
        var s, m := ReachLastChar(g, u, run, v, w, c);
        assert s in q;
        var j :| 0 <= j < |q| && q[j] == s;
        assert CharDone(g, ids, added, q[j], c);
        var run' :| IsRun(g, m, run', v) && Word(run') == [];
        EpsDoneReach(g, ids, added, m, run', v);
        AddedInQueue(g, ids, otherq, added, v);
      }
    }
  }

  /** After `addNode(nfa, q, addedNodes)` the queue holds the front of the
      empty word. */
  lemma FrontStart(g: Graph, ids: map<nat, nat>, u: nat, q: seq<nat>, added: map<nat, nat>)
    requires Ready(g, ids) && u < |g| && InAdded(ids, added, u)
    requires Tracks(g, ids, q, added) && EpsDone(g, ids, added, {}) && Within(added, Front(g, u, []))
    ensures AtFront(g, u, q, [])
  {
    forall v ensures v in q <==> v in Front(g, u, []) {
      if v in q {
        var j :| 0 <= j < |q| && q[j] == v;
        assert added[ids[v]] == v;
      }
      if v in Front(g, u, []) {
        var run :| IsRun(g, u, run, v) && Word(run) == [];
        EpsDoneReach(g, ids, added, u, run, v);
        AddedInQueue(g, ids, q, added, v);
      }
    }
  }

  // ---------------------------------------------------------------------------
  // addMatches
  // ---------------------------------------------------------------------------

  /** How many entries of `addedNodes` below `n` hold a final node. */
  function Hits(added: map<nat, nat>, finals: set<nat>, n: nat): nat {
    if n == 0 then 0
    else Hits(added, finals, n - 1) + (if n - 1 in added && added[n - 1] in finals then 1 else 0)
  }

  /** `addMatches` (regexp.js:595-601): visit `addedNodes` in index order
      and push `i` once for each final node. */
  method AddMatches(matches: seq<int>, added: map<nat, nat>, i: int, finals: set<nat>, len: nat)
    returns (matches': seq<int>)
    requires forall k :: k in added ==> k < len
    ensures matches' == matches + seq(Hits(added, finals, len), _ => i)
  {
    matches' := matches;
    var k := 0;
    while k < len
      invariant k <= len
      invariant matches' == matches + seq(Hits(added, finals, k), _ => i)
    {
      if k in added && added[k] in finals {
        matches' := matches' + [i];
      }
      k := k + 1;
    }
  }

  /** With one final node `x`, `addMatches` pushes `i` once if the queue
      holds `x` and not at all otherwise. */
  lemma {:induction false} HitsSingle(g: Graph, ids: map<nat, nat>, q: seq<nat>, added: map<nat, nat>, x: nat, n: nat)
    requires Tracks(g, ids, q, added) && HasId(ids, x)
    ensures Hits(added, {x}, n) == if ids[x] < n && x in q then 1 else 0
  {
    if n > 0 {
      HitsSingle(g, ids, q, added, x, n - 1);
      var k := n - 1;
      if k in added && added[k] == x {
        assert ids[x] == k;
      }
      if x in q && ids[x] == k {
        var j :| 0 <= j < |q| && q[j] == x;
      }
    }
  }

  // ---------------------------------------------------------------------------
  // searchNFA and search
  // ---------------------------------------------------------------------------

  /** The positions `searchNFA` should report for the first `k` prefixes of
      `str`: `p` (from -1) when the exit is reachable reading `str[..p + 1]`. */
  ghost function Ends(g: Graph, entry: nat, exit: nat, str: seq<char>, k: nat): seq<int>
    requires k <= |str| + 1
  {
    if k == 0 then []
    else Ends(g, entry, exit, str, k - 1) + (if Reach(g, entry, str[..k - 1], exit) then [k - 2] else [])
  }

  /** `Ends` lists, in increasing order, exactly the positions whose prefix
      leads to the exit. */
  lemma {:induction false} EndsSpec(g: Graph, entry: nat, exit: nat, str: seq<char>, k: nat)
    requires k <= |str| + 1
    ensures forall p :: p in Ends(g, entry, exit, str, k) <==> -1 <= p <= k - 2 && Reach(g, entry, str[..p + 1], exit)
    ensures forall a, b :: 0 <= a < b < |Ends(g, entry, exit, str, k)| ==>
      Ends(g, entry, exit, str, k)[a] < Ends(g, entry, exit, str, k)[b]
  {
    if k > 0 {
      EndsSpec(g, entry, exit, str, k - 1);
      var e, e' := Ends(g, entry, exit, str, k - 1), Ends(g, entry, exit, str, k);
      forall a, b | 0 <= a < b < |e'| ensures e'[a] < e'[b] {
        if b >= |e| {
          assert e'[a] == e[a] && e[a] in e;
        }
      }
    }
  }

  /** One round of `searchNFA`'s outer loop (regexp.js:616-625): empty
      `addedNodes`, fill `otherq` by following `str[i]` from the front `q` of
      `str[..i]`, and report `i` if the exit was reached. */
  method Round(g: Graph, ids: map<nat, nat>, finals: set<nat>, q: seq<nat>, otherq: seq<nat>,
               matches: seq<int>, str: seq<char>, i: nat, ghost entry: nat, ghost exit: nat)
    returns (otherq': seq<nat>, added': map<nat, nat>, matches': seq<int>)
    requires Ready(g, ids) && exit < |g| && HasId(ids, exit) && finals == {exit}
    requires i < |str| && otherq == [] && Inside(g, ids, q) && AtFront(g, entry, q, str[..i])
    ensures Inside(g, ids, otherq')
    ensures AtFront(g, entry, otherq', str[..i + 1])
    ensures matches' == matches + (if Reach(g, entry, str[..i + 1], exit) then [i] else [])
  {
    var c := str[i];
    ghost var w := str[..i];
    SliceStep(str, i);
    added' := map[];
    Nothing(g, ids, Front(g, entry, w + [c]));
    FrontEpsClosed(g, entry, w + [c]);
    FrontCharStep(g, entry, w, c, q);
    otherq', added' := Advance(g, ids, q, c, otherq, added', Front(g, entry, w + [c]));
    FrontNext(g, ids, entry, w, c, q, otherq', added');
    AddedBound(g, ids, otherq', added');
    matches' := AddMatches(matches, added', i, finals, |g| + 1);
    Reported(g, ids, otherq', added', entry, exit, w + [c], matches, matches', i);
  }

  /** The start of `searchNFA` (regexp.js:613-614): add the start state to
      `q1` and report -1 if the exit is reached without reading anything. */
  method Start(g: Graph, ids: map<nat, nat>, finals: set<nat>, entry: nat, ghost exit: nat)
    returns (q: seq<nat>, added: map<nat, nat>, matches: seq<int>)
    requires Ready(g, ids) && entry < |g| && HasId(ids, entry) && exit < |g| && HasId(ids, exit)
    requires finals == {exit}
    ensures Inside(g, ids, q) && AtFront(g, entry, q, [])
    ensures matches == if Reach(g, entry, [], exit) then [-1] else []
  {
    q, added := StartQueue(g, ids, entry);
    AddedBound(g, ids, q, added);
    matches := AddMatches([], added, -1, finals, |g| + 1);
    Reported(g, ids, q, added, entry, exit, [], [], matches, -1);
  }

  /** Line 613: `addNode(nfa[0], q1, addedNodes)` on an empty queue leaves
      in it exactly the states reachable from the start by ε-edges. */
  method StartQueue(g: Graph, ids: map<nat, nat>, entry: nat) returns (q: seq<nat>, added: map<nat, nat>)
    requires Ready(g, ids) && entry < |g| && HasId(ids, entry)
    ensures Tracks(g, ids, q, added) && AtFront(g, entry, q, [])
  {
    StartReady(g, ids, entry);
    q, added := AddNode(g, ids, entry, [], map[], Front(g, entry, []), {});
    FrontStart(g, ids, entry, q, added);
  }

  /** What `addMatches` pushes once the queue holds the front of `w`: `i`
      if the exit is reachable reading `w`, nothing otherwise. */
  lemma Reported(g: Graph, ids: map<nat, nat>, q: seq<nat>, added: map<nat, nat>, entry: nat, exit: nat,
                 w: seq<char>, matches: seq<int>, matches': seq<int>, i: int)
    requires Identified(g, ids) && exit < |g| && HasId(ids, exit)
    requires Tracks(g, ids, q, added) && AtFront(g, entry, q, w)
    requires matches' == matches + seq(Hits(added, {exit}, |g| + 1), _ => i)
    ensures matches' == matches + if Reach(g, entry, w, exit) then [i] else []
    ensures Inside(g, ids, q)
  {
    HitsSingle(g, ids, q, added, exit, |g| + 1);
    assert exit in q <==> exit in Front(g, entry, w);
    Pushed(matches, i, Hits(added, {exit}, |g| + 1));
  }

  /** What `addNode(nfa, q1, addedNodes)` needs: the start state lies in the
      ε-closed front of the empty word, and the queue and `addedNodes` start
      out empty. */
  lemma StartReady(g: Graph, ids: map<nat, nat>, entry: nat)
    requires Linked(g) && entry < |g|
    ensures Tracks(g, ids, [], map[]) && EpsDone(g, ids, map[], {}) && Within(map[], Front(g, entry, []))
    ensures entry in Front(g, entry, []) && EpsClosed(g, Front(g, entry, []))
  {
    FrontEpsClosed(g, entry, []);
    ReachRefl(g, entry);
    Nothing(g, ids, Front(g, entry, []));
  }

  /** An empty queue and an empty `addedNodes` agree, and nothing in them
      is left to expand. */
  lemma Nothing(g: Graph, ids: map<nat, nat>, goal: set<nat>)
    ensures Tracks(g, ids, [], map[]) && EpsDone(g, ids, map[], {}) && Within(map[], goal)
  {
  }

  /** `addedNodes` is indexed by ids, which are at most the number of nodes. */
  lemma AddedBound(g: Graph, ids: map<nat, nat>, q: seq<nat>, added: map<nat, nat>)
    requires Identified(g, ids) && Tracks(g, ids, q, added)
    ensures forall k :: k in added ==> k < |g| + 1
  {
    forall k | k in added ensures k < |g| + 1 {
      assert HasId(ids, added[k]) && ids[added[k]] == k;
    }
  }

  /** The nodes a queue holds. */
  ghost function Members(q: seq<nat>): set<nat> {
    set x | x in q
  }

  lemma {:induction false} DistinctMembers(q: seq<nat>)
    requires forall j, j' :: 0 <= j < j' < |q| ==> q[j] != q[j']
    ensures |Members(q)| == |q|
    decreases |q|
  {
    if q != [] {
      var init, last := q[..|q| - 1], q[|q| - 1];
      assert Members(q) == Members(init) + {last} by {
        assert q == init + [last];
      }
      assert last !in Members(init) by {
        forall j | 0 <= j < |init| ensures init[j] != last {
          assert init[j] == q[j];
        }
      }
      DistinctMembers(init);
    }
  }

  /** Every node enters a queue at most once per step, so a queue never
      holds more entries than the arena has nodes (regexp.js:581-593). */
  lemma QueueBound(g: Graph, ids: map<nat, nat>, q: seq<nat>, added: map<nat, nat>)
    requires Tracks(g, ids, q, added)
    ensures |q| <= |g|
  {
    DistinctMembers(q);
    BelowSize(|g|);
    SubsetSize(Members(q), Below(|g|));
  }

  /** Pushing `i` at most once. */
  lemma Pushed(matches: seq<int>, i: int, n: nat)
    requires n <= 1
    ensures matches + seq(n, _ => i) == matches + if n == 1 then [i] else []
  {
  }

  lemma SliceStep(s: seq<char>, i: nat)
    requires i < |s|
    ensures s[..i] + [s[i]] == s[..i + 1]
  {
  }

  lemma EndsFirst(g: Graph, entry: nat, exit: nat, str: seq<char>)
    ensures Ends(g, entry, exit, str, 1) == if Reach(g, entry, [], exit) then [-1] else []
    ensures str[..0] == []
  {
  }

  /** `searchNFA` (regexp.js:607-632): fill the first queue from the start
      state, then for each character fill the other queue, report the
      position if the exit was reached, empty the old queue and swap. */
  method SearchNfa(str: seq<char>, g: Graph, ids: map<nat, nat>, finals: set<nat>, entry: nat, ghost exit: nat)
    returns (matches: seq<int>)
    requires Ready(g, ids) && entry < |g| && HasId(ids, entry) && exit < |g| && HasId(ids, exit)
    requires finals == {exit}
    ensures matches == Positions(g, entry, exit, str)
  {
    // `q` is the array `q` currently names, `spare` the other of `q1`, `q2`.
    var q: seq<nat>, spare: seq<nat> := [], [];
    var added: map<nat, nat>;
    q, added, matches := Start(g, ids, finals, entry, exit);
    EndsFirst(g, entry, exit, str);
    var i := 0;
    while i < |str|
      invariant i <= |str| && spare == []
      invariant Inside(g, ids, q) && AtFront(g, entry, q, str[..i])
      invariant matches == Ends(g, entry, exit, str, i + 1)
    {
      var otherq := spare;
      otherq, added, matches := Round(g, ids, finals, q, otherq, matches, str, i, entry, exit);
      // `q.splice(0); q = otherq;`
      q, spare := otherq, [];
      i := i + 1;
    }
    assert str[..|str|] == str;
  }

  /** `search` (regexp.js:634-641): run `searchNFA` from the NFA's entry. */
  method Search(str: seq<char>, a: Arena, f: Thompson.Frag) returns (matches: seq<int>)
    requires Ready(a.nodes, a.ids) && f.entry < |a.nodes| && f.exit < |a.nodes|
    requires HasId(a.ids, f.entry) && HasId(a.ids, f.exit) && a.finalNodes == {f.exit}
    ensures matches == Positions(a.nodes, f.entry, f.exit, str)
  {
    matches := SearchNfa(str, a.nodes, a.ids, a.finalNodes, f.entry, f.exit);
  }

  // ---------------------------------------------------------------------------
  // What a search reports
  // ---------------------------------------------------------------------------

  /** The positions a whole search of `str` should report. */
  ghost function Positions(g: Graph, entry: nat, exit: nat, str: seq<char>): seq<int> {
    Ends(g, entry, exit, str, |str| + 1)
  }

  /** On an NFA whose fragment accepts the words of `r`, the positions
      reported are, in increasing order, exactly the `p` from -1 on for which
      `r` matches the prefix `str[..p + 1]`; no such prefix holds a `.`. */
  lemma EndsMatch(g: Graph, f: Thompson.Frag, r: Lang.Re, str: seq<char>)
    requires ThompsonProof.Accepts(g, f, r)
    ensures forall p :: p in Positions(g, f.entry, f.exit, str) <==> -1 <= p < |str| && Lang.Matches(r, str[..p + 1])
    ensures forall a, b :: 0 <= a < b < |Positions(g, f.entry, f.exit, str)| ==>
      Positions(g, f.entry, f.exit, str)[a] < Positions(g, f.entry, f.exit, str)[b]
    ensures forall p :: p in Positions(g, f.entry, f.exit, str) ==> '.' !in str[..p + 1]
  {
    EndsSpec(g, f.entry, f.exit, str, |str| + 1);
    forall p | p in Positions(g, f.entry, f.exit, str) ensures '.' !in str[..p + 1] {
      Lang.MatchesHasNoDot(r, str[..p + 1]);
    }
  }

  /** How the library is driven (test.js:3-6): build a `RegExpNFA` for the
      pattern, call `toNFA`, and `search` the subject with the result. The
      positions reported are those where a match of the pattern's regular
      expression ends; a pattern that does not compile throws its error. */
  method RunSearch(expression: seq<char>, str: seq<char>) returns (r: Result<seq<int>>)
    ensures NfaOf(expression).Err? ==> r == Err(NfaOf(expression).error)
    ensures NfaOf(expression).Ok? ==>
      && ParserSpec.Parse(expression).value.Tree?
      && Lang.ToRe(ParserSpec.Parse(expression).value.node).Ok?
      && r.Ok?
      && (forall p :: p in r.value <==>
            -1 <= p < |str| && Lang.Matches(Lang.ToRe(ParserSpec.Parse(expression).value.node).value, str[..p + 1]))
      && (forall a, b :: 0 <= a < b < |r.value| ==> r.value[a] < r.value[b])
  {
    var generator := new RegExpNfa(expression);
    var nfa := generator.ToNfa();
    if nfa.Err? {
      return Err(nfa.error);
    }
    NfaOfCorrect(expression);
    var matches := Search(str, generator.arena, nfa.value);
    EndsMatch(generator.arena.nodes, nfa.value, Lang.ToRe(ParserSpec.Parse(expression).value.node).value, str);
    r := Ok(matches);
  }
}
