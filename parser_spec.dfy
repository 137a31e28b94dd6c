/** The recursive-descent grammar of `RegExpParser` (regexp.js:260-487), one
    function per production. Each takes the pattern `s` and the cursor `i` on
    entry and returns the production's outcome with the cursor it leaves. The
    class `Parser.RegExpParser` runs the same productions on its `index` field
    and is proved to agree with these functions. */
module ParserSpec {
  import opened Ast

  /** What a production returns: an AST node, JavaScript's `null`, or the
      `RangeError` thrown when the recursion of `charRangesOrSingles` exhausts
      the stack (see `ParseCharRangesOrSingles`). */
  datatype Parsed = Tree(node: Node) | Null | StackOverflow

  datatype Option<T> = None | Some(value: T)

  /** An outcome together with the cursor the production leaves behind. */
  datatype At<T> = At(value: T, index: nat)

  /** The characters `singleChar` refuses (regexp.js:467). */
  const Disallowed: seq<char> := "\\()[]|^$"

  /** `peek()`: the character under the cursor, or `undefined` past the end. */
  function Peek(s: seq<char>, i: nat): Sym {
    if i < |s| then Chr(s[i]) else Phantom
  }

  /** `nextIs(ch)`. */
  predicate NextIs(s: seq<char>, i: nat, ch: char) {
    i < |s| && s[i] == ch
  }

  function QuantOf(c: char): Quant
    requires c in "*+?"
  {
    if c == '*' then Star else if c == '+' then Plus else Opt
  }

  // ---------------------------------------------------------------------------
  // Leaf productions
  // ---------------------------------------------------------------------------

  /** `singleChar` (regexp.js:465-473). It never checks for the end of the
      pattern: there `peek()` is `undefined`, which is not among the refused
      characters, so a phantom character is consumed. */
  function ParseSingleChar(s: seq<char>, i: nat): (r: At<Parsed>)
    ensures r.value.Null? ==> r.index == i
    ensures r.value.Tree? ==> r.index == i + 1
    ensures r.value.Tree? <==> !(i < |s| && s[i] in Disallowed)
    ensures r.value.Tree? && i < |s| ==> r.value.node == Single(Chr(s[i]))
    ensures r.value.Tree? && i >= |s| ==> r.value.node == Single(Phantom)
    ensures !r.value.StackOverflow?
  {
    if i < |s| && s[i] in Disallowed then At(Null, i)
    else At(Tree(Single(Peek(s, i))), i + 1)
  }

  /** `singleEscapedChar` (regexp.js:474-486). */
  function ParseSingleEscapedChar(s: seq<char>, i: nat): (r: At<Parsed>)
    ensures r.value.Null? ==> r.index == i
    ensures r.value.Tree? <==> NextIs(s, i, '\\') && i + 1 < |s|
    ensures r.value.Tree? ==> r.index == i + 2 && r.value.node == Escaped(s[i + 1])
    ensures !r.value.StackOverflow?
  {
    if !NextIs(s, i, '\\') then At(Null, i)
    else if i + 1 >= |s| then At(Null, i)
    else At(Tree(Escaped(s[i + 1])), i + 2)
  }

  /** `charRange` (regexp.js:447-464). */
  function ParseCharRange(s: seq<char>, i: nat): (r: At<Parsed>)
    ensures r.value.Null? ==> r.index == i
    ensures r.value.Tree? <==>
      && i + 1 < |s| && s[i] !in Disallowed && s[i + 1] == '-'
      && !(i + 2 < |s| && s[i + 2] in Disallowed)
    ensures r.value.Tree? ==> r.index == i + 3 && r.value.node == CharRange(Chr(s[i]), Peek(s, i + 2))
    ensures !r.value.StackOverflow?
  {
    var c1 := ParseSingleChar(s, i);
    if c1.value.Null? then At(Null, i)
    else if !NextIs(s, c1.index, '-') then At(Null, i)
    else
      var c2 := ParseSingleChar(s, c1.index + 1);
      if c2.value.Null? then At(Null, i)
      else At(Tree(CharRange(c1.value.node.ch, c2.value.node.ch)), c2.index)
  }

  /** One item of a class: a range, an escaped character or a single
      character, tried in that order (regexp.js:430-440). */
  function ClassItem(s: seq<char>, i: nat): (r: At<Parsed>)
    ensures r.value.Null? ==> r.index == i
    ensures r.value.Tree? ==> i < r.index <= (if i < |s| then |s| + 1 else i + 1)
    ensures !r.value.StackOverflow?
  {
    var range := ParseCharRange(s, i);
    if range.value.Tree? then range
    else
      var escaped := ParseSingleEscapedChar(s, range.index);
      if escaped.value.Tree? then escaped
      else
        var single := ParseSingleChar(s, escaped.index);
        if single.value.Tree? then single else At(Null, i)
  }

  /** At or past the end of the pattern a class item always parses: it is a
      phantom character, and the cursor moves one further past the end. This
      is why `charRangesOrSingles` never returns there. */
  lemma ClassItemPastEnd(s: seq<char>, i: nat)
    requires i >= |s|
    ensures ClassItem(s, i) == At(Tree(Single(Phantom)), i + 1)
  {
  }

  /** `charRangesOrSingles` (regexp.js:428-446). In the source, a call at or
      past the end of the pattern parses a phantom item (`ClassItemPastEnd`)
      and calls itself one position further on, without end, until the stack
      overflows and a `RangeError` is thrown; the model returns
      `StackOverflow` there instead of recursing. */
  function ParseCharRangesOrSingles(s: seq<char>, i: nat): (r: At<Parsed>)
    ensures r.value.Null? ==> r.index == i
    ensures r.value.Tree? ==> i < r.index <= |s|
    ensures r.value.Null? || r.value.Tree? ==> i < |s|
    decreases |s| - i
  {
    if i >= |s| then At(StackOverflow, i)
    else
      var item := ClassItem(s, i);
      if item.value.Null? then At(Null, i)
      else
        var rest := ParseCharRangesOrSingles(s, item.index);
        match rest.value
        case Tree(n2) => At(Tree(CharList(item.value.node, n2)), rest.index)
        case Null => At(item.value, rest.index)
        case StackOverflow => rest
  }

  /** `charClass` (regexp.js:410-427). */
  function ParseCharClass(s: seq<char>, i: nat): (r: At<Parsed>)
    ensures r.value.Null? ==> r.index == i
    ensures r.value.Tree? ==> i < r.index <= |s|
  {
    var negated := NextIs(s, i, '^');
    var j := if negated then i + 1 else i;
    var r := ParseCharRangesOrSingles(s, j);
    match r.value
    case Null => At(Null, i)
    case StackOverflow => r
    case Tree(n) => At(Tree(if negated then Negation(n) else n), r.index)
  }

  /** `regexpOp` (regexp.js:339-368): a run of `*`, `+` and `?`. */
  function ParseRegexpOp(s: seq<char>, i: nat): (r: At<Option<Ops>>)
    ensures r.value.None? <==> !(i < |s| && s[i] in "*+?")
    ensures r.value.None? ==> r.index == i
    ensures r.value.Some? ==> i < r.index <= |s| && r.value.value.op == QuantOf(s[i])
    ensures forall k :: i <= k < r.index ==> s[k] in "*+?"
    ensures r.index >= |s| || s[r.index] !in "*+?"
    ensures r.value.Some? ==>
      && |OpList(r.value.value)| == r.index - i
      && forall k :: 0 <= k < r.index - i ==> OpList(r.value.value)[k] == QuantOf(s[i + k])
    decreases |s| - i
  {
    if i < |s| && s[i] in "*+?" then
      var rest := ParseRegexpOp(s, i + 1);
      match rest.value
      case None => At(Some(OpNode(QuantOf(s[i]))), rest.index)
      case Some(ops) =>
        OpListPrepend(s, i, rest.index, ops);
        At(Some(SequentialOps(QuantOf(s[i]), ops)), rest.index)
    else At(None, i)
  }

  /** One more operator in front of a run read from `i + 1` lists the
      operators read from `i`. */
  lemma OpListPrepend(s: seq<char>, i: nat, j: nat, ops: Ops)
    requires i < j <= |s| && |OpList(ops)| == j - (i + 1)
    requires forall k :: i <= k < j ==> s[k] in "*+?"
    requires forall k :: 0 <= k < j - (i + 1) ==> OpList(ops)[k] == QuantOf(s[i + 1 + k])
    ensures |OpList(SequentialOps(QuantOf(s[i]), ops))| == j - i
      && forall k :: 0 <= k < j - i ==> OpList(SequentialOps(QuantOf(s[i]), ops))[k] == QuantOf(s[i + k])
  {
    var l := OpList(SequentialOps(QuantOf(s[i]), ops));
    assert l == [QuantOf(s[i])] + OpList(ops);
    forall k | 0 <= k < j - i
      ensures l[k] == QuantOf(s[i + k])
    {
      if k > 0 {
        assert l[k] == OpList(ops)[k - 1];
      }
    }
  }

  // ---------------------------------------------------------------------------
  // The mutually recursive productions
  // ---------------------------------------------------------------------------

  /** `regexpBasic` (regexp.js:369-409). It is the one production that can
      return `null` with the cursor moved: for `[]` and `()` the bracket check
      succeeds after the inner production failed, and the cursor is left
      after the closing bracket (its caller `regexpNoConcat` restores it). */
  function ParseRegexpBasic(s: seq<char>, i: nat): (r: At<Parsed>)
    requires i <= |s|
    ensures r.value.Null? ==> r.index == i || (r.index == i + 2 && i + 1 < |s| && s[i..i + 2] in {"[]", "()"})
    ensures r.value.Tree? ==> i < r.index <= |s| + 1
    ensures r.value.Tree? && i < |s| ==> r.index <= |s|
    decreases |s| - i, 0
  {
    if NextIs(s, i, '[') then
      var c := ParseCharClass(s, i + 1);
      if c.value.StackOverflow? then c
      else if !NextIs(s, c.index, ']') then At(Null, i)
      else
        assert c.value.Null? ==> s[i..i + 2] == "[]";
        At(c.value, c.index + 1)
    else if NextIs(s, i, '(') then
      var r := ParseRegexp(s, i + 1);
      if r.value.StackOverflow? then r
      else if !NextIs(s, r.index, ')') then At(Null, i)
      else
        assert r.value.Null? ==> s[i..i + 2] == "()";
        At(r.value, r.index + 1)
    else
      var escaped := ParseSingleEscapedChar(s, i);
      if escaped.value.Tree? then escaped
      else
        var single := ParseSingleChar(s, escaped.index);
        if single.value.Tree? then single else At(Null, i)
  }

  /** `regexpNoConcat` (regexp.js:323-338): an atom and its quantifiers. */
  function ParseRegexpNoConcat(s: seq<char>, i: nat): (r: At<Parsed>)
    requires i <= |s|
    ensures r.value.Null? ==> r.index == i
    ensures r.value.Tree? ==> i < r.index <= |s| + 1
    ensures r.value.Tree? && i < |s| ==> r.index <= |s|
    decreases |s| - i, 1
  {
    var basic := ParseRegexpBasic(s, i);
    match basic.value
    case Null => At(Null, i)
    case StackOverflow => basic
    case Tree(n) =>
      var ops := ParseRegexpOp(s, basic.index);
      match ops.value
      case None => At(Tree(n), ops.index)
      case Some(o) => At(Tree(ApplyOps(n, o)), ops.index)
  }

  /** `regexpNoUnion` (regexp.js:301-322): a concatenation. An empty branch
      (at the end of the pattern or before `|`) is an `EmptyNode`. */
  function ParseRegexpNoUnion(s: seq<char>, i: nat): (r: At<Parsed>)
    requires i <= |s|
    ensures r.value.Null? ==> r.index == i
    ensures r.value.Tree? ==> i <= r.index <= |s| + 1
    decreases |s| - i, 2
  {
    var first := ParseRegexpNoConcat(s, i);
    match first.value
    case StackOverflow => first
    case Null =>
      if first.index >= |s| || NextIs(s, first.index, '|') then At(Tree(Empty), first.index)
      else At(Null, i)
    case Tree(n) =>
      if first.index < |s| then
        var rest := ParseRegexpNoUnion(s, first.index);
        match rest.value
        case StackOverflow => rest
        case Null => At(Tree(n), rest.index)
        case Tree(n2) =>
          if n2 == Empty then At(Tree(n), rest.index)
          else At(Tree(Sequence(n, n2)), rest.index)
      else At(Tree(n), first.index)
  }

  /** `regexp` (regexp.js:277-300): an alternation, nested to the right. */
  function ParseRegexp(s: seq<char>, i: nat): (r: At<Parsed>)
    requires i <= |s|
    ensures r.value.Null? ==> r.index == i
    ensures r.value.Tree? ==> i <= r.index <= |s| + 1
    decreases |s| - i, 3
  {
    var first := ParseRegexpNoUnion(s, i);
    match first.value
    case StackOverflow => first
    case Null => At(Null, i)
    case Tree(n) =>
      if NextIs(s, first.index, '|') then
        var rest := ParseRegexp(s, first.index + 1);
        match rest.value
        case StackOverflow => rest
        case Null => At(Null, i)
        case Tree(n2) => At(Tree(Union(n, n2)), rest.index)
      else At(Tree(n), first.index)
  }

  /** `parse` (regexp.js:273-276): the whole pattern from position 0. */
  function Parse(s: seq<char>): At<Parsed> {
    ParseRegexp(s, 0)
  }

  // ---------------------------------------------------------------------------
  // Where parsing stops
  // ---------------------------------------------------------------------------

  /** A concatenation that stops inside the pattern stops where no atom
      starts. */
  lemma {:induction false} NoUnionStopsAtNonAtom(s: seq<char>, i: nat)
    requires i <= |s|
    requires ParseRegexpNoUnion(s, i).value.Tree?
    requires ParseRegexpNoUnion(s, i).index < |s|
    ensures ParseRegexpNoConcat(s, ParseRegexpNoUnion(s, i).index).value.Null?
    decreases |s| - i
  {
    var first := ParseRegexpNoConcat(s, i);
    if first.value.Tree? && first.index < |s| {
      var rest := ParseRegexpNoUnion(s, first.index);
      if rest.value.Tree? {
        NoUnionStopsAtNonAtom(s, first.index);
      }
    }
  }

  /** No atom starts at a position exactly when the character there is one
      that `singleChar` refuses and it does not open a well-formed escape,
      class or group. In particular it is one of `\()[]|^$`. */
  lemma NoAtomAtRefused(s: seq<char>, k: nat)
    requires k < |s|
    requires ParseRegexpNoConcat(s, k).value.Null?
    ensures s[k] in Disallowed
  {
  }

  /** `parse` does not require the whole pattern to be consumed: when it
      succeeds without reaching the end, it stopped at a character `singleChar`
      refuses, and not at `|`. */
  lemma {:induction false} ParseStopsAtRefused(s: seq<char>, i: nat)
    requires i <= |s|
    requires ParseRegexp(s, i).value.Tree?
    requires ParseRegexp(s, i).index < |s|
    ensures s[ParseRegexp(s, i).index] in Disallowed
    ensures s[ParseRegexp(s, i).index] != '|'
    decreases |s| - i
  {
    var first := ParseRegexpNoUnion(s, i);
    if NextIs(s, first.index, '|') {
      ParseStopsAtRefused(s, first.index + 1);
    } else {
      NoUnionStopsAtNonAtom(s, i);
      NoAtomAtRefused(s, first.index);
    }
  }
}
