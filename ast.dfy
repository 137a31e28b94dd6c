/** The regular-expression syntax tree built by the parser of regexp.js, and the
    character lists (`getCharList`) that character classes, ranges and escapes
    expand to before they are compiled. */
module Ast {

  /** A character read by `singleChar`. Past the end of the pattern the parser
      reads JavaScript's `undefined`, modelled as `Phantom`. */
  datatype Sym = Phantom | Chr(c: char)

  /** The three postfix operators. */
  datatype Quant = Star | Plus | Opt

  /** A run of stacked quantifiers: `OpNode` is the last one, `SequentialOps`
      applies `op` first and then `rest`. */
  datatype Ops = OpNode(op: Quant) | SequentialOps(op: Quant, rest: Ops)

  /** The quantifiers of a run, in the order they are applied. */
  function OpList(o: Ops): (r: seq<Quant>)
    ensures |r| >= 1 && r[0] == o.op
  {
    match o
    case OpNode(q) => [q]
    case SequentialOps(q, rest) => [q] + OpList(rest)
  }

  /** One constructor per AST class of regexp.js. */
  datatype Node =
    | Union(node1: Node, node2: Node)
    | Empty
    | Sequence(node1: Node, node2: Node)
    | ApplyOps(sym: Node, ops: Ops)
    | CharList(one: Node, many: Node)
    | CharRange(lhs: Sym, rhs: Sym)
    | Single(ch: Sym)
    | Escaped(escaped: char)
    | Negation(node: Node)

  /** The exceptions a list expansion (and so compilation) can throw: the range
      errors of `CharRangeNode`, and the `TypeError` raised when a node has no
      `getCharList` method or a range bound is `undefined`; and, once parsing
      is included, the `RangeError` of a parse whose recursion never ends. */
  datatype Error = RangeOutOfOrder(lo: char, hi: char) | TypeError | StackExceeded

  datatype Result<T> = Ok(value: T) | Err(error: Error)

  function Size(n: Node): (r: nat)
    ensures r >= 1
  {
    match n
    case Union(a, b) => 1 + Size(a) + Size(b)
    case Sequence(a, b) => 1 + Size(a) + Size(b)
    case CharList(a, b) => 1 + Size(a) + Size(b)
    case ApplyOps(a, _) => 1 + Size(a)
    case Negation(a) => 1 + Size(a)
    case _ => 1
  }

  // ---------------------------------------------------------------------------
  // The alphabet and list difference
  // ---------------------------------------------------------------------------

  /** `allChars`: the 256 characters with codes 0 to 255, in code order. */
  function AllChars(): (r: seq<Sym>)
    ensures |r| == 256 && forall i :: 0 <= i < 256 ==> r[i] == Chr(i as char)
  {
    seq(256, i requires 0 <= i < 256 => Chr(i as char))
  }

  /** `wsChars`, the expansion of `\s`. */
  const WsChars: seq<Sym> := [Chr('\n'), Chr(' '), Chr('\t'), Chr('\0')]

  /** The expansion of `.`: every code 0-255 except `.` itself. */
  function DotChars(): seq<Sym> {
    Difference(AllChars(), [Chr('.')])
  }

  /** `epsilon`, the transition key of ε-edges (regexp.js:5). A pattern
      character equal to it is stored under the same key. */
  const Epsilon: char := 'ɛ'

  predicate InAlphabet(c: char) {
    c as int < 256
  }

  lemma AllCharsMembers(s: Sym)
    ensures s in AllChars() <==> s.Chr? && InAlphabet(s.c)
  {
    if s.Chr? && InAlphabet(s.c) {
      assert AllChars()[s.c as int] == s;
    }
  }

  /** `_.difference(a, b)`: the elements of `a` not in `b`, in `a`'s order. */
  function Difference(a: seq<Sym>, b: seq<Sym>): (r: seq<Sym>)
    ensures forall x :: x in r <==> x in a && x !in b
    ensures |r| <= |a|
  {
    if |a| == 0 then []
    else (if a[0] in b then [] else [a[0]]) + Difference(a[1..], b)
  }

  predicate Distinct(s: seq<Sym>) {
    forall i, j :: 0 <= i < j < |s| ==> s[i] != s[j]
  }

  lemma {:induction false} DifferenceDistinct(a: seq<Sym>, b: seq<Sym>)
    requires Distinct(a)
    ensures Distinct(Difference(a, b))
  {
    if |a| > 0 {
      DifferenceDistinct(a[1..], b);
      assert a[0] !in a[1..] by {
        forall k | 0 <= k < |a| - 1 ensures a[1..][k] != a[0] {
          assert a[1..][k] == a[k + 1];
        }
      }
    }
  }

  lemma {:induction false} DifferenceOfOne(a: seq<Sym>, x: Sym)
    requires Distinct(a) && x in a
    ensures |Difference(a, [x])| == |a| - 1
  {
    assert a[0] !in a[1..] by {
      forall k | 0 <= k < |a| - 1 ensures a[1..][k] != a[0] {
        assert a[1..][k] == a[k + 1];
      }
    }
    if a[0] == x {
      DifferenceOfNone(a[1..], x);
    } else {
      assert Distinct(a[1..]) by {
        forall i, j | 0 <= i < j < |a| - 1 ensures a[1..][i] != a[1..][j] {
          assert a[1..][i] == a[i + 1] && a[1..][j] == a[j + 1];
        }
      }
      DifferenceOfOne(a[1..], x);
    }
  }

  lemma {:induction false} DifferenceOfNone(a: seq<Sym>, x: Sym)
    requires x !in a
    ensures Difference(a, [x]) == a
  {
    if |a| > 0 {
      assert a[1..] + [] == a[1..];
      DifferenceOfNone(a[1..], x);
      assert [a[0]] + a[1..] == a;
    }
  }

  // ---------------------------------------------------------------------------
  // Character lists (`getCharList`)
  // ---------------------------------------------------------------------------

  /** `c.toLowerCase() === c`, for the characters whose case JavaScript maps
      within codes 0-255 (A-Z and the Latin-1 capitals); every other character
      is treated as uncased. */
  predicate LowerFixed(c: char) {
    !('A' <= c <= 'Z' || ('\U{C0}' <= c <= '\U{DE}' && c != '\U{D7}'))
  }

  /** `c.toUpperCase() === c`: false for a-z, the Latin-1 small letters, `µ`
      (whose upper case is Greek Mu) and `ß` (whose upper case is "SS"). */
  predicate UpperFixed(c: char) {
    !('a' <= c <= 'z' || c == '\U{B5}' || c == '\U{DF}'
      || ('\U{E0}' <= c <= '\U{FF}' && c != '\U{F7}'))
  }

  /** Codes that `String.fromCharCode` yields as one Dafny `char`. */
  predicate IsScalar(k: int) {
    0 <= k < 0xD800 || 0xE000 <= k < 0x11_0000
  }

  /** The characters with codes `lo` to `hi`, in increasing order. */
  function CodesFrom(lo: int, hi: int): (r: seq<Sym>)
    decreases hi - lo + 1
  {
    if lo > hi then []
    else (if IsScalar(lo) then [Chr(lo as char)] else []) + CodesFrom(lo + 1, hi)
  }

  predicate Increasing(s: seq<Sym>) {
    forall i, j :: 0 <= i < j < |s| ==> s[i].Chr? && s[j].Chr? && s[i].c < s[j].c
  }

  /** `CharRangeNode.getCharList` (regexp.js:168-187). */
  function RangeCharList(lhs: Sym, rhs: Sym): Result<seq<Sym>> {
    if lhs.Phantom? || rhs.Phantom? then Err(TypeError)
    else if LowerFixed(lhs.c) && LowerFixed(rhs.c) then
      if lhs.c > rhs.c then Err(RangeOutOfOrder(lhs.c, rhs.c))
      else Ok(CodesFrom(lhs.c as int, rhs.c as int))
    else if UpperFixed(lhs.c) && UpperFixed(rhs.c) then
      if lhs.c > rhs.c then Err(RangeOutOfOrder(lhs.c, rhs.c))
      else Ok(CodesFrom(lhs.c as int, rhs.c as int))
    else Ok([])
  }

  /** `SingleChar.getCharList` (regexp.js:197-202). */
  function SingleCharList(ch: Sym): seq<Sym> {
    if ch == Chr('.') then Difference(AllChars(), [ch]) else [ch]
  }

  /** `EscapedChar.getCharList` (regexp.js:229-243). */
  function EscapedCharList(ch: char): seq<Sym> {
    if ch == 's' then WsChars
    else if ch == 'S' then Difference(AllChars(), WsChars)
    else [Chr(ch)]
  }

  /** Dispatch of `getCharList`; the other node classes have no such method. */
  function CharListOf(n: Node): Result<seq<Sym>> {
    match n
    case CharList(one, many) =>
      (match CharListOf(one)
       case Err(e) => Err(e)
       case Ok(l1) =>
         match CharListOf(many)
         case Err(e) => Err(e)
         case Ok(l2) => Ok(l1 + l2))
    case CharRange(lhs, rhs) => RangeCharList(lhs, rhs)
    case Single(ch) => Ok(SingleCharList(ch))
    case Escaped(ch) => Ok(EscapedCharList(ch))
    case _ => Err(TypeError)
  }

  /** The list `NegationNode.toNFA` compiles (regexp.js:255): the alphabet minus
      the list of the negated class. */
  function NegatedCharList(n: Node): Result<seq<Sym>> {
    match CharListOf(n)
    case Err(e) => Err(e)
    case Ok(l) => Ok(Difference(AllChars(), l))
  }

  // ---------------------------------------------------------------------------
  // The loops that build the lists
  // ---------------------------------------------------------------------------

  lemma {:induction false} CodesFromSnoc(lo: int, hi: int)
    requires lo <= hi + 1
    ensures CodesFrom(lo, hi + 1)
         == CodesFrom(lo, hi) + (if IsScalar(hi + 1) then [Chr((hi + 1) as char)] else [])
    decreases hi - lo + 1
  {
    if lo <= hi {
      CodesFromSnoc(lo + 1, hi);
    }
  }

  /** The `for` loop of `CharRangeNode.getCharList` (regexp.js:175-177): push
      `String.fromCharCode(i)` for every code from `lo` to `hi`. */
  method PushCodes(lo: char, hi: char) returns (ret: seq<Sym>)
    ensures ret == CodesFrom(lo as int, hi as int)
  {
    ret := [];
    var i := lo as int;
    while i <= hi as int
      invariant lo as int <= i <= (if hi < lo then lo as int else hi as int + 1)
      invariant ret == CodesFrom(lo as int, i - 1)
    {
      CodesFromSnoc(lo as int, i - 1);
      if IsScalar(i) {
        ret := ret + [Chr(i as char)];
      }
      i := i + 1;
    }
  }

  /** The `do { for ... } while (false)` block that fills `allChars`
      (regexp.js:218-222). */
  method FillAllChars() returns (all: seq<Sym>)
    ensures all == AllChars()
    ensures forall s :: s in all <==> s.Chr? && InAlphabet(s.c)
  {
    all := [];
    var i := 0;
    while i < 256
      invariant 0 <= i <= 256
      invariant all == AllChars()[..i]
    {
      all := all + [Chr(i as char)];
      i := i + 1;
    }
    forall s ensures s in all <==> s.Chr? && InAlphabet(s.c) {
      AllCharsMembers(s);
    }
  }

  // ---------------------------------------------------------------------------
  // What the lists contain
  // ---------------------------------------------------------------------------

  lemma {:induction false} CodesFromMembers(lo: int, hi: int)
    ensures forall x :: x in CodesFrom(lo, hi) <==> x.Chr? && lo <= x.c as int <= hi
    ensures Increasing(CodesFrom(lo, hi))
    decreases hi - lo + 1
  {
    if lo <= hi {
      CodesFromMembers(lo + 1, hi);
      forall x ensures x in CodesFrom(lo, hi) <==> x.Chr? && lo <= x.c as int <= hi {
        if x.Chr? && x.c as int == lo {
          assert IsScalar(lo);
        }
      }
    }
  }

  /** A range whose ends keep their case yields every code from `lhs` to `rhs`
      in increasing order, and throws when `lhs > rhs`; ends of mixed case
      yield the empty list (regexp.js:168-187). */
  lemma RangeCharListSpec(lhs: char, rhs: char)
    ensures (LowerFixed(lhs) && LowerFixed(rhs)) || (UpperFixed(lhs) && UpperFixed(rhs)) ==>
      if lhs > rhs then RangeCharList(Chr(lhs), Chr(rhs)) == Err(RangeOutOfOrder(lhs, rhs))
      else
        && RangeCharList(Chr(lhs), Chr(rhs)).Ok?
        && Increasing(RangeCharList(Chr(lhs), Chr(rhs)).value)
        && forall x :: x in RangeCharList(Chr(lhs), Chr(rhs)).value <==> x.Chr? && lhs <= x.c <= rhs
    ensures !((LowerFixed(lhs) && LowerFixed(rhs)) || (UpperFixed(lhs) && UpperFixed(rhs))) ==>
      RangeCharList(Chr(lhs), Chr(rhs)) == Ok([])
  {
    CodesFromMembers(lhs as int, rhs as int);
  }

  /** A range with a bound read past the end of the pattern throws a
      TypeError. No parse hands the compiler such a range: a phantom bound
      is read only where `charRangesOrSingles` has run past the end, and
      there it overflows the stack instead (`ParserSpec.ClassItemPastEnd`).
      The lemma states what `getCharList` would do with one. */
  lemma RangeWithPhantomBound(s: Sym)
    ensures RangeCharList(Phantom, s) == Err(TypeError) && RangeCharList(s, Phantom) == Err(TypeError)
  {
  }

  /** `\s` is the four whitespace characters; `\S` is the rest of the alphabet,
      and any other escaped character stands for itself (regexp.js:229-243). */
  lemma EscapedCharListSpec(ch: char)
    ensures ch == 's' ==> EscapedCharList(ch) == [Chr('\n'), Chr(' '), Chr('\t'), Chr('\0')]
    ensures ch != 's' && ch != 'S' ==> EscapedCharList(ch) == [Chr(ch)]
  {
  }

  lemma NonSpaceCharListSpec()
    ensures forall x :: x in EscapedCharList('S') <==> x.Chr? && InAlphabet(x.c) && x !in WsChars
  {
    forall x ensures x in AllChars() <==> x.Chr? && InAlphabet(x.c) {
      AllCharsMembers(x);
    }
  }

  lemma AllCharsDistinct()
    ensures Distinct(AllChars())
  {
    forall i, j | 0 <= i < j < 256 ensures AllChars()[i] != AllChars()[j] {
      assert AllChars()[i].c as int == i && AllChars()[j].c as int == j;
    }
  }

  /** The alphabet without one of its codes. */
  lemma AlphabetWithout(d: Sym)
    requires d.Chr? && InAlphabet(d.c)
    ensures |Difference(AllChars(), [d])| == 255 && Distinct(Difference(AllChars(), [d]))
    ensures forall x :: x in Difference(AllChars(), [d]) <==> x.Chr? && InAlphabet(x.c) && x != d
  {
    AllCharsDistinct();
    AllCharsMembers(d);
    DifferenceOfOne(AllChars(), d);
    DifferenceDistinct(AllChars(), [d]);
    forall x ensures x in AllChars() <==> x.Chr? && InAlphabet(x.c) {
      AllCharsMembers(x);
    }
  }

  /** `.` expands to the 255 codes of the alphabet other than `.` itself
      (regexp.js:197-202). */
  lemma DotCharsSpec()
    ensures |DotChars()| == 255 && Distinct(DotChars())
    ensures forall x :: x in DotChars() <==> x.Chr? && InAlphabet(x.c) && x.c != '.'
    ensures SingleCharList(Chr('.')) == DotChars()
  {
    AlphabetWithout(Chr('.'));
  }

  /** `SingleChar.toNFA` tells `.` from every other character by the length
      of its list (regexp.js:205-212): `.` has 255 members, none of them `.`,
      and any other character, the phantom included, has itself alone. */
  lemma SingleCharListShape(ch: Sym)
    ensures |SingleCharList(ch)| == 1 <==> ch != Chr('.')
    ensures ch != Chr('.') ==> SingleCharList(ch) == [ch]
    ensures Chr('.') !in SingleCharList(ch)
  {
    if ch == Chr('.') {
      AlphabetWithout(ch);
    }
  }

  /** A negated class is the alphabet minus the class's list, so it never
      contains the phantom character (regexp.js:255). */
  lemma NegatedCharListSpec(n: Node)
    ensures CharListOf(n).Err? ==> NegatedCharList(n) == Err(CharListOf(n).error)
    ensures CharListOf(n).Ok? ==> NegatedCharList(n).Ok? && forall x :: x in NegatedCharList(n).value <==>
      x.Chr? && InAlphabet(x.c) && x !in CharListOf(n).value
  {
    forall x ensures x in AllChars() <==> x.Chr? && InAlphabet(x.c) {
      AllCharsMembers(x);
    }
  }
}
