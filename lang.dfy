/** The language a parsed pattern denotes, defined independently of the
    NFA: an AST node is read as a regular expression `Re` over the
    characters it lists, and `Matches` says which words that expression
    accepts. The compiler in `Thompson` is proved to build automata that
    accept exactly these words. */
module Lang {
  import opened Ast

  /** Regular expressions over symbol lists. */
  datatype Re =
    | Void                         // accepts nothing
    | Chars(list: seq<Sym>)        // one of the listed symbols
    | Alt(left: Re, right: Re)
    | Cat(first: Re, second: Re)
    | ZeroOrMore(body: Re)
    | OneOrMore(body: Re)
    | ZeroOrOne(body: Re)

  /** What a single symbol stands for. The phantom character read past the
      end of a pattern and the character `ɛ` both become ε-edges, so they
      match the empty word; `.` stands for every code of the alphabet except
      `.` itself; any other character stands for itself. */
  predicate SymMatches(x: Sym, w: seq<char>) {
    match x
    case Phantom => w == []
    case Chr(c) =>
      if c == Epsilon then w == []
      else if c == '.' then |w| == 1 && w[0] != '.' && InAlphabet(w[0])
      else w == [c]
  }

  predicate ListMatches(l: seq<Sym>, w: seq<char>) {
    exists k :: 0 <= k < |l| && SymMatches(l[k], w)
  }

  function Quantified(q: Quant, r: Re): Re {
    match q
    case Star => ZeroOrMore(r)
    case Plus => OneOrMore(r)
    case Opt => ZeroOrOne(r)
  }

  /** Quantifiers stacked after an atom apply left to right. */
  function Quantify(r: Re, ops: Ops): Re
    decreases ops
  {
    match ops
    case OpNode(q) => Quantified(q, r)
    case SequentialOps(q, rest) => Quantify(Quantified(q, r), rest)
  }

  /** The expression an AST node denotes, or the error its character lists
      raise. */
  function ToRe(n: Node): Result<Re> {
    match n
    case Union(n1, n2) =>
      (match ToRe(n1)
       case Err(e) => Err(e)
       case Ok(r1) =>
         match ToRe(n2)
         case Err(e) => Err(e)
         case Ok(r2) => Ok(Alt(r1, r2)))
    case Empty => Ok(Void)
    case Sequence(n1, n2) =>
      (match ToRe(n1)
       case Err(e) => Err(e)
       case Ok(r1) =>
         match ToRe(n2)
         case Err(e) => Err(e)
         case Ok(r2) => Ok(Cat(r1, r2)))
    case ApplyOps(sym, ops) =>
      (match ToRe(sym)
       case Err(e) => Err(e)
       case Ok(r) => Ok(Quantify(r, ops)))
    case Negation(m) =>
      (match CharListOf(m)
       case Err(e) => Err(e)
       case Ok(l) => Ok(Chars(Difference(AllChars(), l))))
    case _ =>
      (match CharListOf(n)
       case Err(e) => Err(e)
       case Ok(l) => Ok(Chars(l)))
  }

  predicate Matches(r: Re, w: seq<char>)
    decreases r, 0
  {
    match r
    case Void => false
    case Chars(l) => ListMatches(l, w)
    case Alt(r1, r2) => Matches(r1, w) || Matches(r2, w)
    case Cat(r1, r2) => exists k :: 0 <= k <= |w| && Matches(r1, w[..k]) && Matches(r2, w[k..])
    case ZeroOrMore(b) => StarMatches(b, w)
    case OneOrMore(b) => exists k :: 0 <= k <= |w| && Matches(b, w[..k]) && StarMatches(b, w[k..])
    case ZeroOrOne(b) => w == [] || Matches(b, w)
  }

  /** `w` is a concatenation of zero or more words of `b`. */
  predicate StarMatches(b: Re, w: seq<char>)
    decreases b, |w| + 1
  {
    w == [] || exists k :: 1 <= k <= |w| && Matches(b, w[..k]) && StarMatches(b, w[k..])
  }

  // ---------------------------------------------------------------------------
  // The full stop
  // ---------------------------------------------------------------------------

  /** No symbol ever matches a word containing `.`: `.` itself stands for
      every other code. */
  lemma SymNeverMatchesDot(x: Sym, w: seq<char>)
    requires SymMatches(x, w)
    ensures '.' !in w
  {
    if x.Chr? && x.c == '.' {
      assert w == [w[0]];
    }
  }

  /** A list without phantom characters and without `.` accepts exactly the
      one-character words it lists. */
  lemma PlainListMatches(l: seq<Sym>, w: seq<char>)
    requires forall x :: x in l ==> x.Chr? && x.c != '.' && x.c != Epsilon
    ensures ListMatches(l, w) <==> |w| == 1 && Chr(w[0]) in l
  {
    if |w| == 1 && Chr(w[0]) in l {
      var k :| 0 <= k < |l| && l[k] == Chr(w[0]);
      assert w == [w[0]];
      assert SymMatches(l[k], w);
    }
  }

  lemma DotCharsHoldsCode(w: seq<char>)
    requires |w| == 1
    ensures Chr(w[0]) in DotChars() <==> w[0] != '.' && InAlphabet(w[0])
  {
    DotCharsSpec();
  }

  lemma DotCharsMatchOneCode(w: seq<char>)
    ensures ListMatches(DotChars(), w) <==> |w| == 1 && Chr(w[0]) in DotChars()
  {
    DotCharsSpec();
    PlainListMatches(DotChars(), w);
  }

  /** `.` in a pattern and its 255-code expansion `DotChars()` accept the same
      words. */
  lemma DotMeansDotChars(w: seq<char>)
    ensures SymMatches(Chr('.'), w) <==> ListMatches(DotChars(), w)
  {
    assert '.' != Epsilon;
    DotCharsMatchOneCode(w);
    if |w| == 1 {
      DotCharsHoldsCode(w);
    }
  }

  /** A list that contains `.` accepts every code of the alphabet except `.`,
      whatever else it lists (so `[.]`, `\.`, `\S` and `[^a]` all do). */
  lemma ListWithDotAcceptsAllButDot(l: seq<Sym>, c: char)
    requires Chr('.') in l
    requires InAlphabet(c) && c != '.'
    ensures ListMatches(l, [c])
  {
    var k :| 0 <= k < |l| && l[k] == Chr('.');
    assert SymMatches(l[k], [c]);
  }

  /** No word any expression accepts contains `.`. */
  lemma {:induction false} MatchesHasNoDot(r: Re, w: seq<char>)
    requires Matches(r, w)
    ensures '.' !in w
    decreases r, 0
  {
    match r
    case Void =>
    case Chars(l) =>
      var k :| 0 <= k < |l| && SymMatches(l[k], w);
      SymNeverMatchesDot(l[k], w);
    case Alt(r1, r2) =>
      if Matches(r1, w) {
        MatchesHasNoDot(r1, w);
      } else {
        MatchesHasNoDot(r2, w);
      }
    case Cat(r1, r2) =>
      var k :| 0 <= k <= |w| && Matches(r1, w[..k]) && Matches(r2, w[k..]);
      MatchesHasNoDot(r1, w[..k]);
      MatchesHasNoDot(r2, w[k..]);
      assert w == w[..k] + w[k..];
    case ZeroOrMore(b) =>
      StarHasNoDot(b, w);
    case OneOrMore(b) =>
      var k :| 0 <= k <= |w| && Matches(b, w[..k]) && StarMatches(b, w[k..]);
      MatchesHasNoDot(b, w[..k]);
      StarHasNoDot(b, w[k..]);
      assert w == w[..k] + w[k..];
    case ZeroOrOne(b) =>
      if w != [] {
        MatchesHasNoDot(b, w);
      }
  }

  lemma {:induction false} StarHasNoDot(b: Re, w: seq<char>)
    requires StarMatches(b, w)
    ensures '.' !in w
    decreases b, |w| + 1
  {
    if w != [] {
      var k :| 1 <= k <= |w| && Matches(b, w[..k]) && StarMatches(b, w[k..]);
      MatchesHasNoDot(b, w[..k]);
      StarHasNoDot(b, w[k..]);
      assert w == w[..k] + w[k..];
    }
  }
}
