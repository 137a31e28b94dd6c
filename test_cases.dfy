/** Expectations of test.js, derived from the end-to-end contract of
    `Search.RunSearch` rather than by running the engine: the positions
    follow from which prefixes of the subject the pattern's expression
    matches. */
module Examples {
  import opened Ast
  import opened Lang
  import ParserSpec
  import Nfa
  import opened Search

  /** Two strictly increasing sequences with the same members are equal. */
  lemma {:induction false} SameIncreasing(r: seq<int>, s: seq<int>)
    requires forall a, b :: 0 <= a < b < |r| ==> r[a] < r[b]
    requires forall a, b :: 0 <= a < b < |s| ==> s[a] < s[b]
    requires forall p :: p in r <==> p in s
    ensures r == s
    decreases |r|
  {
    assert r != [] ==> r[0] in r && r[0] in s;
    assert s != [] ==> s[0] in s && s[0] in r;
    if r != [] && s != [] {
      assert r[0] == s[0] by {
        assert r[0] in r && s[0] in s;
        var i :| 0 <= i < |s| && s[i] == r[0];
        var j :| 0 <= j < |r| && r[j] == s[0];
        assert s[0] <= s[i] && r[0] <= r[j];
      }
      forall p ensures p in r[1..] <==> p in s[1..] {
        assert p in r[1..] <==> p in r && p != r[0] by {
          assert r == [r[0]] + r[1..];
          if p in r[1..] {
            var k :| 0 <= k < |r| - 1 && r[1..][k] == p;
            assert r[k + 1] == p;
          }
        }
        assert p in s[1..] <==> p in s && p != s[0] by {
          assert s == [s[0]] + s[1..];
          if p in s[1..] {
            var k :| 0 <= k < |s| - 1 && s[1..][k] == p;
            assert s[k + 1] == p;
          }
        }
      }
      SameIncreasing(r[1..], s[1..]);
      assert r == [r[0]] + r[1..] && s == [s[0]] + s[1..];
    }
  }

  /** A pattern whose expression has no error compiles. */
  lemma Compiles(s: seq<char>)
    requires ParserSpec.Parse(s).value.Tree? && ToRe(ParserSpec.Parse(s).value.node).Ok?
    ensures Nfa.NfaOf(s).Ok?
  {
    Nfa.NfaOfCorrect(s);
  }

  lemma StarAParses()
    ensures ParserSpec.Parse("a*") == ParserSpec.At(ParserSpec.Tree(ApplyOps(Single(Chr('a')), OpNode(Star))), 2)
  {
    assert ParserSpec.ParseRegexpNoConcat("a*", 0)
        == ParserSpec.At(ParserSpec.Tree(ApplyOps(Single(Chr('a')), OpNode(Star))), 2);
  }

  /** test.js:18-20: `a*` on the empty subject reports only -1, the empty
      prefix. */
  method StarOnEmpty() returns (r: Result<seq<int>>)
    ensures r == Ok([-1])
  {
    StarAParses();
    var e := ZeroOrMore(Chars([Chr('a')]));
    assert ToRe(ApplyOps(Single(Chr('a')), OpNode(Star))) == Ok(e);
    Compiles("a*");
    r := RunSearch("a*", "");
    assert Matches(e, ""[..0]);
    SameIncreasing(r.value, [-1]);
  }

  /** The pattern `ɛ` is the key of ε-edges, so on the empty subject it
      reports -1, like `a*`. */
  method EpsilonOnEmpty() returns (r: Result<seq<int>>)
    ensures r == Ok([-1])
  {
    assert ParserSpec.ParseRegexpNoConcat("ɛ", 0) == ParserSpec.At(ParserSpec.Tree(Single(Chr(Epsilon))), 1);
    var e := Chars([Chr(Epsilon)]);
    assert ToRe(Single(Chr(Epsilon))) == Ok(e);
    Compiles("ɛ");
    r := RunSearch("ɛ", "");
    assert Matches(e, ""[..0]) by {
      assert SymMatches([Chr(Epsilon)][0], ""[..0]);
    }
    SameIncreasing(r.value, [-1]);
  }

  lemma OptCParses()
    ensures ParserSpec.Parse("c?c")
         == ParserSpec.At(ParserSpec.Tree(Sequence(ApplyOps(Single(Chr('c')), OpNode(Opt)), Single(Chr('c')))), 3)
  {
    assert ParserSpec.ParseRegexpNoUnion("c?c", 2) == ParserSpec.At(ParserSpec.Tree(Single(Chr('c'))), 3);
    assert ParserSpec.ParseRegexpNoConcat("c?c", 0)
        == ParserSpec.At(ParserSpec.Tree(ApplyOps(Single(Chr('c')), OpNode(Opt))), 2);
  }

  /** What `c?c` denotes: it matches `c` but not the empty word. */
  lemma OptCMeaning()
    ensures ToRe(Sequence(ApplyOps(Single(Chr('c')), OpNode(Opt)), Single(Chr('c'))))
         == Ok(Cat(ZeroOrOne(Chars([Chr('c')])), Chars([Chr('c')])))
    ensures Matches(Cat(ZeroOrOne(Chars([Chr('c')])), Chars([Chr('c')])), "c")
    ensures !Matches(Cat(ZeroOrOne(Chars([Chr('c')])), Chars([Chr('c')])), [])
  {
    var c := Chars([Chr('c')]);
    assert "c"[..0] == [] && "c"[0..] == "c";
    assert Matches(ZeroOrOne(c), "c"[..0]);
    assert Matches(c, "c"[0..]) by {
      assert SymMatches([Chr('c')][0], "c");
    }
  }

  /** The positions reported on the one-character subject `c` by an
      expression that matches `c` but not the empty word. */
  lemma OnlyOne(r: seq<int>, e: Re, str: seq<char>)
    requires str == "c"
    requires forall p :: p in r <==> -1 <= p < |str| && Matches(e, str[..p + 1])
    requires forall a, b :: 0 <= a < b < |r| ==> r[a] < r[b]
    requires Matches(e, "c") && !Matches(e, [])
    ensures r == [0]
  {
    assert str[..1] == "c" && str[..0] == [];
    forall p ensures p in r <==> p in [0] {
      if p == -1 {
        assert !Matches(e, str[..p + 1]);
      } else if p == 0 {
        assert Matches(e, str[..p + 1]);
      }
    }
    SameIncreasing(r, [0]);
  }

  /** test.js:37-40: whatever the search returns on `c` for a pattern that
      parses as `c?c` (as `"c?c"` does, by `OptCParses`) under its end-to-end
      contract is 0 alone, not -1: the empty prefix lacks the mandatory `c`. */
  lemma OptionalPrefix(expression: seq<char>, str: seq<char>, r: Result<seq<int>>)
    requires ParserSpec.Parse(expression).value
          == ParserSpec.Tree(Sequence(ApplyOps(Single(Chr('c')), OpNode(Opt)), Single(Chr('c'))))
    requires str == "c"
    requires Nfa.NfaOf(expression).Ok? ==>
      && ParserSpec.Parse(expression).value.Tree?
      && ToRe(ParserSpec.Parse(expression).value.node).Ok?
      && r.Ok?
      && (forall p :: p in r.value <==>
            -1 <= p < |str| && Matches(ToRe(ParserSpec.Parse(expression).value.node).value, str[..p + 1]))
      && (forall a, b :: 0 <= a < b < |r.value| ==> r.value[a] < r.value[b])
    ensures r == Ok([0])
  {
    OptCMeaning();
    Compiles(expression);
    OnlyOne(r.value, ToRe(ParserSpec.Parse(expression).value.node).value, str);
  }

  /** The body of `(a|(bc))*`: `a` or `b` followed by `c`. */
  const AOrBC: Node := Union(Single(Chr('a')), Sequence(Single(Chr('b')), Single(Chr('c'))))

  /** No atom starts at `)` or `|`. */
  lemma NoAtomAt(s: seq<char>, k: nat)
    requires k < |s| && s[k] in ")|"
    ensures ParserSpec.ParseRegexpNoConcat(s, k) == ParserSpec.At(ParserSpec.Null, k)
  {
  }

  /** A character `singleChar` accepts, not followed by a quantifier, is an
      atom on its own. */
  lemma LetterAt(s: seq<char>, k: nat)
    requires k < |s| && s[k] !in ParserSpec.Disallowed && (k + 1 == |s| || s[k + 1] !in "*+?")
    ensures ParserSpec.ParseRegexpNoConcat(s, k) == ParserSpec.At(ParserSpec.Tree(Single(Chr(s[k]))), k + 1)
  {
  }

  /** `s` spells `(a|(bc))*`, stated character by character so that the
      parsing lemmas below unfold the productions one position at a time. */
  predicate AltKleeneText(s: seq<char>) {
    && |s| == 9 && s[0] == '(' && s[1] == 'a' && s[2] == '|' && s[3] == '(' && s[4] == 'b'
    && s[5] == 'c' && s[6] == ')' && s[7] == ')' && s[8] == '*'
  }

  /** The group `(bc)` of `(a|(bc))*`, read from position 3. */
  lemma BCParses(s: seq<char>)
    requires AltKleeneText(s)
    ensures ParserSpec.ParseRegexpNoConcat(s, 3)
         == ParserSpec.At(ParserSpec.Tree(Sequence(Single(Chr('b')), Single(Chr('c')))), 7)
  {
    NoAtomAt(s, 6);
    LetterAt(s, 5);
    LetterAt(s, 4);
    assert ParserSpec.ParseRegexpNoUnion(s, 6) == ParserSpec.At(ParserSpec.Null, 6);
    assert ParserSpec.ParseRegexpNoUnion(s, 5) == ParserSpec.At(ParserSpec.Tree(Single(Chr('c'))), 6);
    assert ParserSpec.ParseRegexpNoUnion(s, 4)
        == ParserSpec.At(ParserSpec.Tree(Sequence(Single(Chr('b')), Single(Chr('c')))), 6);
    assert ParserSpec.ParseRegexp(s, 4)
        == ParserSpec.At(ParserSpec.Tree(Sequence(Single(Chr('b')), Single(Chr('c')))), 6);
    assert ParserSpec.ParseRegexpBasic(s, 3)
        == ParserSpec.At(ParserSpec.Tree(Sequence(Single(Chr('b')), Single(Chr('c')))), 7);
  }

  /** The branch `(bc)` of the union, from position 3 up to the `)` at 7. */
  lemma RightBranchParses(s: seq<char>)
    requires AltKleeneText(s)
    ensures ParserSpec.ParseRegexp(s, 3)
         == ParserSpec.At(ParserSpec.Tree(Sequence(Single(Chr('b')), Single(Chr('c')))), 7)
  {
    BCParses(s);
    NoAtomAt(s, 7);
    assert ParserSpec.ParseRegexpNoUnion(s, 7) == ParserSpec.At(ParserSpec.Null, 7);
    assert ParserSpec.ParseRegexpNoUnion(s, 3)
        == ParserSpec.At(ParserSpec.Tree(Sequence(Single(Chr('b')), Single(Chr('c')))), 7);
  }

  /** The branch `a` of the union, from position 1 up to the `|` at 2. */
  lemma LeftBranchParses(s: seq<char>)
    requires AltKleeneText(s)
    ensures ParserSpec.ParseRegexpNoUnion(s, 1) == ParserSpec.At(ParserSpec.Tree(Single(Chr('a'))), 2)
  {
    NoAtomAt(s, 2);
    LetterAt(s, 1);
    assert ParserSpec.ParseRegexpNoUnion(s, 2) == ParserSpec.At(ParserSpec.Tree(Empty), 2);
  }

  /** The group `(a|(bc))`, read from position 0. */
  lemma AOrBCParses(s: seq<char>)
    requires AltKleeneText(s)
    ensures ParserSpec.ParseRegexpBasic(s, 0) == ParserSpec.At(ParserSpec.Tree(AOrBC), 8)
  {
    LeftBranchParses(s);
    RightBranchParses(s);
    assert ParserSpec.ParseRegexp(s, 1) == ParserSpec.At(ParserSpec.Tree(AOrBC), 7);
  }

  lemma AltKleeneParses()
    ensures ParserSpec.Parse("(a|(bc))*") == ParserSpec.At(ParserSpec.Tree(ApplyOps(AOrBC, OpNode(Star))), 9)
  {
    var s := "(a|(bc))*";
    AOrBCParses(s);
    assert ParserSpec.ParseRegexpOp(s, 8) == ParserSpec.At(ParserSpec.Some(OpNode(Star)), 9);
    assert ParserSpec.ParseRegexpNoConcat(s, 0) == ParserSpec.At(ParserSpec.Tree(ApplyOps(AOrBC, OpNode(Star))), 9);
  }

  /** The expression of `a|(bc)`. */
  const AOrBCRe: Re := Alt(Chars([Chr('a')]), Cat(Chars([Chr('b')]), Chars([Chr('c')])))

  /** A plain character denotes the list of itself alone. */
  lemma LetterRe(c: char)
    requires c != '.'
    ensures ToRe(Single(Chr(c))) == Ok(Chars([Chr(c)]))
  {
    assert SingleCharList(Chr(c)) == [Chr(c)];
  }

  /** One character symbol matches exactly the word holding it. */
  lemma LetterMatches(c: char, w: seq<char>)
    requires c != '.' && c != Epsilon
    ensures Matches(Chars([Chr(c)]), w) <==> w == [c]
  {
    assert ListMatches([Chr(c)], w) <==> SymMatches([Chr(c)][0], w);
  }

  /** Two plain characters in a row match exactly the word of the two. */
  lemma PairMatches(x: char, y: char, w: seq<char>)
    requires x != '.' && x != Epsilon && y != '.' && y != Epsilon
    ensures Matches(Cat(Chars([Chr(x)]), Chars([Chr(y)])), w) <==> w == [x, y]
  {
    if w == [x, y] {
      assert w[..1] == [x] && w[1..] == [y];
      LetterMatches(x, w[..1]);
      LetterMatches(y, w[1..]);
    }
    if Matches(Cat(Chars([Chr(x)]), Chars([Chr(y)])), w) {
      var k :| 0 <= k <= |w| && Matches(Chars([Chr(x)]), w[..k]) && Matches(Chars([Chr(y)]), w[k..]);
      LetterMatches(x, w[..k]);
      LetterMatches(y, w[k..]);
      assert w == w[..k] + w[k..];
    }
  }

  /** `a|(bc)` matches exactly `a` and `bc`. */
  lemma AOrBCWords(w: seq<char>)
    ensures Matches(AOrBCRe, w) <==> w == ['a'] || w == ['b', 'c']
  {
    LetterMatches('a', w);
    PairMatches('b', 'c', w);
  }

  /** `str` spells `abc`. */
  predicate AbcText(str: seq<char>) {
    |str| == 3 && str[0] == 'a' && str[1] == 'b' && str[2] == 'c'
  }

  /** A non-empty word of `b` followed by a word of its star. */
  lemma StarPrepend(b: Re, w1: seq<char>, w2: seq<char>)
    requires w1 != [] && Matches(b, w1) && StarMatches(b, w2)
    ensures StarMatches(b, w1 + w2)
  {
    assert (w1 + w2)[..|w1|] == w1 && (w1 + w2)[|w1|..] == w2;
  }

  /** A star matches a one-letter word only if its body does. */
  lemma StarOneLetter(b: Re, w: seq<char>)
    requires |w| == 1 && StarMatches(b, w)
    ensures Matches(b, w)
  {
    assert w[..1] == w;
  }

  /** A star matches `ab` only through `ab` itself or `a` then `b`. */
  lemma StarTwoLetters(b: Re, w: seq<char>)
    requires |w| == 2 && StarMatches(b, w)
    ensures Matches(b, w) || (Matches(b, w[..1]) && StarMatches(b, w[1..]))
  {
    assert w[..2] == w && w[2..] == [];
  }

  /** The star of any expression matching `a` and `bc` but neither `b` nor
      `ab` matches the prefixes `a` and `abc` of `abc`, and not `ab`. */
  lemma StarOnAbc(b: Re, str: seq<char>)
    requires AbcText(str)
    requires Matches(b, ['a']) && Matches(b, ['b', 'c']) && !Matches(b, ['b']) && !Matches(b, ['a', 'b'])
    ensures StarMatches(b, str[..1]) && StarMatches(b, str[..3]) && !StarMatches(b, str[..2])
  {
    var a, bc: seq<char> := ['a'], ['b', 'c'];
    assert a + [] == a && bc + [] == bc;
    StarPrepend(b, a, []);
    StarPrepend(b, bc, []);
    StarPrepend(b, a, bc);
    assert str[..1] == ['a'] + [] && str[..3] == ['a'] + ['b', 'c'];
    if StarMatches(b, str[..2]) {
      assert str[..2] == ['a', 'b'] && str[..2][..1] == ['a'] && str[..2][1..] == ['b'];
      StarTwoLetters(b, str[..2]);
      StarOneLetter(b, ['b']);
    }
  }

  /** `(a|(bc))*` denotes the star of `a|(bc)`. */
  lemma AltKleeneRe()
    ensures ToRe(ApplyOps(AOrBC, OpNode(Star))) == Ok(ZeroOrMore(AOrBCRe))
  {
    LetterRe('a');
    LetterRe('b');
    LetterRe('c');
    assert ToRe(Sequence(Single(Chr('b')), Single(Chr('c')))) == Ok(Cat(Chars([Chr('b')]), Chars([Chr('c')])));
    assert ToRe(AOrBC) == Ok(AOrBCRe);
  }

  /** What `(a|(bc))*` denotes, on the prefixes of `abc`. */
  lemma AltKleeneMeaning(str: seq<char>)
    requires AbcText(str)
    ensures ToRe(ApplyOps(AOrBC, OpNode(Star))) == Ok(ZeroOrMore(AOrBCRe))
    ensures Matches(ZeroOrMore(AOrBCRe), str[..0]) && Matches(ZeroOrMore(AOrBCRe), str[..1])
    ensures !Matches(ZeroOrMore(AOrBCRe), str[..2]) && Matches(ZeroOrMore(AOrBCRe), str[..3])
  {
    AltKleeneRe();
    AOrBCWords(['a']);
    AOrBCWords(['b', 'c']);
    AOrBCWords(['b']);
    AOrBCWords(['a', 'b']);
    StarOnAbc(AOrBCRe, str);
  }

  /** The positions reported on `abc` by an expression that matches the
      prefixes of lengths 0, 1 and 3 but not 2. */
  lemma ZeroOneThree(r: seq<int>, e: Re, str: seq<char>)
    requires AbcText(str)
    requires forall p :: p in r <==> -1 <= p < |str| && Matches(e, str[..p + 1])
    requires forall a, b :: 0 <= a < b < |r| ==> r[a] < r[b]
    requires Matches(e, str[..0]) && Matches(e, str[..1]) && !Matches(e, str[..2]) && Matches(e, str[..3])
    ensures r == [-1, 0, 2]
  {
    forall p ensures p in r <==> p in [-1, 0, 2] {
      if p == 1 {
        assert !Matches(e, str[..p + 1]);
      }
    }
    SameIncreasing(r, [-1, 0, 2]);
  }

  /** test.js:32-35: whatever the search returns on `abc` for a pattern that
      parses as `(a|(bc))*` (as `"(a|(bc))*"` does, by `AltKleeneParses`)
      under its end-to-end contract is -1, 0 and 2: the empty prefix, `a`
      and `a` followed by `bc`, but not `ab`. */
  lemma AlternationKleene(expression: seq<char>, str: seq<char>, r: Result<seq<int>>)
    requires ParserSpec.Parse(expression).value == ParserSpec.Tree(ApplyOps(AOrBC, OpNode(Star)))
    requires str == "abc"
    requires Nfa.NfaOf(expression).Ok? ==>
      && ParserSpec.Parse(expression).value.Tree?
      && ToRe(ParserSpec.Parse(expression).value.node).Ok?
      && r.Ok?
      && (forall p :: p in r.value <==>
            -1 <= p < |str| && Matches(ToRe(ParserSpec.Parse(expression).value.node).value, str[..p + 1]))
      && (forall a, b :: 0 <= a < b < |r.value| ==> r.value[a] < r.value[b])
    ensures r == Ok([-1, 0, 2])
  {
    AltKleeneMeaning(str);
    Compiles(expression);
    ZeroOneThree(r.value, ToRe(ParserSpec.Parse(expression).value.node).value, str);
  }
}
