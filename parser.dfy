/** The parser object `RegExpParser` (regexp.js:22-27, 260-487). Its cursor
    `index` is a field that the productions advance with `get()` and restore
    on failure. Every production is proved to leave exactly the outcome and
    cursor that the matching function of `ParserSpec` computes. */
module Parser {
  import opened Ast
  import opened ParserSpec

  class RegExpParser {
    const expression: seq<char>
    const expLen: nat
    var index: nat

    ghost predicate Valid() {
      expLen == |expression|
    }

    constructor (expression: seq<char>)
      ensures Valid() && this.expression == expression && index == 0
    {
      this.expression := expression;
      expLen := |expression|;
      index := 0;
    }

    method Peek() returns (r: Sym)
      requires Valid()
      ensures r == ParserSpec.Peek(expression, index)
    {
      if index < expLen {
        r := Chr(expression[index]);
      } else {
        r := Phantom;
      }
    }

    method HasMore() returns (b: bool)
      requires Valid()
      ensures b <==> index < |expression|
    {
      b := index < expLen;
    }

    method NextIs(ch: char) returns (b: bool)
      requires Valid()
      ensures b == ParserSpec.NextIs(expression, index, ch)
    {
      b := HasMore();
      if b {
        var next := Peek();
        b := next == Chr(ch);
      }
    }

    /** `get()`: the character under the cursor (`undefined` past the end),
        moving the cursor on by one in either case. */
    method Get() returns (r: Sym)
      requires Valid()
      modifies this
      ensures r == ParserSpec.Peek(expression, old(index)) && index == old(index) + 1
    {
      r := Peek();
      index := index + 1;
    }

    method Parse() returns (node: Parsed)
      requires Valid()
      modifies this
      ensures At(node, index) == ParserSpec.Parse(expression)
    {
      index := 0;
      node := Regexp();
    }

    method Regexp() returns (node: Parsed)
      requires Valid() && index <= expLen
      modifies this
      ensures At(node, index) == ParseRegexp(expression, old(index))
      decreases expLen - index, 3
    {
      var start := index;
      node := RegexpNoUnion();
      if node.StackOverflow? {
        return;
      }
      if node.Null? {
        index := start;
        return Null;
      }
      var more := HasMore();
      if more {
        var bar := NextIs('|');
        if bar {
          var _ := Get();
          var node2 := Regexp();
          if node2.StackOverflow? {
            return node2;
          }
          if node2.Null? {
            index := start;
            return Null;
          }
          node := Tree(Union(node.node, node2.node));
        }
      }
    }

    method RegexpNoUnion() returns (node: Parsed)
      requires Valid() && index <= expLen
      modifies this
      ensures At(node, index) == ParseRegexpNoUnion(expression, old(index))
      decreases expLen - index, 2
    {
      var start := index;
      node := RegexpNoConcat();
      if node.StackOverflow? {
        return;
      }
      if node.Null? {
        var more := HasMore();
        var bar := NextIs('|');
        if !more || bar {
          return Tree(Empty);
        }
        index := start;
        return Null;
      }
      var more := HasMore();
      if more {
        var node2 := RegexpNoUnion();
        if node2.StackOverflow? {
          return node2;
        }
        if node2.Null? || node2.node == Empty {
          return;
        }
        node := Tree(Sequence(node.node, node2.node));
      }
    }

    method RegexpNoConcat() returns (node: Parsed)
      requires Valid() && index <= expLen
      modifies this
      ensures At(node, index) == ParseRegexpNoConcat(expression, old(index))
      decreases expLen - index, 1
    {
      var start := index;
      node := RegexpBasic();
      if node.StackOverflow? {
        return;
      }
      if node.Null? {
        index := start;
        return Null;
      }
      var ops := RegexpOp();
      if ops.Some? {
        node := Tree(ApplyOps(node.node, ops.value));
      }
    }

    method RegexpOp() returns (ops: Option<Ops>)
      requires Valid()
      modifies this
      ensures At(ops, index) == ParseRegexpOp(expression, old(index))
      decreases expLen - index
    {
      var more := HasMore();
      if !more {
        return None;
      }
      var next := Peek();
      var op: Option<Quant> := None;
      if next == Chr('*') {
        var _ := Get();
        op := Some(Star);
      } else if next == Chr('+') {
        var _ := Get();
        op := Some(Plus);
      } else if next == Chr('?') {
        var _ := Get();
        op := Some(Opt);
      }
      if op.None? {
        return None;
      }
      var rest := RegexpOp();
      if rest.None? {
        return Some(OpNode(op.value));
      }
      return Some(SequentialOps(op.value, rest.value));
    }

    method RegexpBasic() returns (node: Parsed)
      requires Valid() && index <= expLen
      modifies this
      ensures At(node, index) == ParseRegexpBasic(expression, old(index))
      decreases expLen - index, 0
    {
      var start := index;
      var next := Peek();
      if next == Chr('[') {
        var _ := Get();
        node := CharClass();
        if node.StackOverflow? {
          return;
        }
        var close := NextIs(']');
        if !close {
          index := start;
          return Null;
        }
        var _ := Get();
      } else if next == Chr('(') {
        var _ := Get();
        node := Regexp();
        if node.StackOverflow? {
          return;
        }
        var close := NextIs(')');
        if !close {
          index := start;
          return Null;
        }
        var _ := Get();
      } else {
        node := SingleEscapedChar();
        if node.Null? {
          node := SingleChar();
        }
        if node.Null? {
          index := start;
          return Null;
        }
      }
    }

    method CharClass() returns (node: Parsed)
      requires Valid()
      modifies this
      ensures At(node, index) == ParseCharClass(expression, old(index))
    {
      var start := index;
      var negated := false;
      var caret := NextIs('^');
      if caret {
        var _ := Get();
        negated := true;
      }
      node := CharRangesOrSingles();
      if node.StackOverflow? {
        return;
      }
      if node.Null? {
        index := start;
        return Null;
      }
      if negated {
        node := Tree(Negation(node.node));
      }
    }

    /** `charRangesOrSingles`. At or past the end of the pattern the source
        recurses until the stack overflows; this method reports that outcome
        at once (see `ParserSpec.ParseCharRangesOrSingles`). */
    method CharRangesOrSingles() returns (node: Parsed)
      requires Valid()
      modifies this
      ensures At(node, index) == ParseCharRangesOrSingles(expression, old(index))
      decreases expLen - index
    {
      var start := index;
      var more := HasMore();
      if !more {
        return StackOverflow;
      }
      node := CharRange();
      if node.Null? {
        node := SingleEscapedChar();
      }
      if node.Null? {
        node := SingleChar();
      }
      if node.Null? {
        index := start;
        return Null;
      }
      var node2 := CharRangesOrSingles();
      if node2.StackOverflow? {
        return node2;
      }
      if node2.Tree? {
        node := Tree(CharList(node.node, node2.node));
      }
    }

    method CharRange() returns (node: Parsed)
      requires Valid()
      modifies this
      ensures At(node, index) == ParseCharRange(expression, old(index))
    {
      var start := index;
      var char1 := SingleChar();
      if char1.Null? {
        return Null;
      }
      var dash := NextIs('-');
      if !dash {
        index := start;
        return Null;
      }
      var _ := Get();
      var char2 := SingleChar();
      if char2.Null? {
        index := start;
        return Null;
      }
      node := Tree(Node.CharRange(char1.node.ch, char2.node.ch));
    }

    method SingleChar() returns (node: Parsed)
      requires Valid()
      modifies this
      ensures At(node, index) == ParseSingleChar(expression, old(index))
    {
      var next := Peek();
      if next.Chr? && next.c in Disallowed {
        node := Null;
      } else {
        var c := Get();
        node := Tree(Single(c));
      }
    }

    method SingleEscapedChar() returns (node: Parsed)
      requires Valid()
      modifies this
      ensures At(node, index) == ParseSingleEscapedChar(expression, old(index))
    {
      var start := index;
      var next := Peek();
      if next != Chr('\\') {
        return Null;
      }
      var _ := Get();
      var more := HasMore();
      if !more {
        index := start;
        return Null;
      }
      var c := Get();
      node := Tree(Escaped(c.c));
    }
  }
}
