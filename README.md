# regexp.js in Dafny

A model of `regexp.js`, a small regular-expression engine in three stages,
and proofs about it:

1. **Parser.** `RegExpParser` is a recursive-descent parser whose cursor
   field `index` walks the pattern. It builds an AST of `UnionNode`,
   `SequenceNode`, `ApplyOpsNode`, character classes and single
   characters, or returns `null`.
   - Module `ParserSpec` states each production as a function of the
     pattern and the cursor.
   - Class `Parser.RegExpParser` runs the same productions on its `index`
     field. Each method is proved to return and leave behind exactly what
     its function says.
2. **Thompson compiler.** The `toNFA` methods of the AST classes build an
   `[entry, exit]` pair of `NFANode`s by appending transitions with `on`.
   - The nodes live in an arena: node `u` is `nodes[u]`, its list of
     `(label, target)` edges in `on` order. `Graph.Keys`, `Graph.Targets`
     and `Graph.ObjectKeys` recover the source's transition object from it.
   - `Thompson.Build` is the functional specification.
   - Class `Nfa.Arena` compiles in place, and each of its methods is proved
     to leave exactly the arena `Build` describes.
   - `Lang` gives every AST node an independent meaning as a regular
     expression. `ThompsonProof.BuildCorrect` proves that the fragment
     accepts exactly the words of that expression.
   - `Nfa.Arena.NumberNodes` numbers the nodes depth first from 1, as
     `processNode` does, and is proved to give distinct ids to every node
     reachable from the entry.
3. **Search.** `addNode`, `addMatches`, `searchNFA` and `search` run
   Thompson's two-queue simulation.
   - `Search.SearchNfa` is proved to report, in increasing order, exactly
     the positions `p` in `-1..|str|-1` whose prefix `str[..p+1]` leads
     from the entry to the final node.
   - `Search.RunSearch` composes parse, compile, number and search, as
     test.js drives them. Its contract says the result lists exactly the
     prefixes of the subject that the pattern's expression matches.

Beyond the end-to-end theorem the model proves:
- what every character list expands to;
- that no compiled edge reads `.`, so nothing is reported at or past a
  `.` in the subject;
- the exact ε-edges each operator adds;
- the cursor discipline of the parser;
- that a queue never holds more nodes than the arena has.

Where this model departs from the source, or the source from its own
evident intent, it says so below.
- The source's `*` and `?` put their bypass edge on the wrong pair of
  nodes. This is recorded under Findings, and the model uses the corrected
  wiring.
- The engine has no capture groups, no leftmost-longest selection and no
  subset construction; an empty fragment has no edge (regexp.js:53-57).

## Model

| member | source | states |
|---|---|---|
| Ast.AllChars | regexp.js:216-222 | `allChars` is the 256 characters with codes 0 to 255, in code order |
| Ast.FillAllChars | regexp.js:218-222 | the loop that fills `allChars` leaves exactly codes 0-255 in order, and a symbol is in it iff it is a character of the 0-255 alphabet |
| Ast.Difference | regexp.js:255 | `_.difference(a, b)` holds exactly the elements of `a` that are not in `b`, and is no longer than `a` |
| Ast.DifferenceDistinct | regexp.js:255 | the difference of a list without repetitions has no repetitions |
| Ast.PushCodes | regexp.js:175-177 | the range loop pushes every code from `lo` to `hi`, in increasing order |
| Ast.CodesFromMembers | regexp.js:175-177 | the codes pushed are exactly those between the bounds, in increasing order |
| Ast.RangeCharListSpec | regexp.js:168-187 | a range whose ends are both lower-fixed or both upper-fixed throws `RangeOutOfOrder` iff `lo > hi`, and otherwise lists exactly the codes `lo..hi` in increasing order; a range with ends of mixed case yields the empty list |
| Ast.RangeWithPhantomBound | regexp.js:163-171 | a range bound read past the end of the pattern (`undefined`) makes `toLowerCase` throw a `TypeError`; no parse reaches this, since such a bound only arises where `charRangesOrSingles` has run past the end and overflows (`ParserSpec.ClassItemPastEnd`) |
| Ast.EscapedCharListSpec | regexp.js:229-243 | `\s` is `\n`, space, `\t`, `\0`; any other escape but `\S` is the character itself |
| Ast.NonSpaceCharListSpec | regexp.js:235-237 | `\S` holds exactly the alphabet codes that are not whitespace |
| Ast.DotCharsSpec | regexp.js:197-202 | `.` expands to 255 distinct codes: every alphabet code except `.` |
| Ast.SingleCharListShape | regexp.js:197-212 | a character's list has length 1 iff it is not `.`, is then the character itself, and never contains `.` |
| Ast.NegatedCharListSpec | regexp.js:254-257 | a negated class throws what its class throws; otherwise its list holds exactly the alphabet codes outside the class's list |
| Thompson.LabelOf | regexp.js:12-13 | an edge is filed under ε exactly when its character is the phantom `undefined` or the pattern character `ɛ`, the `epsilon` key itself |
| Graph.On | regexp.js:12-19 | `on` appends one edge to node `u` and changes no other node |
| Graph.OnSpec | regexp.js:12-19 | `Keys` and `Targets` unfolded over one appended edge: the target goes onto its own label's array, every other array stays, and the label becomes a new key only the first time it is used |
| Graph.KeysSpec | regexp.js:14-16 | a node's keys are distinct and are exactly the labels of its edges |
| Graph.TargetsSpec | regexp.js:17 | a target is stored under a label iff an edge with that label leads to it |
| Graph.ObjectKeysSpec | regexp.js:499 | `Object.keys` (index-like keys first) lists every label of a node exactly once |
| Lang.PlainListMatches | regexp.js:132-143 | a list of ordinary characters other than `.` accepts exactly the one-character words it lists |
| Lang.DotMeansDotChars | regexp.js:197-200 | `.` and its 255-code expansion accept the same words |
| Lang.ListWithDotAcceptsAllButDot | regexp.js:197-200 | any list containing `.` accepts every alphabet code except `.` |
| Lang.MatchesHasNoDot | regexp.js:196-213 | no word any pattern accepts contains `.` |
| Thompson.Fresh2 | regexp.js:35-36 | allocating `lhs` and `rhs` appends two nodes without transitions and keeps the old ones |
| Thompson.UnionFrag | regexp.js:34-45 | the union leaves every node that existed before the operands untouched, appends at least two nodes, and returns a pair among the new ones |
| Thompson.SequenceFrag | regexp.js:65-71 | the sequence leaves every node that existed before its operands untouched, and its pair lies among the new nodes |
| Thompson.ApplyQuant | regexp.js:100-123 | (corrected) one quantifier appends exactly two nodes, returns them as its pair, and leaves every node below the inner exit unchanged |
| Thompson.ApplyQuants | regexp.js:124-128 | (corrected) a chain of quantifiers returns a pair of new nodes and leaves the nodes below the inner exit unchanged |
| Thompson.OpsFrag | regexp.js:80-82 | applying the operators leaves every node that existed before the operand untouched, and its pair lies among the new nodes |
| Thompson.Build | regexp.js:34-257 | whatever `toNFA` builds leaves every node that existed before untouched, appends at least two nodes, and its pair lies among the new ones |
| Thompson.SingleFrag | regexp.js:203-213 | `SingleChar.toNFA` leaves every node that existed before untouched, and its pair lies among the new nodes |
| Thompson.ListFrag | regexp.js:132-143 | `NFANodeFromCharList` leaves every node that existed before untouched, and its pair lies among the new nodes |
| ThompsonProof.EmptyAcceptsNothing | regexp.js:53-57 | the fragment of `EmptyNode` (and of an empty list, regexp.js:134-135) accepts no word at all, not even the empty one |
| ThompsonProof.CharFragCorrect | regexp.js:205-209 | a one-edge fragment accepts exactly the one-character words of its character; for the phantom character and the pattern character `ɛ`, whose edge is filed under ε, exactly the empty word |
| ThompsonProof.UnionWiring | regexp.js:34-45 | the union adds exactly four ε-edges: new entry to both operand entries, both operand exits to the new exit; no other node changes |
| ThompsonProof.UnionCorrect | regexp.js:34-45 | the union fragment accepts exactly the words of either operand |
| ThompsonProof.SequenceWiring | regexp.js:65-71 | the sequence adds exactly one ε-edge, from the first exit to the second entry; no other node changes |
| ThompsonProof.SequenceCorrect | regexp.js:65-71 | the sequence accepts exactly a word of the first operand followed by a word of the second |
| ThompsonProof.QuantWiring | regexp.js:100-119 | (corrected) each quantifier adds inner exit → new exit; `*`: new entry → new exit and → inner entry, new exit → new entry; `+` the same without the bypass; `?` without the loop-back; no other node changes |
| ThompsonProof.StarLang | regexp.js:103-109 | (corrected) the `*` wiring accepts exactly the concatenations of zero or more body words |
| ThompsonProof.PlusLang | regexp.js:110-114 | the `+` wiring accepts exactly the concatenations of one or more body words |
| ThompsonProof.OptLang | regexp.js:115-118 | (corrected) the `?` wiring accepts exactly the empty word and the body words |
| ThompsonProof.QuantCorrect | regexp.js:100-123 | (corrected) one quantifier keeps the fragment's region closed and accepts exactly the quantified language |
| ThompsonProof.QuantsCorrect | regexp.js:124-128 | (corrected) stacked quantifiers apply left to right: the result accepts the body quantified by each operator in order |
| ThompsonProof.LeftUnionMeaning | regexp.js:137-142 | the left-nested union built from a list accepts exactly the words of one listed character |
| ThompsonProof.SingleFragCorrect | regexp.js:203-213 | a single character compiles without error to a fragment that accepts exactly the words of its list |
| ThompsonProof.ListFragCorrect | regexp.js:132-143 | a list compiles without error to a fragment that accepts exactly the words of one of its members |
| ThompsonProof.BuildCorrect | regexp.js:34-257 | `toNFA` throws exactly when the AST's meaning is an error, with the same error; otherwise its closed fragment accepts exactly the words of that meaning |
| DotEdges.BuildNoDot | regexp.js:132-143 | compiling any AST onto an arena without `.` edges adds no `.` edge |
| DotEdges.CompiledNoDot | regexp.js:196-213 | the automaton `toNFA` builds for any pattern has no transition labelled `.` |
| ParserSpec.ParseSingleChar | regexp.js:465-473 | `singleChar` fails, without moving, iff the character under the cursor is one of the eight it refuses (backslash, parentheses, brackets, bar, caret, dollar); otherwise it consumes exactly one character and returns it as a `SingleChar`, and past the end it reads the phantom `undefined` |
| ParserSpec.ParseSingleEscapedChar | regexp.js:474-486 | `singleEscapedChar` succeeds iff a backslash is followed by a character, consuming both; otherwise it does not move |
| ParserSpec.ParseCharRange | regexp.js:447-464 | `charRange` succeeds iff an accepted character is followed by `-` and the character after that (or the phantom past the end) is accepted too; it then consumes exactly those three and returns the range between the first and the third; otherwise it fails without moving and never overflows |
| ParserSpec.ClassItemPastEnd | regexp.js:430-436 | at or past the end of the pattern a class item always parses, as the phantom character |
| ParserSpec.ParseCharRangesOrSingles | regexp.js:428-446 | `charRangesOrSingles` fails without moving; it succeeds moving forward within the pattern; and when started at or past the end it recurses forever (the `StackOverflow` outcome) |
| ParserSpec.ParseCharClass | regexp.js:410-427 | `charClass` fails without moving and succeeds moving forward within the pattern |
| ParserSpec.ParseRegexpOp | regexp.js:339-368 | `regexpOp` returns no operator iff the next character is not `*`, `+` or `?`, without moving; otherwise it consumes the whole run of `*`, `+` and `?`, stops at the first other character or the end, and returns their operators in order (`Ast.OpList`) |
| ParserSpec.ParseRegexpBasic | regexp.js:369-409 | `regexpBasic` fails without moving, except on `[]` and `()`, where it fails having consumed both characters; a success moves forward |
| ParserSpec.ParseRegexpNoConcat | regexp.js:323-338 | `regexpNoConcat` fails without moving and succeeds moving forward |
| ParserSpec.ParseRegexpNoUnion | regexp.js:301-322 | `regexpNoUnion` fails without moving and never moves backwards |
| ParserSpec.ParseRegexp | regexp.js:277-300 | `regexp` fails without moving and never moves backwards |
| ParserSpec.NoUnionStopsAtNonAtom | regexp.js:312-318 | a concatenation that stops inside the pattern stops where no atom starts |
| ParserSpec.NoAtomAtRefused | regexp.js:369-409 | no atom starts at a position only when the character there is one `singleChar` refuses |
| ParserSpec.ParseStopsAtRefused | regexp.js:284-296 | `parse` may stop early, but only at a refused character other than the bar, and without error |
| Parser.RegExpParser.constructor | regexp.js:22-27 | a new parser holds the pattern with its cursor at 0 |
| Parser.RegExpParser.Peek | regexp.js:261-263 | `peek` reads the character under the cursor, `undefined` past the end |
| Parser.RegExpParser.HasMore | regexp.js:264-266 | `hasMore` is true iff the cursor is inside the pattern |
| Parser.RegExpParser.NextIs | regexp.js:267-269 | `nextIs` is true iff the cursor is inside the pattern on that character |
| Parser.RegExpParser.Get | regexp.js:270-272 | `get` returns the character under the cursor and advances it by one |
| Parser.RegExpParser.Parse | regexp.js:273-276 | `parse` returns, and leaves the cursor at, what the grammar gives from position 0 |
| Parser.RegExpParser.Regexp | regexp.js:277-300 | the method returns and leaves the cursor exactly as `ParseRegexp` says |
| Parser.RegExpParser.RegexpNoUnion | regexp.js:301-322 | the method returns and leaves the cursor exactly as `ParseRegexpNoUnion` says |
| Parser.RegExpParser.RegexpNoConcat | regexp.js:323-338 | the method returns and leaves the cursor exactly as `ParseRegexpNoConcat` says |
| Parser.RegExpParser.RegexpOp | regexp.js:339-368 | the method returns and leaves the cursor exactly as `ParseRegexpOp` says |
| Parser.RegExpParser.RegexpBasic | regexp.js:369-409 | the method returns and leaves the cursor exactly as `ParseRegexpBasic` says |
| Parser.RegExpParser.CharClass | regexp.js:410-427 | the method returns and leaves the cursor exactly as `ParseCharClass` says |
| Parser.RegExpParser.CharRangesOrSingles | regexp.js:428-446 | the method returns and leaves the cursor exactly as `ParseCharRangesOrSingles` says |
| Parser.RegExpParser.CharRange | regexp.js:447-464 | the method returns and leaves the cursor exactly as `ParseCharRange` says |
| Parser.RegExpParser.SingleChar | regexp.js:465-473 | the method returns and leaves the cursor exactly as `ParseSingleChar` says |
| Parser.RegExpParser.SingleEscapedChar | regexp.js:474-486 | the method returns and leaves the cursor exactly as `ParseSingleEscapedChar` says |
| Nfa.Arena.NewNode | regexp.js:7-9 | `new NFANode()` appends one node without transitions |
| Nfa.Arena.On | regexp.js:12-19 | the arena after `on` is `Graph.On` of the arena before; ids and final flags are unchanged |
| Nfa.Arena.NewPair | regexp.js:35-36 | allocating `lhs` and `rhs` appends two empty nodes and returns their indexes |
| Nfa.Arena.SetFinal | regexp.js:521 | `isFinal = true` adds the node to the final nodes and changes nothing else |
| Nfa.Arena.Compile | regexp.js:34-257 | compiling in place leaves exactly the arena and fragment `Build` describes, or its error |
| Nfa.Arena.CompileUnion | regexp.js:34-45 | in place, `UnionNode.toNFA` leaves exactly what `Build` describes for the union |
| Nfa.Arena.CompileSequence | regexp.js:65-71 | in place, `SequenceNode.toNFA` leaves exactly what `Build` describes for the sequence |
| Nfa.Arena.CompileApplyOps | regexp.js:80-82 | in place, `ApplyOpsNode.toNFA` leaves exactly what `Build` describes |
| Nfa.Arena.CompileNegation | regexp.js:254-257 | in place, `NegationNode.toNFA` compiles the complement list as `Build` describes |
| Nfa.Arena.CompileClass | regexp.js:157-159 | in place, the class nodes (also regexp.js:188-190, 244-247) compile their list as `Build` describes, or throw its error |
| Nfa.Arena.CompileSingle | regexp.js:203-213 | in place, `SingleChar.toNFA` leaves exactly what `SingleFrag` describes |
| Nfa.Arena.CompileList | regexp.js:132-143 | in place, the loop of `NFANodeFromCharList` leaves exactly what `ListFrag` describes |
| Nfa.Arena.CompileOp | regexp.js:100-123 | (corrected) in place, one operator leaves exactly the arena and pair of `ApplyQuant` |
| Nfa.Arena.CompileOps | regexp.js:88-93 | (corrected) in place, an operator chain (also regexp.js:124-128) leaves exactly what `ApplyQuants` describes |
| Nfa.Arena.ProcessNode | regexp.js:494-507 | `processNode` numbers `u`, keeps every id once set, hands out new ids from the counter, and leaves every numbered node off the stack with numbered successors |
| Nfa.Arena.VisitKey | regexp.js:500-505 | walking one key numbers every target stored under it |
| Nfa.Arena.NumberNodes | regexp.js:509-514 | numbering from `nodeNum` gives distinct ids in `nodeNum..next-1`, numbers the entry and the exit, and leaves no numbered node with an unnumbered successor |
| Nfa.NumberingBound | regexp.js:494-514 | no more ids are handed out than the arena has nodes |
| Nfa.NumberingIdentifies | regexp.js:520 | numbering from 1 gives distinct ids between 1 and the number of nodes, closed under edges |
| Nfa.IdentifiedReach | regexp.js:494-507 | every node reachable from a numbered node is numbered, despite the cycles of `*` and `+` |
| Nfa.NfaOfCorrect | regexp.js:517-519 | the automaton of a pattern that parses throws exactly when its meaning is an error; otherwise its fragment accepts exactly the words of that meaning and all its edges stay in the arena |
| Nfa.RegExpNfa.constructor | regexp.js:489-492 | a new `RegExpNFA` holds a fresh parser of the pattern and no NFA yet |
| Nfa.RegExpNfa.ToNfa | regexp.js:517-523 | `toNFA` throws exactly what parsing and compiling throw; otherwise it leaves the compiled arena with only the exit final and the nodes reachable from the entry numbered 1 upwards |
| Search.AddNode | regexp.js:581-593 | `addNode` adds `u` and every node ε-reachable from it, each at most once, only appends to the queue, and keeps queue and `addedNodes` in step |
| Search.QueueBound | regexp.js:581-593 | since a node enters a queue at most once, a queue never holds more nodes than the arena has |
| Search.StepNode | regexp.js:623-627 | following the edges of one node on `c` adds each target and its ε-closure |
| Search.Advance | regexp.js:621-628 | the inner loop adds, for every queued node, every target of its `c`-edges |
| Search.FrontNext | regexp.js:619-628 | after one step, the other queue holds exactly the nodes reachable from the entry reading the prefix one character longer |
| Search.FrontStart | regexp.js:616 | after the first `addNode` the queue holds exactly the ε-closure of the entry |
| Search.FrontEpsClosed | regexp.js:587-592 | the nodes reachable reading `w` are closed under ε-edges |
| Search.AddMatches | regexp.js:595-601 | `addMatches` pushes `i` once for every filled `addedNodes` entry holding a final node |
| Search.HitsSingle | regexp.js:595-601 | with one final node, `addMatches` pushes `i` exactly once if that node is queued, else not at all |
| Search.Reported | regexp.js:617 | once the queue holds the nodes reachable reading `w`, `addMatches` pushes `i` iff the final node is reachable reading `w` (also regexp.js:629) |
| Search.StartQueue | regexp.js:616 | the first `addNode` on an empty queue leaves the ε-closure of the entry in it |
| Search.Start | regexp.js:614-617 | the start reports -1 iff the empty word leads from the entry to the final node |
| Search.Round | regexp.js:619-631 | one round fills the other queue with the nodes reachable reading `str[..i+1]` and reports `i` iff the final node is among them |
| Search.EndsSpec | regexp.js:608-632 | the positions expected after `k` rounds are strictly increasing and are exactly the `p` in `-1..k-2` whose prefix `str[..p+1]` is read from entry to exit |
| Search.SearchNfa | regexp.js:608-633 | `searchNFA` reports exactly the expected positions, in order |
| Search.Search | regexp.js:635-641 | `search` reports exactly the expected positions for the NFA's entry and final node |
| Search.EndsMatch | regexp.js:608-641 | on a fragment for `r`, the positions are strictly increasing, are exactly those whose prefix `r` matches, and none of those prefixes contains `.` |
| Search.RunSearch | test.js:3-9 | building an NFA for a pattern and searching a subject fails exactly when `toNFA` throws, with its error; otherwise it returns, strictly increasing, exactly the positions `p`, from -1 to one before the subject's length, at which the pattern's expression matches `str[..p+1]` |
| Examples.StarOnEmpty | test.js:18-20 | `a*` on the empty subject reports exactly `[-1]` |
| Examples.OptCParses | test.js:37-40 | the pattern `c?c` parses as `c?` followed by `c` |
| Examples.OptCMeaning | test.js:37-40 | `c?c` matches `c` but not the empty word |
| Examples.OptionalPrefix | test.js:37-40 | for `c?c` on `c`, any result meeting the search's contract is `[0]` |
| Examples.EpsilonOnEmpty | regexp.js:5-13 | the pattern `ɛ` is the ε key itself, so searching it in the empty subject reports exactly `[-1]` |
| Examples.AltKleeneParses | test.js:32-35 | the pattern `(a|(bc))*` parses as a star over the union of `a` and `bc` |
| Examples.AltKleeneMeaning | test.js:32-35 | `(a|(bc))*` matches the prefixes of `abc` of length 0, 1 and 3, and not the one of length 2 |
| Examples.AlternationKleene | test.js:32-35 | for `(a|(bc))*` on `abc`, any result meeting the search's contract is `[-1, 0, 2]` |
| Findings.ApplyQuantAsWritten | regexp.js:100-123 | as written, `*` and `?` put an ε-edge from the inner entry to the inner exit, while `+` leaves the inner entry untouched |
| Findings.QuantWiringAsWritten | regexp.js:100-119 | as written, each quantifier adds inner exit → new exit; `*` and `?` also inner entry → inner exit (`+` instead leaves the inner entry alone); new entry → inner entry; `*` and `+` new exit → new entry; no other old node changes |
| Findings.AStarBStarParses | regexp.js:277-409 | `(a*b)*` parses as a star over `a*` followed by `b` |
| Findings.AStarBStarAsWrittenGraph | regexp.js:100-123 | as written, `(a*b)*` compiles to the eight-node arena `AsWrittenArena` |
| Findings.AsWrittenAcceptsA | regexp.js:103-108 | as written, the automaton of `(a*b)*` reads `a` from its entry to its exit |
| Findings.AStarBStarRejectsA | regexp.js:103-108 | `a` is not a word of `(a*b)*` |
| Findings.CorrectedRejectsA | regexp.js:103-108 | with the bypass between the new pair, the automaton of `(a*b)*` does not read `a` from entry to exit |

## Left out

- `RegExpNFA.toDot` and `resetIndexes` (regexp.js:524-569) render
  Graphviz text. They are not modelled, and neither is the `index` field
  they and `search` write (regexp.js:637-638); the matcher never reads it.
- The `console.log` at regexp.js:125 and the message text built with
  `util.format` are not modelled. The throws at regexp.js:173 and 180
  become the error `RangeOutOfOrder`.
- The `default` throw at regexp.js:121 is unreachable: the parser only
  builds the three operators. `Quant` has exactly those three.
- Search.RunSearch, Search.SearchNfa: ε is a distinct label `Eps`. A
  pattern character `ɛ` is filed under it, as in the source
  (`Thompson.LabelOf`, `Lang.SymMatches`). A subject character `ɛ` is not:
  the source reads `transitions['ɛ']` for it (regexp.js:623) and so
  follows ε-edges, where the model follows no edge.
- Characters are Dafny `char`s, not UTF-16 code units.
  - The alphabet of `\S`, `[^...]` and `.` is codes 0-255, as in the
    source.
  - `toLowerCase`/`toUpperCase` are modelled only as "this character is
    unchanged", which is all the range check uses.
  - The comparison `lhs > rhs` is by code.
- Ast.PushCodes: codes D800-DFFF (UTF-16 surrogates) are not Dafny
  characters, so a range spanning them skips them, where the source would
  push lone surrogates.
- Ast.RangeCharListSpec: the case tests `LowerFixed`/`UpperFixed` cover
  ASCII and Latin-1 letters and the characters JavaScript maps within
  that range. Other scripts are treated as caseless.
- An unterminated class such as `[a` makes `charRangesOrSingles` recurse
  forever in the source (regexp.js:428-446), and the engine throws a
  `RangeError`. The model ends that recursion with the outcome
  `StackOverflow` and the error `StackExceeded`. The termination measures
  (cursor distance, `Thompson.Weight`) are the model's own.
- A `null` parse makes `toNFA` call a method of `null` (regexp.js:518-519).
  The model returns the error `TypeError` there instead of ruling such
  patterns out by a precondition.
- Arrays of the search (`q1`, `q2`, `addedNodes`, `matches`) are modelled
  as values.
  - The method results are threaded through rather than updated in
    place, so aliasing between `q` and `q1`/`q2` is not modelled.
  - `splice(0)` becomes an empty queue.
  - `addedNodes` is a map from id to node index, visited in index order.
- Search.SearchNfa: assumes what `toNFA` guarantees, namely a single final
  node, ids from `numberNodes`, and edges inside the arena. It does not
  model searching an arbitrary hand-built NFA.
- Nfa.Arena.Compile: when compilation throws, the contract states only
  the error, not the partly built arena. Nothing uses the arena after a
  throw.
- Nfa.Arena.ProcessNode: requires numbering to start at 1 or above. A
  start of 0 would be read as "no id" by `if (node.id)`, and `toNFA` always
  starts at 1.
- Thompson.UnionFrag, Thompson.SequenceFrag, Thompson.OpsFrag,
  Thompson.Build, Thompson.SingleFrag, Thompson.ListFrag,
  Thompson.ApplyQuant and Thompson.ApplyQuants: their own
  contracts state only the arena discipline. The exact edges are in
  `ThompsonProof.UnionWiring`, `SequenceWiring` and `QuantWiring`, and the
  languages in `ThompsonProof.BuildCorrect`.
- Thompson.ApplyQuant, Thompson.ApplyQuants, ThompsonProof.QuantWiring,
  ThompsonProof.StarLang, ThompsonProof.OptLang, ThompsonProof.QuantCorrect,
  ThompsonProof.QuantsCorrect, Nfa.Arena.CompileOp, Nfa.Arena.CompileOps:
  model the corrected wiring, with the bypass of `*` and `?` between the
  two new nodes, not the edge regexp.js:105 and 116 add as written. Through
  them `Thompson.Build`, `ThompsonProof.BuildCorrect`, `Nfa.NfaOfCorrect`,
  `Nfa.RegExpNfa.ToNfa` and `Search.RunSearch` describe the corrected
  engine too, so on patterns such as `(a*b)*` the source's results differ
  from theirs (see Findings). The edges as written are stated by
  `Findings.ApplyQuantAsWritten` and `Findings.QuantWiringAsWritten`.
- Examples.OptionalPrefix, Examples.AlternationKleene: state the test.js
  expectations for `c?c` and `(a|(bc))*` over the contract of
  `Search.RunSearch`, not over a call.
- The other test.js expectations (test.js:15, 24, 29, 45) are not proved
  case by case.
  - `[0-3]+` on `101234` (test.js:24) would need a parse of a class range,
    the expansion of that range and a language argument over six prefixes
    under `+`. What it relies on is stated by `Ast.RangeCharListSpec`,
    `ThompsonProof.PlusLang` and `Search.EndsMatch`.
  - The `.` cases build a 255-way union; what they rely on is stated by
    `Lang.ListWithDotAcceptsAllButDot` and `Search.EndsMatch`.
  - The pathological `c?`×20 case relies on `Search.QueueBound`.
- main.js, benchmark.js and visualize.js are not part of this model.
  - main.js is an unreferenced earlier draft.
  - benchmark.js is a timing harness built on third-party packages.
  - visualize.js is a command-line front end calling a `RegExpDFA` that
    regexp.js does not define.
- The test.js harness itself (nodeunit) is not modelled. Only `runTest`'s
  composition is, as `Search.RunSearch`.

## Findings

| source | as written | input that shows it | evidently intended | confidence | as-written member | corrected member |
|---|---|---|---|---|---|---|
| regexp.js:103-118 | `*` and `?` add their bypass ε-edge from the quantified fragment's entry to its exit (`symNodePair[0].on(symNodePair[1])`), so a loop around that fragment can leave it half way | pattern `(a*b)*` on subject `a`: the automaton reads `a` from entry to final node, so `search` reports position 0, though `a` is not a word of `(a*b)*` | the bypass joins the two new nodes (`nodePair[0]` to `nodePair[1]`), so each quantifier's empty-word path stays private to it | not executed | Findings.AsWrittenAcceptsA | Findings.CorrectedRejectsA |
