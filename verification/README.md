# Verified model of the general-purpose layers of a network simulator

This Dafny project models seven self-contained components of the simulator and proves what they are for.

- **Topology** (`Sequences`, `Adjacency`, `ShortestPaths`, `Topology`): a mutable directed graph with an
  index of links on both sides, lookup by bisection, and two single-target shortest-path searches.  The
  classes `Topology`, `Node` and `Link` keep the fields of the original; ghost maps give the link index as
  values.  Both searches are shown to follow one abstract search whose invariant gives optimality.
- **Int128** (`Words`, `Numerals`, `Int128Words`, `Int128Text`, `Int128Numerals`, `Int128`): a 128-bit integer
  in two words.  Bitwise and, or and shifts are defined on numbers, and every operator is related to integers
  modulo 2^128, every text to the places of its digits.
- **PatternMatcher** (`PatternLanguage`, `PatternTokens`, `PatternMatcher`, `PatternCases`,
  `PatternProperties`, `PatternSubstrings`, `PatternSyntax`, `PatternTexts`): the tokenizer and the backtracking
  matcher of glob patterns, against the language of a pattern, and patterns written out and read back.
- **Macho** (`StateTree`, `MachineRuns`, `MachineTraces`, `MachineHistories`, `MachineInits`, `Macho`): the
  engine of a hierarchical state machine.  A state is a value that contains its superstate; a design lists the states,
  their history strategies, which boxes survive, and what init actions request, given everything that
  happened before.
- **DHCP** (`DhcpMessages`, `DhcpServer`, `DhcpClient`, `DhcpAnswers`, `DhcpNetwork`, `DhcpDuties`,
  `DhcpExchange`): client and server of RFC 2131 as objects, each proved against a pure step function, and the steps composed over a
  network that may deliver any message ever sent, at any time, to anybody, any number of times.
- **Lifecycle** (`LifecycleRuns`, `LifecycleTrees`, `Lifecycle`, `NodeStatus`): staged operations over a module
  tree with late answers, and the status of a node.
- **Buffers** (`Reassembly`, `ByteArrayBuffer`): datagram reassembly as in section 3.2 of RFC 791, and a
  chunked byte queue.

Imperative code is modelled by classes and loops whose contracts tie the new state to a function of the old
one; what that function means is stated by the lemmas beside it.

Where the code does not do what it is meant to do, the model follows the code and the exact condition is
proved: the order of two negative 128-bit numbers (`Int128Words.LessIsOrderExactly`), the smallest 128-bit
number as divisor, as dividend and as text (`Int128s.DivisionByMinNeverEnds`, `Int128s.Int128.Div`,
`Int128s.TextRoundTripExactly`), a letter too many as digit (`Int128Text.DigitValueExactly`), weights that fail
an assertion of the shortest-path search (`Topologies.Topology.CalculateWeightedSingleShortestPathsTo`), texts
that are no patterns (`PatternProperties.ErrorsExactly`), a backslash that leaves the next character its special
meaning (`PatternProperties.EscapedCharExactly`), a suffix shortcut that ignores the case mode and the cut
(`PatternCases.IgnoringCaseExactly`, `PatternCases.CuttingExactly`), a DISCOVER that names a leased address
(`DhcpServers.NamedDiscoverExactly`), an acknowledgement that comes before START_DHCP
(`DhcpClients.EarlyBindExactly`, over whole runs `DhcpNetworks.TimersMatchStatesExactly`), lease times out of
order (`DhcpClients.T2FirstExactly`), a span of a set that mixes letters with other
characters when case is ignored (`PatternSubstrings.SpanInAnyCaseExactly`), a fragment that laps over the
reassembled part (`Reassembly.NothingIsLost`), a bounds check that wraps around
(`ByteArrayBuffers.BoundsCheckExactly`).  One promise of
the DHCP client is empty: with lease times in order its lease timer never goes off, because T2 cancels it
(`DhcpClients.TimerKeepsOrder`).  The comment in NodeOperations.h that a crash has one stage disagrees with
its code, which has two; `NodeStatuses` holds for any number of stages.

`dafny verify dfyconfig.toml` verifies the project.

## Model

| member | source | states |
|---|---|---|
| `Topologies.Topology.CalculateWeightedSingleShortestPathsTo` | inet/src/base/Topology.cc:409-467 | the weighted search ends, for any weights. It stops at an assertion if and only if some node from which a walk to the target has a finite cost has a negative weight or a usable in-link of weight 0 or less; otherwise no walk over enabled links with enabled sources is cheaper than the `dist` of its first node (link weights plus the weights of the nodes in between), and following `outPath` from a labelled node reaches the target at exactly that cost. No node is popped twice, and nodes are popped in the order of their final `dist`; a null target is an error |
| `Topologies.Topology.CalculateUnweightedSingleShortestPathsTo` | inet/src/base/Topology.cc:365-407 | the breadth-first search ends with `dist` the fewest links of any walk, reached by following `outPath`, no node popped twice and nodes popped in the order of their `dist`; a null target is an error |
| `Topologies.Topology.SearchesAgree` | inet/src/base/Topology.cc:365-467 | with every link weight 1 and every node weight 0 both searches give the same distances |
| `Topologies.Topology.LabelsAreFewest` | inet/src/base/Topology.cc:389-406 | no walk from a node to the target has fewer links than its `dist`, and the walk along `outPath` has exactly that many |
| `Topologies.Topology.Relax` | inet/src/base/Topology.cc:436-465 | one round over an in-link is exactly one relaxation: disabled links and sources, unaffordable and longer ways change nothing, any other link gives its source the shorter distance, the link as `outPath` and the place behind all nodes that are not farther; a usable link of weight 0 or less fails the assertion with nothing changed |
| `Topologies.Topology.Requeue` | inet/src/base/Topology.cc:453-463 | the removal from and ordered insertion into the work list and the new label are the improving relaxation of the abstract search, and nothing else changes |
| `Topologies.Topology.FirstFarther` | inet/src/base/Topology.cc:459-463 | the insertion point: everything before is not farther, the node at it is farther |
| `Topologies.Topology.Reach` | inet/src/base/Topology.cc:392-404 | one round of the breadth-first scan is exactly one relaxation of the weighted search with unit costs: only a node reached for the first time is labelled, and appending it is the ordered insertion |
| `Topologies.Topology.PopAndScan` | inet/src/base/Topology.cc:428-466 | a pop and the scan of all in-links settle exactly the popped node and change no label of a popped node; it stops exactly at a node of negative weight or with a usable in-link of weight 0 or less |
| `Topologies.PopInOrder` | inet/src/base/Topology.cc:428-431 | the node popped next is behind all popped before, in the order of their distances, and these stay as they are |
| `ShortestPaths.PopKeepsValid` | inet/src/base/Topology.cc:428-431 | the head of the work list has never been popped, is the farthest popped so far, and popping it keeps the invariant |
| `ShortestPaths.PoppedNeverImproves` | inet/src/base/Topology.cc:451-454 | a node that improves has never been popped and is not the target, and a labelled one is in the work list, as the comment in the code says |
| `ShortestPaths.RelaxationKeepsValid` | inet/src/base/Topology.cc:436-465 | every relaxation of a link of the node just popped keeps the search invariant and the labels of all popped nodes |
| `ShortestPaths.ImproveKeepsValid` | inet/src/base/Topology.cc:451-464 | relaxing a link of the node just popped keeps labels justified and the work list sorted and duplicate-free |
| `ShortestPaths.SkipKeepsValid` | inet/src/base/Topology.cc:438-451 | a link that brings no improvement leaves the invariant with unchanged labels |
| `ShortestPaths.InsertKeepsOrder` | inet/src/base/Topology.cc:458-463 | insertion before the first farther node keeps a sorted duplicate-free list sorted and duplicate-free |
| `ShortestPaths.NoWalkIsCheaper` | inet/src/base/Topology.cc:409-467 | when the work list is empty, every walk costs at least the label of its first node |
| `ShortestPaths.OutWalkCostsDist` | inet/src/base/Topology.cc:455-456 | the walk along `outPath` is a walk to the target and costs exactly the label |
| `ShortestPaths.OutLeadsNearer` | inet/src/base/Topology.cc:455-456 | every step along `outPath` strictly shrinks the set of nearer nodes, so following it ends |
| `ShortestPaths.FinishedIsFair` | inet/src/base/Topology.cc:433-446 | a search that ran to its end has met no violated assertion anywhere the target is reached at a finite cost |
| `ShortestPaths.UnfairIsReached` | inet/src/base/Topology.cc:433-446 | a node at which an assertion fails has a walk of finite cost to the target |
| `ShortestPaths.FinishedSearchesAgree` | inet/src/base/Topology.cc:365-467 | the labels of a finished search are determined by the graph alone, whatever the order of links and nodes |
| `ShortestPaths.AppendIsImprove` | inet/src/base/Topology.cc:399-404 | in the breadth-first search, labelling a fresh node and appending it is a relaxation of the weighted search with unit costs |
| `ShortestPaths.LevelIsFlat` | inet/src/base/Topology.cc:384-406 | between two pops of the breadth-first search no queued node is more than one link farther than another |
| `ShortestPaths.UnitCostIsLength` | inet/src/base/Topology.cc:365-407 | with unit costs the cost of a walk is its number of links |
| `Topologies.Topology.AddNode` | inet/src/base/Topology.cc:240-255 | keeps the nodes sorted by unsigned module id: of ids that are not negative the smaller one first, negative ones behind all others; nodes without id go to the end, others before the first one not smaller; the link index stays whole if and only if the node brings no links |
| `Topologies.Topology.GetNodeFor` | inet/src/base/Topology.cc:356-363 | bisection finds a node exactly when one with that module id is present, and then the first such node |
| `Topologies.LowerBound` | inet/src/base/Topology.h:338-339 | `std::lower_bound` by unsigned module id: all smaller before, none smaller behind |
| `Topologies.Topology.AddLink` | inet/src/base/Topology.cc:283-300 | connects a new link or reconnects one of the graph, self-loops included: afterwards it stands once in each of its two lists, all other entries keep their order, gate ids are reset exactly where the end changed |
| `Topologies.Topology.DeleteLink` | inet/src/base/Topology.cc:325-330 | takes the link out of both lists and nothing else |
| `Topologies.Topology.DeleteNode` | inet/src/base/Topology.cc:257-281 | takes out the node and exactly the links that touch it, on both of their sides, self-loops and parallel links included |
| `Topologies.Topology.TouchingIsIncident` | inet/src/base/Topology.cc:257-275 | the links that go with a deleted node are exactly those that start or end there |
| `Topologies.Topology.UnlinkFromSourceNode` | inet/src/base/Topology.cc:332-338 | erases the link from the out-list of its source, order kept |
| `Topologies.Topology.UnlinkFromDestNode` | inet/src/base/Topology.cc:340-346 | erases the link from the in-list of its destination, order kept |
| `Topologies.Topology.UnlinkOutgoing` | inet/src/base/Topology.cc:259-265 | removes the outgoing links of a node from all lists |
| `Topologies.Topology.UnlinkIncoming` | inet/src/base/Topology.cc:267-273 | removes the incoming links of a node from all lists |
| `Adjacency.DropKeepsIndexed` | inet/src/base/Topology.cc:257-281 | dropping a set of links from every list keeps each remaining link once in the list of its end |
| `Adjacency.AppendKeepsIndexed` | inet/src/base/Topology.cc:296-299 | appending a new link to the list of its end keeps the index |
| `Int128Words.AddIsAddition` | inet/src/util/int128.cc:209-219 | the carry from the low to the high word makes += addition modulo 2^128 |
| `Int128Words.NegIsNegation` | inet/src/util/int128.cc:167-173 | unary minus is negation modulo 2^128 |
| `Int128Words.ShlIsMultiplication` | inet/src/util/int128.cc:363-394 | <<= is multiplication by 2^n modulo 2^128, for every n |
| `Int128Words.ShrIsFloorDivision` | inet/src/util/int128.cc:329-361 | >>= is floor division by 2^n, for every n and both signs |
| `Int128Words.BitIsDigit` | inet/src/util/int128.cc:300-309 | bit(n) is binary digit n of the value, the sign beyond digit 127 |
| `Int128Words.SetBitMovesValue` | inet/src/util/int128.cc:311-326 | bit(n, val) moves the value by exactly the change of digit n, modulo 2^128, and beyond digit 127 changes nothing |
| `Int128s.Int128.WriteDigit` | inet/src/util/int128.cc:311-326 | the same of the object itself, for every n |
| `Int128Words.LessIsOrderExactly` | inet/src/util/int128.cc:396-407 | operator< is the order of the values if and only if the two do not share a negative high word with low words on different sides of 2^63 |
| `Int128s.Int128.MulAssign` | inet/src/util/int128.cc:221-243 | shift-and-add multiplication is multiplication modulo 2^128 for every pair of operands |
| `Int128s.MulRound` | inet/src/util/int128.cc:234-240 | one round of the multiplication accounts for one binary digit |
| `Int128s.Int128.Div` | inet/src/util/int128.cc:246-298 | for a divisor that is neither 0 nor -2^127: quotient and remainder are those of truncated division (x = q*d + r, abs(r) < abs(d), r with the sign of x) if and only if the dividend is not -2^127; for that dividend quotient 0 and the dividend as remainder |
| `Int128s.Int128.LongDivide` | inet/src/util/int128.cc:263-289 | the bitwise long division of positive numbers; no shift leaves the signed range and the bit counter stays in range |
| `Int128s.Int128.Align` | inet/src/util/int128.cc:267-274 | the first loop stops with the highest digits of the dividend that reach the divisor, and the counter at their place |
| `Int128s.NextPartial` | inet/src/util/int128.cc:276-285 | bringing down a digit keeps the long-division invariant |
| `Int128s.SubtractPartial` | inet/src/util/int128.cc:286-290 | subtracting the divisor and setting the quotient bit keeps the long-division invariant |
| `Int128s.CorrectSigns` | inet/src/util/int128.cc:292-297 | the sign corrections make a truncated division out of a division of magnitudes |
| `Int128s.TruncatedDivisionUnique` | inet/src/util/int128.cc:246-298 | quotient and remainder are determined |
| `Int128s.DivisionByMinGoesOn` | inet/src/util/int128.cc:246-262 | with divisor -2^127 its magnitude is -2^127 again, and the early return for a small dividend is taken for no dividend |
| `Int128s.DivisionByMinNeverEnds` | inet/src/util/int128.cc:276-290 | with divisor -2^127 the loop of the division never sees a remainder below the divisor, in any round: it does not end |
| `Int128s.RemainderByMinAlternates` | inet/src/util/int128.cc:286-290 | with divisor -2^127 the remainder only alternates between 0 and -2^127 |
| `Int128s.MinIsNoRemainder` | inet/src/util/int128.cc:260-262 | the dividend -2^127, given back as remainder with quotient 0, is not a truncated division by any divisor |
| `Int128s.Int128.AddAssign` | inet/src/util/int128.cc:209-219 | += is addition modulo 2^128, also of an object to itself |
| `Int128s.Int128.SubAssign` | inet/src/util/int128.h:128-131 | -= is subtraction modulo 2^128, also of an object from itself |
| `Int128s.Int128.ShlAssign` | inet/src/util/int128.cc:363-394 | the object is multiplied by 2^n modulo 2^128 |
| `Int128s.Int128.ShrAssign` | inet/src/util/int128.cc:329-361 | the object is floor-divided by 2^n |
| `Int128s.Int128.Negated` | inet/src/util/int128.cc:167-173 | a new object with the negated value |
| `Int128s.Int128.LessThan` | inet/src/util/int128.cc:396-407 | the order of the values whenever one of the two is not negative |
| `Int128s.Int128.LessThanExactly` | inet/src/util/int128.cc:396-407 | operator< of two objects is the order of their values if and only if they do not share a negative high word with low words on different sides of 2^63 |
| `Int128s.Int128.DivAssign` | inet/src/util/int128.h:132-137 | /= leaves the truncated quotient |
| `Int128s.Int128.ModAssign` | inet/src/util/int128.h:138-142 | %= leaves the remainder of the truncated division, written into the dividend itself |
| `Int128s.Int128.ToString` | inet/src/util/int128.cc:37-61 | for every radix from 2 to 37 an optional minus sign and the numeral of the magnitude: digits 0 to 9 and upper-case letters from A on, no leading zero, every digit counting as its place says; "0" for 0 in any radix, "(invalid radix)" outside the radices, "-0" for -2^127 |
| `Int128s.Int128.Set` | inet/src/util/int128.cc:63-112 | the number of the digits by their places in radix 10, 8 behind 0 or 16 behind 0x, up to the first character that is no digit, negated behind a minus sign, modulo 2^128 |
| `Int128Text.DecimalRoundTripExactly` | inet/src/util/int128.cc:37-112 | reading the decimal text gives the value back, but 0 for -2^127 |
| `Int128Text.HexRoundTripExactly` | inet/src/util/int128.cc:37-112 | reading "0x" and the hexadecimal text gives the value back when it is not negative, and 0 otherwise |
| `Int128s.TextRoundTripExactly` | inet/src/util/int128.cc:37-112 | over all 128-bit values: the decimal round trip holds if and only if the value is not -2^127, the hexadecimal one if and only if it is not negative |
| `Int128Text.DigitValueExactly` | inet/src/util/int128.cc:95-102 | the reader takes digits up to the radix, and the letter of value radix itself, for exactly one letter in either case when the radix is at least 10 |
| `Int128Text.DigitsRoundTrip` | inet/src/util/int128.cc:50-55 | the digits written are digits of the radix and read back as the number |
| `Int128Numerals.TextIsNumeral` | inet/src/util/int128.cc:37-61 | for every value but 0 and -2^127 and every radix the text is a numeral without leading zero whose positional value is the magnitude |
| `Int128Numerals.NumeralIsUnique` | inet/src/util/int128.cc:50-55 | a number has only one such numeral in a radix, so the text is determined |
| `Int128Numerals.ReadingIsPositional` | inet/src/util/int128.cc:63-112 | what is read of a text is the positional value of its digits in either case, with the radix of its prefix and its sign |
| `Int128Numerals.EveryTextIsRead` | inet/src/util/int128.cc:71-105 | every text splits into sign, prefix, digits and a rest that begins with no digit |
| `PatternMatchers.PatternMatcher.Matches` | inet/src/util/PatternMatcher.cc:316-342 | case-sensitive: true exactly when the line splits into one piece per element, each in the language of its element; the check of the last two characters changes no answer. Case-insensitive: the same in upper case, but when the pattern ends in ** and a literal the line must also end in the literal as it is written |
| `PatternMatchers.PatternMatcher.DoMatch` | inet/src/util/PatternMatcher.cc:223-314 | the matcher from element k and position s, in either case mode and with any part cut off the last literal, decides exactly the language of the remaining elements, except that the suffix shortcut knows neither of the two |
| `PatternMatchers.PatternMatcher.MatchElem` | inet/src/util/PatternMatcher.cc:232-277 | an element that is no sequence takes the one piece of the line it can take, or there is none |
| `PatternMatchers.PatternMatcher.MatchRest` | inet/src/util/PatternMatcher.cc:278-310 | both ** shortcuts, the backtracking and END decide the language of the rest of the pattern |
| `PatternMatchers.PatternMatcher.Backtrack` | inet/src/util/PatternMatcher.cc:286-305 | trying the rest of the pattern at every place * or ** may reach is complete |
| `PatternCases.IgnoringCaseExactly` | inet/src/util/PatternMatcher.cc:281-284 | case-insensitive matching describes exactly the lines it should if and only if the pattern does not end in ** and a literal with letters, unless it describes no line at all |
| `PatternCases.CaseIsMissed` | inet/src/util/PatternMatcher.cc:283-284 | the pattern **a misses the line A |
| `PatternCases.CuttingExactly` | inet/src/util/PatternMatcher.cc:232-244 | matching without the end of the last literal describes exactly the lines of the cut pattern if and only if the pattern does not end in ** and a literal, unless it describes no line at all |
| `PatternCases.CutIsMissed` | inet/src/util/PatternMatcher.cc:283-284 | the pattern **ab without its last character misses the line a |
| `PatternCases.NewTail` | inet/src/util/PatternMatcher.cc:281-305 | behind ** the last literal of a described line can be exchanged |
| `PatternMatchers.SeqPiece` | inet/src/util/PatternMatcher.cc:287-305 | a sequence element takes nothing or takes one more character it may take |
| `PatternMatchers.NumRangePiece` | inet/src/util/PatternMatcher.cc:269-276 | of all prefixes only the whole maximal run of digits can match a numeric range |
| `PatternMatchers.LastTwo` | inet/src/util/PatternMatcher.cc:328-337 | every line of the language of a pattern with a last literal of two or more characters ends in its last two |
| `PatternMatchers.IsInSet` | inet/src/util/PatternMatcher.cc:209-221 | true exactly when the character, in upper case if case does not matter, lies in one of the ranges |
| `PatternMatchers.ReadNumber` | inet/src/util/PatternMatcher.cc:166-170 | the whole run of digits and its decimal positional value |
| `PatternMatchers.StringEndsWith` | inet/src/util/PatternMatcher.cc:29-34 | true exactly when the rest of the line ends in the text |
| `PatternLanguage.AnySeqEnd` | inet/src/util/PatternMatcher.cc:281-282 | whatever is left matches a trailing ** |
| `PatternLanguage.AnySeqLiteralEnd` | inet/src/util/PatternMatcher.cc:283-284 | ** before a last literal matches exactly the lines that end in it |
| `PatternLanguage.LastLiteralIsSuffix` | inet/src/util/PatternMatcher.cc:321-337 | lines of a pattern with a last literal end in it |
| `PatternMatchers.PatternMatcher.SetPattern` | inet/src/util/PatternMatcher.cc:50-96 | for every text without error the pattern set describes a line if and only if the elements read take the whole line, or, as substring pattern, some part of it with the real rest behind each piece; likewise with literals and set bounds compared in upper case if case does not matter; ends for every text, though a round may consume nothing; a failed parse leaves the elements found so far |
| `PatternMatchers.NextElem` | inet/src/util/PatternMatcher.cc:57-81 | one round of the tokenizer consumes input, or makes a literal where none was |
| `PatternMatchers.ParseNumRange` | inet/src/util/PatternMatcher.cc:156-183 | both bounds, -1 where missing, and the place of the closing character, or nothing |
| `PatternMatchers.ParseLiteralString` | inet/src/util/PatternMatcher.cc:139-154 | the literal with its escapes, stopping at ?, {, * or before a numeric range in brackets |
| `PatternMatchers.ParseSet` | inet/src/util/PatternMatcher.cc:98-137 | the ranges of a set, negated by ^, with } allowed as first character, in upper case if case does not matter; an open set is an error |
| `PatternProperties.SetPatternIsUsable` | inet/src/util/PatternMatcher.cc:50-96 | END stands last and nowhere else and sets hold whole pairs, for every text |
| `PatternSubstrings.CompleteFinds` | inet/src/util/PatternMatcher.cc:81-95 | for all elements: with END behind them they match exactly the lines they split as a whole, with ** added on the sides where none stands exactly the lines of which they split some part |
| `PatternSubstrings.SplitsBetween` | inet/src/util/PatternMatcher.cc:223-314 | a line of two patterns in a row splits between them at some place |
| `PatternSubstrings.StoredTakesAnyCase` | inet/src/util/PatternMatcher.cc:209-249 | an element stored and compared in upper case takes exactly the pieces that match it with case ignored; digits and dots stay what they are |
| `PatternSubstrings.FoundAsSeen` | inet/src/util/PatternMatcher.cc:209-314 | so for whole patterns, in both modes |
| `PatternSubstrings.SpanInAnyCaseExactly` | inet/src/util/PatternMatcher.cc:126-131 | when case is ignored a span of a set keeps all its characters if and only if it does not mix ends before and behind the first lower-case letter, or reaches from A or before to behind z; the code notes that mixed spans are not handled |
| `PatternProperties.NoWildcardsIsPlain` | inet/src/util/PatternMatcher.cc:370-375 | if containsWildcards is false, there is no error, a full-string match is equality and a substring match is containment |
| `PatternProperties.EscapeRoundTrip` | inet/src/util/PatternMatcher.cc:146-149 | a text with a backslash before every character is a pattern that matches exactly the text |
| `PatternProperties.ErrorsExactly` | inet/src/util/PatternMatcher.cc:57-154 | for every text: the tokenizer reports an unmatched brace if and only if, read from left to right, some { without a backslash finds no } behind the first character of its inside; otherwise it stops at a lone backslash if and only if the text ends in an odd number of backslashes; otherwise there is no error |
| `PatternProperties.UnmatchedBraceExactly` | inet/src/util/PatternMatcher.cc:98-137 | the same of unmatched braces from any position on |
| `PatternProperties.EscapedCharExactly` | inet/src/util/PatternMatcher.cc:146-151 | a backslash makes the next character plain text and the literal go on behind it if and only if that is not a [ that opens a numeric range |
| `PatternProperties.EscapedRangeIsARange` | inet/src/util/PatternMatcher.cc:146-151 | in \[1..2] the range stays a numeric range |
| `PatternSyntax.SetIsItsItems` | inet/src/util/PatternMatcher.cc:98-137 | a set written as any list of characters and spans, - and } where they may stand, is read as exactly these |
| `PatternSyntax.SetTakes` | inet/src/util/PatternMatcher.cc:209-221 | it matches one character that belongs to some item, negated one that belongs to none |
| `PatternSyntax.NumRangeIsItsBounds` | inet/src/util/PatternMatcher.cc:156-183 | n..m is read as the two numbers, -1 for each one missing |
| `PatternSyntax.NumberIsDecimal` | inet/src/util/PatternMatcher.cc:156-183 | the number of a run of digits is the sum of its digits times powers of ten |
| `PatternTexts.WrittenPatternMeansItsParts` | inet/src/util/PatternMatcher.h:36-76 | any pattern written as a list of parts (text with or without backslashes, ?, *, **, sets of characters and spans, numeric ranges in braces and in brackets) is read without error as exactly these parts, and matches exactly the lines that split into one piece per part, each as the pattern syntax says; as substring pattern the lines of which some part does |
| `PatternTexts.PartsAreRead` | inet/src/util/PatternMatcher.cc:50-81 | the tokenizer gives one element per part, in order, from any position on |
| `PatternTexts.LettersAreRead` | inet/src/util/PatternMatcher.cc:139-154 | text with or without backslashes is one literal up to the next wildcard, or up to the bracket of a numeric range |
| `PatternTexts.ElemsMeanParts` | inet/src/util/PatternMatcher.cc:223-314 | the elements take from a line exactly what the parts mean |
| `PatternTokens.LiteralProgress` | inet/src/util/PatternMatcher.cc:63-64 | the literal parser consumes nothing only at a bracket that opens a numeric range |
| `StateTrees.ExitsAreExact` | inet/src/util/Macho.cc:157-175 | a transition exits exactly the states of the old path behind the kept ones, child first |
| `StateTrees.EntriesAreExact` | inet/src/util/Macho.cc:139-155 | a transition enters exactly the states of the new path behind the kept ones, parent first |
| `StateTrees.KeptIsCommon` | inet/src/util/Macho.cc:139-175 | kept are exactly the common superstates, except the target itself, which is left and entered again on a self or to-ancestor transition |
| `MachineTraces.ReplayStep` | inet/src/util/Macho.cc:139-175 | the actions of one transition lead, as a stack discipline, from the path of the old state to the path of the new one |
| `MachineTraces.RunKeepsGood` | inet/src/util/Macho.cc:352-422 | a request and the init chain it starts keep the trace a stack discipline whose stack is the path to the current state, and the boxes in step with it |
| `MachineTraces.AllRunsAreGood` | inet/src/util/Macho.cc:352-422 | the same over any number of events |
| `MachineTraces.ShutdownLeavesAll` | inet/src/util/Macho.cc:278-288 | from a fresh machine, given boxes for its surviving states or its top state, through any events to shutdown: every entry is matched by one exit, nothing is left entered, and only surviving boxes are left |
| `MachineTraces.Balance` | inet/src/util/Macho.cc:139-175 | entries and exits of a state balance but for the states on the stack |
| `MachineTraces.BoxesFollow` | inet/src/util/Macho.h:922-934 | a state on the stack has its box, and a box that does not survive exits belongs to a state on the stack |
| `MachineTraces.PersistentBoxesSurvive` | inet/src/util/Macho.h:297-302 | over any run the box of a persistent state is there exactly from its first entry on, or from the start when it was given |
| `MachineRuns.SavedIsBelow` | inet/src/util/Macho.h:736-748 | a recorded history is always a proper substate |
| `MachineRuns.StepIsSound` | inet/src/util/Macho.cc:352-410 | after a transition and its initialization the next request goes to a proper substate |
| `MachineRuns.ChainDeepens` | inet/src/util/Macho.cc:358-410 | the init and history chain strictly deepens, is no longer than the number of states, and ends in the current state |
| `MachineHistories.SavedAt` | inet/src/util/Macho.h:275-296 | leaving a state records it (deep) or the substate towards it (shallow) in exactly its proper superstates with that strategy |
| `MachineHistories.LeavingRecords` | inet/src/util/Macho.cc:372-374 | leaving a superstate for good records where it was left |
| `MachineHistories.OutsideKeepsHistory` | inet/src/util/Macho.cc:352-410 | transitions and init chains outside a state leave its history alone |
| `MachineHistories.HistoryLeadsBack` | inet/src/util/Macho.cc:177-191 | after leaving a state from d and any events outside of it, a history transition to it goes on to d (deep) or to the direct substate towards d (shallow) |
| `MachineHistories.NoHistoryIsDefault` | inet/src/util/Macho.h:506-509 | without a recorded history the transition is to the state itself |
| `MachineHistories.StayingForgetsExactly` | inet/src/util/Macho.cc:177-191 | a state entered to stay keeps its history if and only if its init action took arguments |
| `MachineInits.TargetIsInitialized` | inet/src/util/Macho.cc:177-191 | behind a transition exactly the init action of the target is performed, and the run goes on with exactly what that requests, or ends; with a history that is asked for and there, the run goes on to the recorded state instead, and the record is cleared |
| `MachineInits.RunEndsQuietly` | inet/src/util/Macho.cc:358-396 | every run ends in a state whose init action was performed last and requested nothing |
| `MachineInits.InitsAreAnswered` | inet/src/util/Macho.cc:358-396 | what an init action requests is what happens next: the states down to the requested one are entered; only the last init action of a run requests nothing |
| `MachineInits.AllInitsAreAnswered` | inet/src/util/Macho.cc:352-422 | the same over any number of events: no request of an init action is lost, and the machine rests only where nothing more was requested |
| `Macho.Machine.Exit` | inet/src/util/Macho.cc:157-175 | appends the exit actions and removes the boxes of the states left, each of which has one |
| `Macho.Machine.Entry` | inet/src/util/Macho.cc:139-155 | appends the entry actions and creates the missing boxes |
| `Macho.Machine.SetHistorySuper` | inet/src/util/Macho.h:743-748 | passes the history upwards to every superstate, each choosing deep, shallow or none |
| `Macho.Machine.InitCurrent` | inet/src/util/Macho.cc:177-191 | a history transition, or the init action of the state; the history is cleared unless the init action takes arguments |
| `Macho.Machine.RattleOn` | inet/src/util/Macho.cc:352-422 | carries out what is pending until nothing is, and ends behind an init action that requested nothing; the state stays consistent |
| `Macho.Machine.Shutdown` | inet/src/util/Macho.cc:278-288 | ends at Root with every state left |
| `Macho.Machine.ClearHistoryDeep` | inet/src/util/Macho.cc:310-318 | the state and its substates forget their history, no other does |
| `DhcpNetworks.NoSharedAddress` | inet/src/applications/dhcp/DHCPClient.cc:295-313 | in every reachable state of one server and any number of clients over a network that loses, duplicates and reorders: no two clients have recorded or configured the same address, each MAC has at most one lease, there are never more leases than clients allowed, and no lease changes its MAC |
| `DhcpNetworks.StepIsSafe` | inet/src/applications/dhcp/DHCPClient.cc:423-537 | every single step keeps the table, the messages on their way and the clients consistent |
| `DhcpNetworks.RunIsSafe` | inet/src/applications/dhcp/DHCPServer.cc:185-307 | so does every run |
| `DhcpNetworks.TimersMatchStates` | inet/src/applications/dhcp/DHCPClient.cc:232-293 | over any run in which no late acknowledgement binds a client between its restart and its START_DHCP: pending timers match the state of every started client, no client error ("T2 in wrong state", "Invalid state", unknown state, missing lease) occurs, and the lease timer never goes off |
| `DhcpNetworks.TimersMatchStatesExactly` | inet/src/applications/dhcp/DHCPClient.cc:232-293 | over any run at all: the timers of started clients match their states at every moment if and only if no START_DHCP finds a lease timer pending, and then no client error occurs and no lease timer goes off |
| `DhcpNetworks.MessageIsOwn` | inet/src/applications/dhcp/DHCPClient.cc:423-537 | a message changes the recorded lease only to an offered address and sends at most one request of the client's own |
| `DhcpExchanges.NewLeaseBinds` | inet/src/applications/dhcp/DHCPClient.cc:402-537 | DISCOVER, OFFER, REQUEST and ACK, when they arrive, bind the client to the address leased to its MAC, its old one if it had one, with the times of the server; it happens whenever the client is known or the pool has a free address |
| `DhcpExchanges.KnownLeaseIsExtended` | inet/src/applications/dhcp/DHCPServer.cc:256-306 | renewing at T1, rebinding at T2 and rebooting with a known lease end bound again to the same address with new timers, and no lease is added |
| `DhcpExchanges.UnknownLeaseIsRefused` | inet/src/applications/dhcp/DHCPServer.cc:263-305 | for an address the server does not know, renewing and rebinding lose the address and start over with a DISCOVER, a reboot gets no answer |
| `DhcpExchanges.RequestsAreFilledIn` | inet/src/applications/dhcp/DHCPClient.cc:595-624 | a REQUEST names server, requested address and client address exactly as Table 4 of section 4.3.6 of RFC 2131 says for the state |
| `DhcpExchanges.ConfiguredExactly` | inet/src/applications/dhcp/DHCPClient.cc:440-536 | a message binds the client if and only if it is an acknowledgement of its own transaction in a state that waits for one; a refusal while renewing or rebinding removes the address; no other message changes it |
| `DhcpClients.MessageKeepsOrder` | inet/src/applications/dhcp/DHCPClient.cc:423-537 | any message, also a late reply to a client that waits for its start, raises no error and leaves lease timers and state of a started client matched |
| `DhcpClients.TimerKeepsOrder` | inet/src/applications/dhcp/DHCPClient.cc:232-293 | a timer that goes off in time, of timers at the same time the one scheduled first, keeps the timers matched and raises no error, provided START_DHCP finds no lease timer; T2 always finds RENEWING, the lease timer never goes off |
| `DhcpClients.AssociationKeepsOrder` | inet/src/applications/dhcp/DHCPClient.cc:544-558 | an association at any time, also before the start, restarts the client with only the offer timeout pending |
| `DhcpClients.EarlyBindExactly` | inet/src/applications/dhcp/DHCPClient.cc:423-537 | of all messages that reach a client waiting for its start exactly those that bind it (an acknowledgement of its own transaction in a state that waits for one) leave timers that do not match its state from START_DHCP on |
| `DhcpClients.StartMatchesExactly` | inet/src/applications/dhcp/DHCPClient.cc:246-259 | START_DHCP leaves matching timers if and only if it finds no lease timer pending |
| `DhcpClients.EarlyAckBreaksT2` | inet/src/applications/dhcp/DHCPClient.cc:279-283 | such an acknowledgement that ends in "T2 in wrong state" |
| `DhcpClients.T2FirstExactly` | inet/src/applications/dhcp/DHCPClient.cc:279-283 | after an acknowledgement in any state that waits for one, T2 can be the next of the lease timers to go off, with the error, if and only if the rebinding time is before the renewal time and not after the lease time |
| `DhcpClients.DHCPClient.HandleDHCPMessage` | inet/src/applications/dhcp/DHCPClient.cc:423-537 | the state machine of the client for messages, branch by branch |
| `DhcpClients.DHCPClient.HandleTimer` | inet/src/applications/dhcp/DHCPClient.cc:232-293 | the state machine of the client for timers, errors included; what it comes to is stated by the DhcpDuties rows |
| `DhcpClients.DHCPClient.HandleDHCPACK` | inet/src/applications/dhcp/DHCPClient.cc:680-709 | records the times, schedules T1, T2 and the lease timer, configures the interface |
| `DhcpClients.DHCPClient.SendRequest` | inet/src/applications/dhcp/DHCPClient.cc:566-625 | a fresh transaction id and the request the state calls for, or an error |
| `DhcpClients.DHCPClient.InitClient` | inet/src/applications/dhcp/DHCPClient.cc:402-414 | cancels all timers and sends a DISCOVER |
| `DhcpDuties.TimeoutStartsOver` | inet/src/applications/dhcp/DHCPClient.cc:246-259 | a response timeout in any state, a start without lease and the end of a lease send a DISCOVER for any address with a fresh id, wait 60 s for an offer, and cancel all lease timers; only the end of the lease gives up the address |
| `DhcpDuties.TimerAsks` | inet/src/applications/dhcp/DHCPClient.cc:232-278 | T1, T2 in RENEWING and a start with a lease send the REQUEST of RENEWING, REBINDING and REBOOTING and wait 60 s for the answer; T1 leaves T2 and the lease timer pending, T2 cancels all |
| `DhcpDuties.OfferIsTaken` | inet/src/applications/dhcp/DHCPClient.cc:440-450 | an offer to a selecting client is recorded and requested from its server, with 60 s to wait |
| `DhcpDuties.RefusalStartsOver` | inet/src/applications/dhcp/DHCPClient.cc:453-529 | a refusal in any state that waits for an answer sends a DISCOVER; the address is given up in RENEWING and REBINDING and kept otherwise |
| `DhcpDuties.AckBinds` | inet/src/applications/dhcp/DHCPClient.cc:453-529 | an acknowledgement binds: its times are recorded and counted from now, the recorded address is configured, nothing is sent |
| `DhcpDuties.OthersAreDropped` | inet/src/applications/dhcp/DHCPClient.cc:423-537 | all other messages change and send nothing, and are an error exactly when they are of the own transaction and the client has not begun |
| `DhcpDuties.TimerSpeaks` | inet/src/applications/dhcp/DHCPClient.cc:232-293 | whichever timer of a started client goes off, a message is sent |
| `DhcpDuties.NobodyFallsSilent` | inet/src/applications/dhcp/DHCPClient.cc:232-293 | whatever the network loses: in any run without early acknowledgement no client that has passed START_DHCP can let more than 60 s pass, or bound more than its renewal time, before one of its timers goes off and it sends a message |
| `DhcpServers.ProcessKeepsTable` | inet/src/applications/dhcp/DHCPServer.cc:169-320 | any message keeps one address per MAC, all leases inside the pool, and every lease with its MAC, provided a DISCOVER names no address |
| `DhcpServers.NamedDiscoverExactly` | inet/src/applications/dhcp/DHCPServer.cc:448-462 | a DISCOVER keeps every lease with its MAC if and only if the client is known, or it names no address, or the named address is not in the table |
| `DhcpServers.RepliesAreTrue` | inet/src/applications/dhcp/DHCPServer.cc:322-425 | offers and acknowledgements name an address of the table with the MAC it is leased to and the times of the settings; offers and refusals carry the MAC that asked |
| `DhcpServers.LeasesAreBounded` | inet/src/applications/dhcp/DHCPServer.cc:463-484 | never more leases than maxNumOfClients |
| `DhcpServers.DiscoverIsAnswered` | inet/src/applications/dhcp/DHCPServer.cc:193-209 | a DISCOVER from an unknown MAC stays unanswered if and only if the whole pool is leased |
| `DhcpServers.DHCPServer.ProcessDHCPMessage` | inet/src/applications/dhcp/DHCPServer.cc:169-320 | the server's answer and its new table; which answer that is for which message is stated by the DhcpAnswers rows |
| `DhcpServers.DHCPServer.GetAvailableLease` | inet/src/applications/dhcp/DHCPServer.cc:444-485 | the named address, or the first address of the pool that is not leased, in 32-bit arithmetic (`DhcpAnswers.AvailableIsLowest`) |
| `DhcpServers.DHCPServer.GetLeaseByMac` | inet/src/applications/dhcp/DHCPServer.cc:427-442 | the lease of a MAC if there is one |
| `DhcpAnswers.AvailableIsLowest` | inet/src/applications/dhcp/DHCPServer.cc:444-485 | the address to lease next is the named one, or ipAddressStart + k modulo 2^32 for the least k below maxNumOfClients whose address is not leased; none when all are |
| `DhcpAnswers.NewClientGetsLowest` | inet/src/applications/dhcp/DHCPServer.cc:193-209 | a DISCOVER from an unknown MAC that names no address is answered by an offer of that lowest address, which is leased to the MAC from then on, and gets no answer when the pool is leased out |
| `DhcpAnswers.FirstClientGetsStart` | inet/src/applications/dhcp/DHCPServer.cc:446-466 | the first client is offered ipAddressStart itself |
| `DhcpAnswers.NamedAddressIsOffered` | inet/src/applications/dhcp/DHCPServer.cc:448-461 | a DISCOVER from an unknown MAC that names an address is answered by an offer of it |
| `DhcpAnswers.KnownClientGetsItsLease` | inet/src/applications/dhcp/DHCPServer.cc:211-217 | a DISCOVER from a known MAC is answered by an offer of its own address |
| `DhcpAnswers.NamedServerAnswers` | inet/src/applications/dhcp/DHCPServer.cc:224-255 | a REQUEST that names this server is acknowledged if and only if the lease of the client's MAC is for the requested address, and otherwise refused, also without any lease |
| `DhcpAnswers.RebootIsAnswered` | inet/src/applications/dhcp/DHCPServer.cc:258-287 | a REQUEST for another or no server without client address: silence for an unknown requested address, an acknowledgement for a known one that agrees with its record under the subnet mask, a refusal otherwise |
| `DhcpAnswers.ExtensionIsAnswered` | inet/src/applications/dhcp/DHCPServer.cc:288-306 | a REQUEST with client address is acknowledged if and only if the table has the address, and otherwise refused |
| `DhcpAnswers.OthersAreDropped` | inet/src/applications/dhcp/DHCPServer.cc:309-317 | all other messages get no answer and leave the table alone |
| `DhcpAnswers.AnyMessageKeepsOwn` | inet/src/applications/dhcp/DHCPServer.cc:169-320 | any message, also a DISCOVER that names an address, leaves one lease per MAC and every record under its own address |
| `LifecycleRuns.EachStageOnce` | inet/src/base/LifecycleController.cc:85-156 | whatever modules answer late and in whatever order: when the operation is done every module has been told every stage exactly once and finished it exactly once |
| `LifecycleRuns.CompletionOnce` | inet/src/base/LifecycleController.cc:94-112 | the completion callback has fired exactly once if the operation is done and initiateOperation returned false, and not at all otherwise, also for operations without modules or stages |
| `LifecycleRuns.OperationEnds` | inet/src/base/LifecycleController.cc:94-156 | an operation that is not done waits for somebody, one that is done for nobody, and no run has more late answers than modules times stages |
| `LifecycleRuns.Barrier` | inet/src/base/LifecycleController.cc:94-106 | no module is told a stage before all have finished the one before |
| `LifecycleRuns.StagesComeInOrder` | inet/src/base/LifecycleController.cc:94-106 | a module that is told a stage has been told exactly the earlier stages, each once |
| `LifecycleRuns.ResumeIsSeen` | inet/src/base/LifecycleController.cc:94-112 | stage after stage, the log stays one a watcher of the barrier accepts, modules in preorder |
| `LifecycleRuns.AnsweredIsSeen` | inet/src/base/LifecycleController.cc:138-156 | so does a late answer |
| `LifecycleControllers.LifecycleController.DoOneStage` | inet/src/base/LifecycleController.cc:114-136 | the modules of the tree are told in preorder; the callbacks of late ones become pending; the spare callback object is never one of them |
| `LifecycleTrees.SubjectsAreTheTree` | inet/src/base/LifecycleController.cc:114-136 | exactly the lifecycle modules anywhere in the tree are told, also those below other modules |
| `LifecycleTrees.ParentsFirst` | inet/src/base/LifecycleController.cc:114-136 | a module is told before all modules inside it |
| `LifecycleTrees.SiblingsInOrder` | inet/src/base/LifecycleController.cc:131-135 | all modules inside a submodule are told before those inside a later one |
| `LifecycleControllers.LifecycleController.ResumeOperation` | inet/src/base/LifecycleController.cc:94-112 | goes on until somebody is late or all stages are done, and says which |
| `LifecycleControllers.LifecycleController.InitiateOperation` | inet/src/base/LifecycleController.cc:85-92 | runs the first stages; true means done; operations in progress are not disturbed by the shared spare callback |
| `LifecycleControllers.LifecycleController.Invoke` | inet/src/base/LifecycleController.cc:34-39 | a late answer takes exactly its callback off the pending list and resumes the operation when it was the last; other operations are not disturbed |
| `NodeStatuses.AssertionsHold` | inet/src/status/NodeStatus.cc:54-101 | however operations on a node interleave, as long as each brings its stages in order, the assertions about GOING_UP and GOING_DOWN never fail |
| `NodeStatuses.OperationMoves` | inet/src/status/NodeStatus.cc:54-101 | an uninterrupted start takes a node from DOWN over GOING_UP to UP, a shutdown or crash from UP over GOING_DOWN to DOWN, for any number of stages; from any other status it is an error at once |
| `NodeStatuses.NodeStatus.HandleOperationStage` | inet/src/status/NodeStatus.cc:54-101 | DOWN, GOING_UP, UP for a start; UP, GOING_DOWN, DOWN for a shutdown or crash; also with a single stage |
| `Reassembly.CompleteExactly` | inet/src/base/ReassemblyBuffer.cc:39-45 | for every division of a datagram, in any order and with any duplicates, addFragment is true exactly once every piece has arrived, and the length is then that of the datagram |
| `Reassembly.MainIsReceived` | inet/src/base/ReassemblyBuffer.cc:47-81 | for arbitrary ranges the main range only covers received offsets |
| `Reassembly.MergeMerges` | inet/src/base/ReassemblyBuffer.cc:83-128 | merging ends with exactly the longest gapless prefix of the arrived pieces in the main range |
| `Reassembly.NothingIsLost` | inet/src/base/ReassemblyBuffer.cc:47-128 | for arbitrary ranges: the main range only grows, no range that could be merged stays behind, every stored range stays stored or is in the main range, and the new one is lost if and only if it laps over an end of the main range and is not stored already |
| `Reassembly.AlwaysSettled` | inet/src/base/ReassemblyBuffer.cc:39-128 | after any arrivals no stored range touches the main range or lies in it, and the main range knows its end only from a last fragment that is in it |
| `Reassembly.PassMerges` | inet/src/base/ReassemblyBuffer.cc:91-125 | one pass merges further pieces in order, drops only merged ones, and changes nothing exactly when none fits |
| `Reassembly.ReassemblyBuffer.AddFragment` | inet/src/base/ReassemblyBuffer.cc:39-45 | the new buffer, and whether it is complete |
| `Reassembly.ReassemblyBuffer.MergeFragments` | inet/src/base/ReassemblyBuffer.cc:83-128 | the nested loops with erasures compute the repeated pass, and end |
| `ByteArrayBuffers.ByteArrayBuffer.GetBytesToBuffer` | inet/src/base/ByteArrayBuffer.cc:51-71 | the slice of the queue from any offset, across chunk boundaries and empty chunks, as long as no bounds check of a chunk wraps around; the rest of the output buffer and the queue unchanged |
| `ByteArrayBuffers.ByteArrayBuffer.PopBytesToBuffer` | inet/src/base/ByteArrayBuffer.cc:73-76 | returns and removes exactly the prefix |
| `ByteArrayBuffers.ByteArrayBuffer.Drop` | inet/src/base/ByteArrayBuffer.cc:78-103 | removes exactly that many bytes from the front; the length field stays the length of the queue |
| `ByteArrayBuffers.ByteArrayBuffer.Push` | inet/src/base/ByteArrayBuffer.cc:43-49 | appends a copy of the bytes |
| `ByteArrayBuffers.ByteArrayBuffer.PushByteArray` | inet/src/base/ByteArrayBuffer.cc:37-41 | appends a copy of a byte array |
| `ByteArrayBuffers.ByteArrayBuffer.Clear` | inet/src/base/ByteArrayBuffer.cc:105-113 | leaves the empty queue |
| `ByteArrayBuffers.StreamIsPreserved` | inet/src/base/ByteArrayBuffer.cc:37-103 | over any sequence of pushes and pops no byte is lost, doubled or reordered |
| `ByteArrayBuffers.Perform` | inet/src/base/ByteArrayBuffer.cc:37-103 | the same of a buffer object and any sequence of its own pushes and pops: what they leave and return is the run of the abstract queue |
| `ByteArrayBuffers.ByteArray.CopyDataToBuffer` | inet/src/base/ByteArray.cc:52-61 | copies what is there from the offset on, and nothing beside it |
| `ByteArrayBuffers.BoundsCheckExactly` | inet/src/base/ByteArray.cc:52-61 | the bounds check of copyDataToBuffer is right if and only if the sum of offset and length does not reach 2^32 |
| `ByteArrayBuffers.ByteArray.TruncateData` | inet/src/base/ByteArray.cc:70-87 | cuts off both ends |
| `ByteArrayBuffers.ByteArray.AddDataFromBuffer` | inet/src/base/ByteArray.cc:37-50 | appends |
| `ByteArrayBuffers.ByteArray.SetDataFromBuffer` | inet/src/base/ByteArray.cc:19-29 | replaces the content |

## Left out

- Topology weights are reals and an infinity; rounding, negative infinity and NaN are not modelled.
- Topologies.Topology.AddNode: a node that is already in the graph is not added again.
- Topologies.Topology.AddLink: the form with node arguments only; the form with gates throws after unlinking
  when a module is absent, and extraction from a network needs simulation kernel calls.
- Freed memory: deleted nodes and links are merely no longer part of the graph.
- Int128s.Int128.Div: a zero divisor, which the code turns into a division by zero, and the divisor -2^127, for
  which it does not end.
- Int128s.Int128.Set: a null text is the empty text.
- Int128 conversions from and to floating point, assignment from negative 32- and 64-bit numbers, increment and
  decrement, and the bitwise operators |=, &=, ^=, ~.
- Int128s.Int128.ToString: the shared static buffer is not modelled; no value needs more than its 255
  characters.
- PatternMatchers.PatternMatcher.Matches: upper case is that of the C locale.
- patternPrefixMatches: the search for the end of the line in the last literal is not modelled; the matching
  without the end of the literal is (`PatternMatchers.PatternMatcher.DoMatch`).
- PatternMatchers.ReadNumber: numbers are unbounded; the overflow of atol is not modelled, nor are characters
  above 127, which C may compare as negative.
- PatternMatchers.ParseLiteralString: a pattern that ends in a lone backslash makes the code read past the end
  of the text; the model stops there with an error.
- PatternMatchers.PatternMatcher.SetPattern: the same lone backslash is an error here.
- Macho templates, numbered anchors, event objects and their queue, aliases with adapting initializers, the
  deprecated box requests, snapshots, memory placement.
- Macho.Machine.RattleOn: pending event objects and the loop over them are not modelled, an event is the request it
  makes; init actions are a function of the state and the actions so far, and request only
  proper substates, as the code asserts; entry and exit actions request nothing.
- DhcpNetworks.NoSharedAddress: one server that stays up; transaction ids are fresh; MACs differ; clients leave
  the choice of the address to the server, as the code of the client does.
- DhcpNetworks.TimersMatchStates: the address pool does not contain the unspecified address.
- The removal of the address at lease expiry: the timer for it never goes off.
- DHCP routes, DNS and gateway options, the interface table, sockets, and the choice between unicast and
  broadcast: every client may get every message.
- LifecycleControllers.LifecycleController.DoOneStage: modules answer at once or later, but do not invoke
  callbacks or initiate operations from inside the stage call; module ids in a tree differ.
- Reassembly.ReassemblyBuffer.MergeFragments: the lazily allocated vector of fragments is a sequence that may be
  empty.
- ByteArrayBuffers.ByteArrayBuffer.GetBytesToBuffer: where the bounds check of a chunk wraps around, the code reads
  behind the end of the chunk, and the model does not say what it finds there.
- ByteArrayBuffers.ByteArray.CopyDataToBuffer: likewise where offset and length wrap around.
- ByteArray::assignBuffer and setDataFromByteArray, copying of buffers, notifications, display strings, logging,
  and all other modules of the simulator.
