# FiniteAutomaton, modelled in Dafny

`FiniteAutomaton` is how the automaton-based constraints of the solver (regular,
cost-regular and multi-cost-regular) see a finite automaton. It wraps a graph of the
brics automaton library, whose transitions are labelled with closed intervals of 16-bit
`char` codepoints. On top of that graph it keeps its own view:

- a list of the library's state objects, where a state's index is its position in the list;
- an alphabet of integer symbols;
- a pair of bounds `[min, max]` that clamps the codepoints it enumerates.

A fixed, static table translates the solver's integer symbols to codepoints. It skips the
nine codepoints `" { } < > [ ] ( )` that the pattern language reserves.

The model has five modules:

- `Outcomes`: the `Result` type and the exceptions the class throws.
- `Codec`: the symbol table (the static initialiser, `getCharFromInt` and
  `getIntFromChar`). A Java `char` is an `int` in `[0, 0xFFFF]`, and the `(char)`
  cast is written out as a reduction modulo 65536.
- `Graphs`: transitions, states and library graphs as values. It also holds the
  set-level definitions that the class's loops are proved against: interval deletion,
  symbol removal, enumeration of (source, destination, symbol) triples, importing a
  graph over an alphabet, and the couples of `_removeSymbolFromAutomaton`.
- `IntSets`: the static `max`/`min` of an integer set, and the alphabets that
  `union`, `intersection` and `concatenate` compute.
- `Automata`: the class `FiniteAutomaton`. In the class:
  - `states` is the list of states;
  - `initial` is the library automaton's initial state;
  - `deterministic` is the library's determinism flag;
  - `alphabet`, `nbStates`, `min` and `max` are the fields of the same names.

  Every method that changes the automaton states its whole new state. It does this in
  terms of the functions of `Graphs`, and the lemmas there say what those functions
  mean.

The library's graph operations sit outside the model. These are compiling a pattern, and
the union, product, complement, concatenation and repetition of graphs. Where the class
calls one of them, the graph it returns is a parameter of the model (`Graph`). The
nodes arrive in the order the library iterates them.

A new library automaton starts with an initial state that is not in the index map.
`getInitialState` then returns the map's default, 0. The model calls this initial
state `Detached`.

## Model

| member | source | states |
|---|---|---|
| Codec.ShiftStep | solver/src/main/java/org/chocosolver/solver/constraints/nary/automata/FA/FiniteAutomaton.java:49-57 | For each symbol, the initialiser's inner loop steps the running delta past exactly the reserved codepoints and stops on a usable one. The delta only grows, and never exceeds 9. |
| Codec.RawCodeIncreasing | solver/src/main/java/org/chocosolver/solver/constraints/nary/automata/FA/FiniteAutomaton.java:55-56 | Distinct symbols get distinct stored values (strictly increasing), so the inverse table is well defined. |
| Codec.BuildTables | solver/src/main/java/org/chocosolver/solver/constraints/nary/automata/FA/FiniteAutomaton.java:49-57 | The forward table has exactly the keys 0..65535, each holding its RawCode. The inverse table holds exactly those values and maps each one back to its symbol. |
| Codec.TablesAnswerCodec | solver/src/main/java/org/chocosolver/solver/constraints/nary/automata/FA/FiniteAutomaton.java:118-130 | A lookup in the tables that were built, with the hash map's default 0 for a missing key and the `(char)` cast, answers CharFromInt and IntFromChar on every input. |
| Codec.GetCharFromInt | solver/src/main/java/org/chocosolver/solver/constraints/nary/automata/FA/FiniteAutomaton.java:122-130 | The lookup never throws. Symbols 0..65526 get a usable codepoint. Symbols 65527..65535 wrap around to codepoints 0..8. Any other int reads codepoint 0. |
| Codec.IntervalSymbols | solver/src/main/java/org/chocosolver/solver/constraints/nary/automata/FA/FiniteAutomaton.java:179-180 | The corrected reading of an interval's endpoints: the number of usable codepoints below the lower end, and the number up to the upper end less one. That is the symbol of the first and of the last usable codepoint inside. On a usable endpoint it agrees with getIntFromChar. |
| Codec.IntFromChar | solver/src/main/java/org/chocosolver/solver/constraints/nary/automata/FA/FiniteAutomaton.java:118-120 | getIntFromChar: a usable codepoint's rank among the usable codepoints, or the map default 0 for a reserved one. DecodeEncode, EncodeDecode and SymbolIsRank state its properties. |
| Codec.CodeNotReserved | solver/src/main/java/org/chocosolver/solver/constraints/nary/automata/FA/FiniteAutomaton.java:52-55 | No stored value and no codepoint handed out is one of the nine reserved ones. |
| Codec.CodeOfRank | solver/src/main/java/org/chocosolver/solver/constraints/nary/automata/FA/FiniteAutomaton.java:118-120 | Every usable codepoint c is the stored value of the in-range symbol c - ReservedBelow(c). |
| Codec.CharFromIntIncreasing | solver/src/main/java/org/chocosolver/solver/constraints/nary/automata/FA/FiniteAutomaton.java:122-130 | On symbols 0..65526 the codec preserves order strictly. |
| Codec.DecodeEncode | solver/src/main/java/org/chocosolver/solver/constraints/nary/automata/FA/FiniteAutomaton.java:118-130 | getIntFromChar(getCharFromInt(i)) == i for every symbol in 0..65526. |
| Codec.EncodeDecode | solver/src/main/java/org/chocosolver/solver/constraints/nary/automata/FA/FiniteAutomaton.java:118-130 | getCharFromInt(getIntFromChar(c)) == c for every usable codepoint. |
| Codec.TopSymbolsAlias | solver/src/main/java/org/chocosolver/solver/constraints/nary/automata/FA/FiniteAutomaton.java:122-130 | The nine top symbols share codepoints with symbols 0..8 and do not survive a round trip. |
| Codec.FreeBelowCount | solver/src/main/java/org/chocosolver/solver/constraints/nary/automata/FA/FiniteAutomaton.java:49-57 | Counting usable codepoints one by one agrees with subtracting the reserved ones below. |
| Codec.SymbolIsRank | solver/src/main/java/org/chocosolver/solver/constraints/nary/automata/FA/FiniteAutomaton.java:49-57 | The table is dense and keeps order. A usable codepoint's symbol is the number of usable codepoints below it, and an in-range symbol's codepoint has exactly that many usable codepoints below it. |
| IntSets.MaxOf | solver/src/main/java/org/chocosolver/solver/constraints/nary/automata/FA/FiniteAutomaton.java:132-140 | The result is an element that no element exceeds, or Integer.MIN_VALUE for the empty set. |
| IntSets.MinOf | solver/src/main/java/org/chocosolver/solver/constraints/nary/automata/FA/FiniteAutomaton.java:142-150 | The result is an element that no element undercuts, or Integer.MAX_VALUE for the empty set. |
| IntSets.IntersectAlphabets | solver/src/main/java/org/chocosolver/solver/constraints/nary/automata/FA/FiniteAutomaton.java:431-435 | A symbol is in the result if and only if both alphabets hold it. |
| IntSets.UniteAlphabets | solver/src/main/java/org/chocosolver/solver/constraints/nary/automata/FA/FiniteAutomaton.java:422-423 | A symbol is in the result if and only if one of the alphabets holds it. |
| Graphs.ClosedUpdate | solver/src/main/java/org/chocosolver/solver/constraints/nary/automata/FA/FiniteAutomaton.java:252-273 | Replacing one state by one whose transitions lead to existing states keeps all destinations in range. |
| Graphs.AddedToTwice | solver/src/main/java/org/chocosolver/solver/constraints/nary/automata/FA/FiniteAutomaton.java:240-248 | Adding two sets of transitions to the same state one after the other adds their union. |
| Graphs.AddedToFlagged | solver/src/main/java/org/chocosolver/solver/constraints/nary/automata/FA/FiniteAutomaton.java:176-188 | Setting a state's accept flag and then adding transitions to it gives the state with that flag and the old transitions plus the new ones. |
| Graphs.AddedToClosed | solver/src/main/java/org/chocosolver/solver/constraints/nary/automata/FA/FiniteAutomaton.java:246-248 | Adding transitions whose destinations are existing states keeps every destination of the automaton in range. |
| Graphs.SplitStep | solver/src/main/java/org/chocosolver/solver/constraints/nary/automata/FA/FiniteAutomaton.java:257-272 | Handling one more transition in the deletion loop either keeps it (a miss) or puts back its pieces (a hit). |
| Graphs.Pieces | solver/src/main/java/org/chocosolver/solver/constraints/nary/automata/FA/FiniteAutomaton.java:263-270 | The corrected pieces: for a transition carrying c, each piece goes to the same destination and lies inside the transition. No piece carries c. |
| Graphs.PiecesAsWritten | solver/src/main/java/org/chocosolver/solver/constraints/nary/automata/FA/FiniteAutomaton.java:263-270 | The pieces as written: for a transition carrying c, they are a subset of the corrected pieces. They are empty when c is the upper end of a longer interval. |
| Graphs.SplitDelete | solver/src/main/java/org/chocosolver/solver/constraints/nary/automata/FA/FiniteAutomaton.java:246-274 | The corrected deleteTransition on one state's transitions: every transition it does not hit is kept. Afterwards no transition to d carries c. |
| Graphs.SplitDeleteAsWritten | solver/src/main/java/org/chocosolver/solver/constraints/nary/automata/FA/FiniteAutomaton.java:246-274 | deleteTransition as written, with the dead upper-endpoint branch. It keeps no more than the corrected SplitDelete. |
| Graphs.StripSymbol | solver/src/main/java/org/chocosolver/solver/constraints/nary/automata/FA/FiniteAutomaton.java:211-230 | The per-state effect of removeSymbolFromAutomaton with the corrected pieces: every transition missing the codepoint is kept, and afterwards no transition carries it. |
| Graphs.SplitForWithin | solver/src/main/java/org/chocosolver/solver/constraints/nary/automata/FA/FiniteAutomaton.java:263-273 | Deletion creates no destination that was not already there. |
| Graphs.PiecesCover | solver/src/main/java/org/chocosolver/solver/constraints/nary/automata/FA/FiniteAutomaton.java:263-270 | The pieces put back for a transition hit at c keep its destination and cover exactly its codepoints other than c. This holds of the corrected pieces; see "## Left out". |
| Graphs.DeleteTransitionExact | solver/src/main/java/org/chocosolver/solver/constraints/nary/automata/FA/FiniteAutomaton.java:246-274 | After deleteTransition(s, d, c), a destination e is reached on codepoint x if and only if it was reached before and (e, x) is not (d, c). This holds of the corrected pieces; see "## Left out". |
| Graphs.DeleteTransitionFrame | solver/src/main/java/org/chocosolver/solver/constraints/nary/automata/FA/FiniteAutomaton.java:257-273 | Every transition that is not hit is kept, and every hit transition is removed. Each added transition lies inside a hit one, goes to d and misses c. |
| Graphs.DeleteLowerEndpoint | solver/src/main/java/org/chocosolver/solver/constraints/nary/automata/FA/FiniteAutomaton.java:263-264 | Deleting the lower end c of [c, hi] leaves [c+1, hi]. |
| Graphs.DeleteInterior | solver/src/main/java/org/chocosolver/solver/constraints/nary/automata/FA/FiniteAutomaton.java:267-269 | Deleting an interior c of [lo, hi] leaves [lo, c-1] and [c+1, hi]. |
| Graphs.DeleteUpperEndpoint | solver/src/main/java/org/chocosolver/solver/constraints/nary/automata/FA/FiniteAutomaton.java:265-266 | Deleting the upper end c of [lo, c] leaves [lo, c-1] (the intended behaviour). |
| Graphs.AsWrittenUpperBranchDead | solver/src/main/java/org/chocosolver/solver/constraints/nary/automata/FA/FiniteAutomaton.java:260-266 | As written, the `lo > c` branch can never run under the enclosing `lo <= c` guard. It differs from the intended pieces exactly when c is the upper end of a longer interval, and then it puts back nothing. |
| Graphs.AsWrittenDropsLowerRemainder | solver/src/main/java/org/chocosolver/solver/constraints/nary/automata/FA/FiniteAutomaton.java:263-270 | A concrete case: as written, deleting 7 from [5,7] to state 1 removes the whole transition. The intended result is [5,6]. |
| Graphs.StripSymbolAsWritten | solver/src/main/java/org/chocosolver/solver/constraints/nary/automata/FA/FiniteAutomaton.java:211-230 | The removal as written, built from the code's own pieces. It keeps no more than the corrected StripSymbol. |
| Graphs.StripSymbolAsWrittenAgrees | solver/src/main/java/org/chocosolver/solver/constraints/nary/automata/FA/FiniteAutomaton.java:214-226 | As written, the removal agrees with the corrected one unless some transition ends at the codepoint and starts below it. |
| Graphs.AsWrittenRemovalDropsLowerRemainder | solver/src/main/java/org/chocosolver/solver/constraints/nary/automata/FA/FiniteAutomaton.java:222-224 | A concrete case: removing codepoint 7 from a state with [5,7] to state 1 leaves no transition as written, so 5 stops leading to state 1. The corrected removal leaves [5,6]. |
| Graphs.SplitForAdd | solver/src/main/java/org/chocosolver/solver/constraints/nary/automata/FA/FiniteAutomaton.java:222-224 | Deleting c towards one more destination composes with the deletions made for the others. |
| Graphs.SplitForAll | solver/src/main/java/org/chocosolver/solver/constraints/nary/automata/FA/FiniteAutomaton.java:214-226 | Once every destination of a transition carrying c has been handled, the state's transitions are StripSymbol of the old ones. This holds of the corrected pieces; see "## Left out". |
| Graphs.StripSymbolExact | solver/src/main/java/org/chocosolver/solver/constraints/nary/automata/FA/FiniteAutomaton.java:211-230 | After the removal, a destination is reached on x if and only if it was reached before and x is not the removed codepoint. This holds of the corrected pieces; see "## Left out". |
| Graphs.StripSymbolMissesCodepoint | solver/src/main/java/org/chocosolver/solver/constraints/nary/automata/FA/FiniteAutomaton.java:211-230 | After the removal, no transition carries the codepoint, and every destination was an old one. |
| Graphs.EntriesOfAdd | solver/src/main/java/org/chocosolver/solver/constraints/nary/automata/FA/FiniteAutomaton.java:537-546 | The triples of one more transition add to those already listed. |
| Graphs.SymbolsOfAdd | solver/src/main/java/org/chocosolver/solver/constraints/nary/automata/FA/FiniteAutomaton.java:667-673 | The symbols of one more transition add to the alphabet collected so far. |
| Graphs.EntriesOfSource | solver/src/main/java/org/chocosolver/solver/constraints/nary/automata/FA/FiniteAutomaton.java:544 | Every triple that getTransitions(src) lists starts at src. |
| Graphs.EntriesUpToSources | solver/src/main/java/org/chocosolver/solver/constraints/nary/automata/FA/FiniteAutomaton.java:529-531 | The triples of the first n states start below n. |
| Graphs.EntriesUpToSourcesStep | solver/src/main/java/org/chocosolver/solver/constraints/nary/automata/FA/FiniteAutomaton.java:529-531 | The triples of state n start at n, so one more state keeps all sources below n + 1. |
| Graphs.EntriesUpToMember | solver/src/main/java/org/chocosolver/solver/constraints/nary/automata/FA/FiniteAutomaton.java:527-533 | A triple is listed by getTransitions() if and only if its source state's own getTransitions lists it. |
| Graphs.EntriesUpToMemberStep | solver/src/main/java/org/chocosolver/solver/constraints/nary/automata/FA/FiniteAutomaton.java:527-533 | Listing one more state puts exactly that state's triples into the list. |
| Graphs.SymbolsOfEntries | solver/src/main/java/org/chocosolver/solver/constraints/nary/automata/FA/FiniteAutomaton.java:664-673 | The symbols syncStates collects for one state are the symbol column of that state's triples. |
| Graphs.SymbolsAreEntrySymbols | solver/src/main/java/org/chocosolver/solver/constraints/nary/automata/FA/FiniteAutomaton.java:659-676 | The alphabet syncStates computes is exactly the set of symbols that getTransitions() lists. |
| Graphs.SymbolsAreEntrySymbolsStep | solver/src/main/java/org/chocosolver/solver/constraints/nary/automata/FA/FiniteAutomaton.java:667-673 | The symbols of one more state are the symbol column of that state's triples, added to those already collected. |
| Graphs.ImportedStates | solver/src/main/java/org/chocosolver/solver/constraints/nary/automata/FA/FiniteAutomaton.java:166-190 | fill appends exactly one state per node of the graph. |
| Graphs.ImportedAdd | solver/src/main/java/org/chocosolver/solver/constraints/nary/automata/FA/FiniteAutomaton.java:178-188 | The units and symbols one more transition imports add to those already imported. |
| Graphs.ImportedUnitsAdd | solver/src/main/java/org/chocosolver/solver/constraints/nary/automata/FA/FiniteAutomaton.java:178-188 | The units imported for one more transition add to those already imported. |
| Graphs.ImportedUnitsAddWithin | solver/src/main/java/org/chocosolver/solver/constraints/nary/automata/FA/FiniteAutomaton.java:178-188 | Every unit imported for ts plus t comes from a transition of ts or from t. |
| Graphs.ImportedUnitsAddCovers | solver/src/main/java/org/chocosolver/solver/constraints/nary/automata/FA/FiniteAutomaton.java:178-188 | Every unit imported for ts, and every unit imported for t, is imported for ts plus t. |
| Graphs.ImportedHas | solver/src/main/java/org/chocosolver/solver/constraints/nary/automata/FA/FiniteAutomaton.java:184-186 | A symbol of the alphabet within a transition of the state yields the unit transition on its codepoint to the shifted destination. |
| Graphs.ImportedOneHas | solver/src/main/java/org/chocosolver/solver/constraints/nary/automata/FA/FiniteAutomaton.java:184-186 | A symbol of the alphabet within transition t yields the unit transition on its codepoint to the shifted destination. |
| Graphs.ImportedSymbolsAdd | solver/src/main/java/org/chocosolver/solver/constraints/nary/automata/FA/FiniteAutomaton.java:178-188 | The symbols imported for one more transition add to those already imported. |
| Graphs.ImportedBelowStep | solver/src/main/java/org/chocosolver/solver/constraints/nary/automata/FA/FiniteAutomaton.java:184-186 | One step of fill's symbol loop imports symbol i exactly when the alphabet holds i and i lies between the symbols of the transition's endpoints. |
| Graphs.ImportedBelowEnds | solver/src/main/java/org/chocosolver/solver/constraints/nary/automata/FA/FiniteAutomaton.java:183-187 | The loop, run from the clamped lower bound to the clamped upper bound, imports exactly the symbols of the alphabet in the transition's symbol range. |
| Graphs.ImportedSymbolsWithin | solver/src/main/java/org/chocosolver/solver/constraints/nary/automata/FA/FiniteAutomaton.java:184-186 | fill adds only symbols of the alphabet it was given. |
| Graphs.ImportKeepsSymbol | solver/src/main/java/org/chocosolver/solver/constraints/nary/automata/FA/FiniteAutomaton.java:178-187 | Take any transition, reserved endpoints included, and a usable codepoint inside it whose symbol is in the alphabet. The corrected fill gives the node a unit transition on that codepoint to the shifted destination. |
| Graphs.ImportedSymbolInside | solver/src/main/java/org/chocosolver/solver/constraints/nary/automata/FA/FiniteAutomaton.java:178-187 | Conversely, every symbol the corrected fill imports from a transition names a usable codepoint the transition carries, and that codepoint reads back as the symbol. |
| Graphs.ImportedOneInside | solver/src/main/java/org/chocosolver/solver/constraints/nary/automata/FA/FiniteAutomaton.java:184-186 | Every unit the corrected fill adds for a transition is a single usable codepoint that the transition carries, whose symbol is in the alphabet, leading to the shifted destination. |
| Graphs.ImportAsWrittenAgrees | solver/src/main/java/org/chocosolver/solver/constraints/nary/automata/FA/FiniteAutomaton.java:179-187 | When neither endpoint is reserved, fill as written and the corrected fill import the same units. |
| Graphs.AsWrittenGapReadsFromZero | solver/src/main/java/org/chocosolver/solver/constraints/nary/automata/FA/FiniteAutomaton.java:179-180 | As written, an interval [34, hi] ending at a usable codepoint has its reserved lower end read as symbol 0, so it imports symbol 33. |
| Graphs.AsWrittenImportAddsSymbol | solver/src/main/java/org/chocosolver/solver/constraints/nary/automata/FA/FiniteAutomaton.java:179-187 | As written, such an interval gains a unit on codepoint 33, which it does not contain. The corrected fill does not add it. |
| Graphs.AsWrittenImportLosesSymbol | solver/src/main/java/org/chocosolver/solver/constraints/nary/automata/FA/FiniteAutomaton.java:179-187 | As written, [0, 34] has its reserved upper end read as symbol 0, so it loses symbol 20, which it contains. The corrected fill keeps it. |
| Graphs.FreeBelowMonotone | solver/src/main/java/org/chocosolver/solver/constraints/nary/automata/FA/FiniteAutomaton.java:49-57 | The rank of codepoints among usable ones is monotone. |
| Graphs.CouplesOfAdd | solver/src/main/java/org/chocosolver/solver/constraints/nary/automata/FA/FiniteAutomaton.java:575-581 | The couples of one more transition add to those already listed. |
| Graphs.CouplesUpToMember | solver/src/main/java/org/chocosolver/solver/constraints/nary/automata/FA/FiniteAutomaton.java:572-586 | A couple (i, y) is listed if and only if state i has a transition into a recorded state that carries a codepoint with symbol y. |
| Graphs.DeterministicStep | solver/src/main/java/org/chocosolver/solver/constraints/nary/automata/FA/FiniteAutomaton.java:276-292 | When no two transitions of a state overlap, a step on a codepoint has at most one successor. |
| Graphs.CharIterateWraps | solver/src/main/java/org/chocosolver/solver/constraints/nary/automata/FA/FiniteAutomaton.java:542 | Incrementing a `char` counter k times from m gives (m + k) mod 65536; CharLoopCountsLikeInt derives the loop's values from it. |
| Graphs.WrapSucc | solver/src/main/java/org/chocosolver/solver/constraints/nary/automata/FA/FiniteAutomaton.java:542 | One more increment after a wrapped increment lands where wrapping once at the end lands. |
| Graphs.CharLoopNeverEnds | solver/src/main/java/org/chocosolver/solver/constraints/nary/automata/FA/FiniteAutomaton.java:542 | As written, a `for (char c = m; c <= M; c++)` loop with M == 0xFFFF never exits, for any amount of fuel. |
| Graphs.CharLoopEndsBelowTop | solver/src/main/java/org/chocosolver/solver/constraints/nary/automata/FA/FiniteAutomaton.java:670 | For M < 0xFFFF the same loop exits after M - m + 1 iterations, as an `int` counter does. |
| Graphs.CharLoopCountsLikeInt | solver/src/main/java/org/chocosolver/solver/constraints/nary/automata/FA/FiniteAutomaton.java:542 | For M < 0xFFFF the `char` counter holds m + k after k increments, exactly as an `int` counter does, and after M - m + 1 increments it has passed M. |
| Graphs.TopCodepointLoopSpins | solver/src/main/java/org/chocosolver/solver/constraints/nary/automata/FA/FiniteAutomaton.java:578 | Symbol 65526 maps to codepoint 0xFFFF, so addTransition(0, 0, 65526) gives the transition [0xFFFF, 0xFFFF]. From there the counter wraps to 0, and the loop from 0xFFFF up to 0xFFFF never ends. |
| Graphs.AddedUnits | solver/src/main/java/org/chocosolver/solver/constraints/nary/automata/FA/FiniteAutomaton.java:644-647 | Adding unit transitions keeps the number of states. |
| Graphs.AddedNoUnits | solver/src/main/java/org/chocosolver/solver/constraints/nary/automata/FA/FiniteAutomaton.java:644-647 | Adding no triples changes nothing. |
| Graphs.AddedUnitsStep | solver/src/main/java/org/chocosolver/solver/constraints/nary/automata/FA/FiniteAutomaton.java:645-646 | addTransition(t[0], t[1], t[2]) adds one unit transition to state t[0] and leaves the other states alone. |
| Graphs.UnitsForPrefixStep | solver/src/main/java/org/chocosolver/solver/constraints/nary/automata/FA/FiniteAutomaton.java:239-248 | One more symbol of addTransition adds the unit transition on that symbol's codepoint. |
| Graphs.ElemsPrefixStep | solver/src/main/java/org/chocosolver/solver/constraints/nary/automata/FA/FiniteAutomaton.java:239-245 | One more symbol of addTransition adds that symbol to the alphabet. |
| Graphs.UnitsAdd | solver/src/main/java/org/chocosolver/solver/constraints/nary/automata/FA/FiniteAutomaton.java:645-646 | One more triple adds a unit only to its own source state. |
| Graphs.UnitsOfEntries | solver/src/main/java/org/chocosolver/solver/constraints/nary/automata/FA/FiniteAutomaton.java:644-647 | Two lists of triples that agree on a state's triples give that state the same units. |
| Graphs.UnitsOfListed | solver/src/main/java/org/chocosolver/solver/constraints/nary/automata/FA/FiniteAutomaton.java:644-647 | The units a state of the copy receives from all listed triples are the units of that state's own triples. |
| Graphs.CopyKeepsEdge | solver/src/main/java/org/chocosolver/solver/constraints/nary/automata/FA/FiniteAutomaton.java:627-649 | A copy keeps every clamped edge on a usable codepoint. Every clamped reserved codepoint turns into codepoint 0. |
| Automata.FiniteAutomaton.constructor | solver/src/main/java/org/chocosolver/solver/constraints/nary/automata/FA/FiniteAutomaton.java:65-72 | A new automaton has no states, an empty alphabet and the full char bounds. Its initial state is the library's fresh one, with no index. |
| Automata.FiniteAutomaton.FromPattern | solver/src/main/java/org/chocosolver/solver/constraints/nary/automata/FA/FiniteAutomaton.java:84-91 | The bounds are clamped to the char range. The states then become the compiled graph's nodes, and the alphabet becomes the symbols of their clamped codepoints. |
| Automata.FiniteAutomaton.FromGraph | solver/src/main/java/org/chocosolver/solver/constraints/nary/automata/FA/FiniteAutomaton.java:109-112 | An automaton filled from the graph holds exactly the imported states, and its alphabet is exactly the set of symbols the fill imports over the given alphabet, which is a subset of it. Its initial state and determinism are the graph's, and its bounds are 0 and 0xFFFF. |
| Automata.FiniteAutomaton.Copy | solver/src/main/java/org/chocosolver/solver/constraints/nary/automata/FA/FiniteAutomaton.java:627-649 | The copy keeps each state's accept flag. It gets one unit transition per triple the original lists, and its alphabet is exactly the listed symbols. It keeps the initial index when that is in range, and the bounds are clamped. The copy is flagged deterministic whatever the original's flag, because perfectCopy builds a fresh library automaton and never copies the flag; so a copy of a nondeterministic automaton answers delta instead of refusing. |
| Automata.FiniteAutomaton.AddUnits | solver/src/main/java/org/chocosolver/solver/constraints/nary/automata/FA/FiniteAutomaton.java:644-647 | Replaying the listed triples adds exactly their unit transitions, and their symbols join the alphabet. |
| Automata.FiniteAutomaton.Clone | solver/src/main/java/org/chocosolver/solver/constraints/nary/automata/FA/FiniteAutomaton.java:595-616 | A fresh automaton with the same states, transitions and alphabet as a copy makes. The bounds are carried over unclamped. Like the copy, it is flagged deterministic whatever the original's flag, since clone never copies it. |
| Automata.FiniteAutomaton.AddState | solver/src/main/java/org/chocosolver/solver/constraints/nary/automata/FA/FiniteAutomaton.java:201-208 | Appends one non-accepting state without transitions and returns its index, which is the old size. |
| Automata.FiniteAutomaton.AddStates | solver/src/main/java/org/chocosolver/solver/constraints/nary/automata/FA/FiniteAutomaton.java:166-171 | Appends n non-accepting states without transitions and keeps the existing states and every other field. |
| Automata.FiniteAutomaton.InitialIndex | solver/src/main/java/org/chocosolver/solver/constraints/nary/automata/FA/FiniteAutomaton.java:317-323 | getInitialState returns -1 exactly when there is no initial state. Otherwise it returns the state's index, or 0 for a state that has no index. |
| Automata.FiniteAutomaton.GetInitialState | solver/src/main/java/org/chocosolver/solver/constraints/nary/automata/FA/FiniteAutomaton.java:317-323 | getInitialState returns -1 exactly when there is no initial state, and the index of an indexed initial state. On a valid automaton the result is below the state count, or it is the map default 0 for an initial state that has no index. |
| Automata.FiniteAutomaton.CopiedInitial | solver/src/main/java/org/chocosolver/solver/constraints/nary/automata/FA/FiniteAutomaton.java:641-642 | The copy has an indexed initial state exactly when the original's getInitialState() is a valid index. |
| Automata.FiniteAutomaton.SetInitialState | solver/src/main/java/org/chocosolver/solver/constraints/nary/automata/FA/FiniteAutomaton.java:343-350 | Afterwards getInitialState() returns the given state. Nothing else changes. |
| Automata.FiniteAutomaton.IsFinal | solver/src/main/java/org/chocosolver/solver/constraints/nary/automata/FA/FiniteAutomaton.java:325-332 | isFinal reads the accept flag of an in-range state. IsNotFinal, SetFinal, SetNonFinal and GetFinalStates are stated in terms of it. |
| Automata.FiniteAutomaton.IsNotFinal | solver/src/main/java/org/chocosolver/solver/constraints/nary/automata/FA/FiniteAutomaton.java:334-341 | isNotFinal is the negation of isFinal. |
| Automata.FiniteAutomaton.SetFinal | solver/src/main/java/org/chocosolver/solver/constraints/nary/automata/FA/FiniteAutomaton.java:352-359 | Only the given state's flag changes, and afterwards it is final. Calling it on a state that is already final changes nothing. |
| Automata.FiniteAutomaton.SetNonFinal | solver/src/main/java/org/chocosolver/solver/constraints/nary/automata/FA/FiniteAutomaton.java:365-372 | Only the given state's flag changes, and afterwards it is not final. Calling it on a state that is already non-final changes nothing. |
| Automata.FiniteAutomaton.SetFinalAll | solver/src/main/java/org/chocosolver/solver/constraints/nary/automata/FA/FiniteAutomaton.java:361-363 | A state is final afterwards if and only if it was final before or it is listed. |
| Automata.FiniteAutomaton.SetNonFinalAll | solver/src/main/java/org/chocosolver/solver/constraints/nary/automata/FA/FiniteAutomaton.java:375-377 | A state is final afterwards if and only if it was final before and it is not listed. |
| Automata.FiniteAutomaton.GetFinalStates | solver/src/main/java/org/chocosolver/solver/constraints/nary/automata/FA/FiniteAutomaton.java:479-486 | An index is returned if and only if it names an accepting state. |
| Automata.FiniteAutomaton.SetDeterministic | solver/src/main/java/org/chocosolver/solver/constraints/nary/automata/FA/FiniteAutomaton.java:475-477 | Only the determinism flag changes. |
| Automata.FiniteAutomaton.CheckState | solver/src/main/java/org/chocosolver/solver/constraints/nary/automata/FA/FiniteAutomaton.java:651-657 | Passes if and only if every id is below the state count. Otherwise it reports the first id at or above it. |
| Automata.FiniteAutomaton.AddToAlphabet | solver/src/main/java/org/chocosolver/solver/constraints/nary/automata/FA/FiniteAutomaton.java:309-311 | The symbol joins the alphabet, and nothing else changes. |
| Automata.FiniteAutomaton.RemoveFromAlphabet | solver/src/main/java/org/chocosolver/solver/constraints/nary/automata/FA/FiniteAutomaton.java:313-315 | The symbol leaves the alphabet, and nothing else changes. |
| Automata.FiniteAutomaton.AddTransition | solver/src/main/java/org/chocosolver/solver/constraints/nary/automata/FA/FiniteAutomaton.java:232-244 | The source state gains one unit transition per symbol, on the symbol's codepoint, to the destination. The symbols join the alphabet. With no symbols, nothing changes. |
| Automata.FiniteAutomaton.DeleteTransition | solver/src/main/java/org/chocosolver/solver/constraints/nary/automata/FA/FiniteAutomaton.java:246-274 | Only the source state changes, and it changes as SplitDelete says. |
| Automata.FiniteAutomaton.SplitTransitions | solver/src/main/java/org/chocosolver/solver/constraints/nary/automata/FA/FiniteAutomaton.java:257-272 | The iterator loop keeps exactly the transitions it does not hit and collects exactly the pieces of the ones it hits. Its upper-endpoint branch tests `lo < c`, the corrected guard; see "## Left out". |
| Automata.FiniteAutomaton.HitDestinations | solver/src/main/java/org/chocosolver/solver/constraints/nary/automata/FA/FiniteAutomaton.java:216-221 | Collects the destination of every transition carrying c, all of them in range. The list is non-empty exactly when some transition carries c. |
| Automata.FiniteAutomaton.StripState | solver/src/main/java/org/chocosolver/solver/constraints/nary/automata/FA/FiniteAutomaton.java:214-226 | One pass cuts the codepoint out of every transition of state i and reports whether any transition carried it. This holds of the corrected pieces; see "## Left out". |
| Automata.FiniteAutomaton.RemoveSymbolFromAutomaton | solver/src/main/java/org/chocosolver/solver/constraints/nary/automata/FA/FiniteAutomaton.java:211-230 | Every state's transitions become StripSymbol of the old ones, and the symbol leaves the alphabet. This holds of the corrected pieces; see "## Left out". |
| Automata.FiniteAutomaton.RemoveSymbolWithCouples | solver/src/main/java/org/chocosolver/solver/constraints/nary/automata/FA/FiniteAutomaton.java:551-593 | Makes the same change as removeSymbolFromAutomaton. The couples returned are exactly those of the transitions, after removal, that lead into a state which before removal had a transition carrying the codepoint. This holds of the corrected pieces; see "## Left out". |
| Automata.FiniteAutomaton.CouplesOfStates | solver/src/main/java/org/chocosolver/solver/constraints/nary/automata/FA/FiniteAutomaton.java:572-586 | Lists exactly the couples of all states. |
| Automata.FiniteAutomaton.CouplesAt | solver/src/main/java/org/chocosolver/solver/constraints/nary/automata/FA/FiniteAutomaton.java:574-582 | Lists exactly one state's couples. |
| Automata.FiniteAutomaton.CouplesOfTransition | solver/src/main/java/org/chocosolver/solver/constraints/nary/automata/FA/FiniteAutomaton.java:578-579 | Lists exactly the couples (i, symbol) of the codepoints of one transition. |
| Automata.FiniteAutomaton.Delta | solver/src/main/java/org/chocosolver/solver/constraints/nary/automata/FA/FiniteAutomaton.java:276-292 | Refuses if and only if the automaton is not flagged deterministic. Otherwise it returns -1 exactly when no transition carries the codepoint, and else one of the successors. |
| Automata.FiniteAutomaton.DeltaAll | solver/src/main/java/org/chocosolver/solver/constraints/nary/automata/FA/FiniteAutomaton.java:294-306 | Adds to the caller's set exactly the successors on the codepoint, and they are in range. |
| Automata.FiniteAutomaton.GetTransitionsOf | solver/src/main/java/org/chocosolver/solver/constraints/nary/automata/FA/FiniteAutomaton.java:535-548 | Lists exactly the state's triples for the clamped codepoints. Every triple starts at the state and ends in range. |
| Automata.FiniteAutomaton.EntriesOfTransition | solver/src/main/java/org/chocosolver/solver/constraints/nary/automata/FA/FiniteAutomaton.java:539-545 | Lists exactly one transition's triples. |
| Automata.FiniteAutomaton.GetTransitions | solver/src/main/java/org/chocosolver/solver/constraints/nary/automata/FA/FiniteAutomaton.java:527-533 | Lists exactly the triples of all states, ordered by source, all indices in range. |
| Automata.FiniteAutomaton.CollectSymbols | solver/src/main/java/org/chocosolver/solver/constraints/nary/automata/FA/FiniteAutomaton.java:667-673 | Adds exactly the symbols of a state's transitions to the alphabet. |
| Automata.FiniteAutomaton.CollectSymbolsOf | solver/src/main/java/org/chocosolver/solver/constraints/nary/automata/FA/FiniteAutomaton.java:668-672 | Adds exactly one transition's clamped symbols to the alphabet. |
| Automata.FiniteAutomaton.SyncStates | solver/src/main/java/org/chocosolver/solver/constraints/nary/automata/FA/FiniteAutomaton.java:659-676 | The states become the graph's nodes in order, and the initial state and determinism flag follow the graph. The alphabet becomes exactly the symbols of the clamped codepoints. |
| Automata.FiniteAutomaton.ImportTransition | solver/src/main/java/org/chocosolver/solver/constraints/nary/automata/FA/FiniteAutomaton.java:179-187 | Adds exactly the units of the alphabet symbols in the transition's symbol range to the source state, and those symbols join the alphabet. The range runs from the transition's first usable codepoint to its last (see Findings). |
| Automata.FiniteAutomaton.FillNode | solver/src/main/java/org/chocosolver/solver/constraints/nary/automata/FA/FiniteAutomaton.java:172-190 | The node's state takes the node's flag and its imported transitions, and becomes initial if the node is. |
| Automata.FiniteAutomaton.ImportNode | solver/src/main/java/org/chocosolver/solver/constraints/nary/automata/FA/FiniteAutomaton.java:178-188 | Adds all imported units of a node's transitions to the state. |
| Automata.FiniteAutomaton.Fill | solver/src/main/java/org/chocosolver/solver/constraints/nary/automata/FA/FiniteAutomaton.java:156-191 | Appends exactly the imported states, adds their symbols to the alphabet, and takes over the graph's initial state and determinism flag. |
| Automata.FiniteAutomaton.Union | solver/src/main/java/org/chocosolver/solver/constraints/nary/automata/FA/FiniteAutomaton.java:420-425 | The result is filled from the union graph over the union of both alphabets. Its states and its alphabet are exactly those the fill imports from that graph over that alphabet (so the alphabet lies within it), its initial state and determinism are the graph's, and its bounds are 0 and 0xFFFF. |
| Automata.FiniteAutomaton.Intersection | solver/src/main/java/org/chocosolver/solver/constraints/nary/automata/FA/FiniteAutomaton.java:428-437 | The result is filled from the product graph over the common symbols. Its states and its alphabet are exactly those the fill imports from that graph over that alphabet (so the alphabet lies within it), its initial state and determinism are the graph's, and its bounds are 0 and 0xFFFF. |
| Automata.FiniteAutomaton.Concatenate | solver/src/main/java/org/chocosolver/solver/constraints/nary/automata/FA/FiniteAutomaton.java:448-453 | The result is filled from the concatenation graph over the union of both alphabets. Its states and its alphabet are exactly those the fill imports from that graph over that alphabet (so the alphabet lies within it), its initial state and determinism are the graph's, and its bounds are 0 and 0xFFFF. |
| Automata.FiniteAutomaton.Complement | solver/src/main/java/org/chocosolver/solver/constraints/nary/automata/FA/FiniteAutomaton.java:439-446 | The result is filled from the complement graph over the given alphabet. Its states and its alphabet are exactly those the fill imports from that graph over that alphabet (so the alphabet lies within it), its initial state and determinism are the graph's, and its bounds are 0 and 0xFFFF. |
| Automata.FiniteAutomaton.Repeat | solver/src/main/java/org/chocosolver/solver/constraints/nary/automata/FA/FiniteAutomaton.java:393-403 | The result is filled from the repetition graph over this automaton's alphabet. Its states and its alphabet are exactly those the fill imports from that graph over that alphabet (so the alphabet lies within it), its initial state and determinism are the graph's, and its bounds are 0 and 0xFFFF. |

## Left out

- The brics library is not part of this model. It compiles patterns (including `StringUtils.toCharExp`) and builds the union, product, complement, concatenation and repetition graphs. Those graphs are inputs.
- `run`, `makeBricsAutomaton` and `addEpsilon` pass straight to the library, so the model leaves them out.
- `minimize`, `reduce` and `removeDeadTransitions` run a library operation and then `syncStates`. The library operation is left out. Their effect on the wrapper is `SyncStates` on the graph returned.
- The one-argument pattern constructor `FiniteAutomaton(regexp)` is `FromPattern` with the bounds 0 and 0xFFFF.
- Automata.FiniteAutomaton.Delta: the library's `State.step` returns the first matching transition in its hash set's order. The model promises only some successor, and the two agree once the state is deterministic (Graphs.DeterministicStep).
- Hash iteration order is left open throughout. Sets are sets, and results in list form are specified by their elements. GetTransitions also states the order by state index.
- The `stateToIndex` map is the identity on list positions, so the model uses positions directly.
- `toDot`, `toDotty`, `appendDot` and `toString` are printing and file I/O, so the model leaves them out.
- `getNbStates`, `getNbSymbols`, `getAlphabet` and `isDeterministic` read the fields `nbStates`, `|alphabet|`, `alphabet` and `deterministic`.
- The `nexts` buffer that `clone` shares with the original (a shallow copy) is not modelled. DeltaAll computes the successors directly.
- In the code, an out-of-range state index makes `checkState` throw, but the exception is swallowed and the list lookup then fails. The model states this as a precondition on the methods that look states up. `CheckState` itself returns an error result instead of throwing.
- Automata.FiniteAutomaton.DeleteTransition models the corrected upper-endpoint branch, because the code's branch cannot run (see Findings). Graphs.SplitDeleteAsWritten is the code as written.
- Graphs.PiecesCover: states the corrected pieces. As written, hitting the upper end c of [lo, c] with lo < c puts nothing back, so the code loses [lo, c - 1]; Graphs.PiecesAsWritten and Graphs.AsWrittenUpperBranchDead state that case.
- Graphs.DeleteTransitionExact: holds of the corrected SplitDelete only. As written, deleting 7 from [5, 7] -> 1 also loses 5 and 6 (Graphs.AsWrittenDropsLowerRemainder).
- Graphs.SplitForAll: concludes StripSymbol, which uses the corrected pieces. The loop at lines 222-224 calls the code's deleteTransition, whose result is Graphs.StripSymbolAsWritten.
- Graphs.StripSymbol: is the removal with the corrected pieces. The code as written is Graphs.StripSymbolAsWritten, which is no larger and differs exactly where a transition ends at the codepoint and starts below it (Graphs.StripSymbolAsWrittenAgrees).
- Graphs.StripSymbolExact: describes the corrected removal. As written, removing codepoint 7 from [5, 7] -> 1 also stops 5 and 6 leading to state 1 (Graphs.AsWrittenRemovalDropsLowerRemainder).
- Automata.FiniteAutomaton.SplitTransitions: tests `t.lo < c` in its upper-endpoint branch where the code tests `t.getMin() > c`. The code's branch can never run, so the code puts nothing back for that case.
- Automata.FiniteAutomaton.StripState: calls the corrected DeleteTransition. The code's pass keeps nothing of a transition [lo, c] with lo < c.
- Automata.FiniteAutomaton.RemoveSymbolFromAutomaton: inherits the corrected removal. Through the code's deleteTransition it drops the lower remainder of every transition that ends at the codepoint and starts below it.
- Automata.FiniteAutomaton.RemoveSymbolWithCouples: inherits the corrected removal. Its states, and the couples it lists from them, differ from the code's on transitions that end at the codepoint and start below it.
- Automata.FiniteAutomaton.AddTransition: accumulates the new states and alphabet in local variables and assigns the fields once after the loop. No other code runs in between, so the final state is the same.
- Automata.FiniteAutomaton.ImportTransition: reads the transition's endpoints with the corrected Codec.IntervalSymbols. The code uses getIntFromChar, which reads a reserved endpoint as 0 (see Findings). Graphs.ImportedOneAsWritten is the code as written.
- Automata.FiniteAutomaton.Fill, FillNode, ImportNode, FromGraph, Union, Intersection, Concatenate, Complement and Repeat: import through ImportTransition, so they inherit its corrected reading of reserved endpoints.
- Automata.FiniteAutomaton.GetTransitionsOf, EntriesOfTransition, CollectSymbolsOf, CouplesAt and CouplesOfTransition count codepoints with an unbounded integer. The code's `char` counter never terminates at 0xFFFF (see Findings).
- The other files of the automata package (the constraint propagators, cost automata and the `IAutomaton` interface beyond these members) are not part of this model.

## Findings

| source | as written | input that shows it | evidently intended | confidence | as-written member | corrected member |
|---|---|---|---|---|---|---|
| solver/src/main/java/org/chocosolver/solver/constraints/nary/automata/FA/FiniteAutomaton.java:542 | `for (char c = m; c <= M; c++)` in getTransitions(state), in syncStates and in _removeSymbolFromAutomaton: a `char` is always `<= 0xFFFF`, so with M == 0xFFFF the counter wraps to 0 and the loop never ends | `addTransition(0, 0, 65526)` on a one-state automaton: symbol 65526 maps to codepoint 0xFFFF, so the state gets the transition [0xFFFF, 0xFFFF], and then `getTransitions()` loops from 0xFFFF up to 0xFFFF | visit each codepoint from m to M once and stop | not executed | Graphs.TopCodepointLoopSpins | Automata.FiniteAutomaton.EntriesOfTransition |
| solver/src/main/java/org/chocosolver/solver/constraints/nary/automata/FA/FiniteAutomaton.java:265 | `else if (t.getMin() > c && c == t.getMax())`: under the enclosing guard `getMin() <= c` this branch can never run, so deleting the upper end of a longer interval drops the whole transition | deleteTransition on [5, 7] to state 1 with codepoint 7: as written nothing is put back, so 5 and 6 no longer lead to state 1. removeSymbolFromAutomaton and _removeSymbolFromAutomaton delete through deleteTransition (lines 222-224 and 564-566), so removing that codepoint from such a state loses 5 and 6 too (Graphs.AsWrittenRemovalDropsLowerRemainder against the corrected Graphs.StripSymbol) | `t.getMin() < c`, putting back [lo, c - 1] | not executed | Graphs.AsWrittenDropsLowerRemainder | Graphs.DeleteUpperEndpoint |
| solver/src/main/java/org/chocosolver/solver/constraints/nary/automata/FA/FiniteAutomaton.java:179-180 | `int tmin = getIntFromChar(t.getMin()); int tmax = getIntFromChar(t.getMax());` in fill: no symbol is mapped to a reserved codepoint, so a reserved endpoint reads as the map default 0 and the loop over symbols starts at, or stops at, 0 | a library transition [34, 0xFFFF], the gap a complement leaves above a unit on '!' (codepoint 33), imports symbol 33, which it does not contain; a transition [0, 34] imports only symbol 0 and loses 1..33 | start at the symbol of the first usable codepoint of the interval and stop at that of the last | not executed | Graphs.AsWrittenImportAddsSymbol | Graphs.ImportKeepsSymbol |
