/**
 * FiniteAutomaton: the index-addressed view that the automaton-based constraints use
 * over a graph of the automaton library. The library's state objects are the elements
 * of `states`, and a state's index is its position there.
 */
module Automata {
  import opened Outcomes
  import opened Codec
  import opened Graphs
  import opened IntSets

  /** Where the library automaton's initial state is. */
  datatype Initial =
    | NoInitial            // the library reports no initial state
    | AtState(index: nat)  // the state with this index
    | Detached             // the fresh initial state a new library automaton starts with: it has no index

  class FiniteAutomaton {
    var states: seq<State>
    var nbStates: int
    var alphabet: set<Int32>
    var min: int
    var max: int
    var initial: Initial
    var deterministic: bool

    /** nbStates counts the states, every transition leads to a state, the initial state has an index in range. */
    ghost predicate Valid()
      reads this
    {
      nbStates == |states| && Closed(states) && (initial.AtState? ==> initial.index < |states|)
    }

    /** FiniteAutomaton() (FiniteAutomaton.java:65-72), over a fresh library automaton. */
    constructor ()
      ensures Valid()
      ensures states == [] && nbStates == 0 && alphabet == {}
      ensures min == 0 && max == 0xFFFF && initial == Detached && deterministic
    {
      states, nbStates, alphabet := [], 0, {};
      min, max := 0, 0xFFFF;
      initial, deterministic := Detached, true;
    }

    /**
     * FiniteAutomaton(regexp, min, max) (FiniteAutomaton.java:84-91), given the graph the
     * pattern compiles to: clamp the bounds to the char range, then resynchronise.
     */
    constructor FromPattern(g: Graph, lo: Int32, hi: Int32)
      requires WellFormed(g)
      ensures Valid()
      ensures min == (if lo > 0 then lo else 0) && max == (if hi < 0xFFFF then hi else 0xFFFF)
      ensures states == g.nodes && alphabet == SymbolsUpTo(g.nodes, |g.nodes|, min, max)
      ensures initial == AtState(g.initial) && deterministic == g.deterministic
    {
      states, nbStates, alphabet := [], 0, {};
      min := if lo > 0 then lo else 0;
      max := if hi < 0xFFFF then hi else 0xFFFF;
      initial, deterministic := Detached, true;
      new;
      SyncStates(g);
    }

    /** The private FiniteAutomaton(a, alphabet) (FiniteAutomaton.java:109-112): an empty automaton filled from g. */
    constructor FromGraph(g: Graph, alpha: set<Int32>)
      requires WellFormed(g)
      ensures Valid()
      ensures states == ImportedStates(g.nodes, alpha, 0)
      ensures alphabet == ImportedSymbolsUpTo(g.nodes, |g.nodes|, alpha)
      ensures alphabet <= alpha
      ensures initial == AtState(g.initial) && deterministic == g.deterministic
      ensures min == 0 && max == 0xFFFF
    {
      states, nbStates, alphabet := [], 0, {};
      min, max := 0, 0xFFFF;
      initial, deterministic := Detached, true;
      new;
      Fill(g, alpha);
      ImportedSymbolsWithin(g.nodes, |g.nodes|, alpha);
    }

    /**
     * FiniteAutomaton(other) through perfectCopy (FiniteAutomaton.java:105-107, 627-649):
     * one state per index of other with its accept flag, the initial index if other has
     * one in range, and one unit transition per triple of other.getTransitions().
     */
    constructor Copy(other: FiniteAutomaton)
      requires other.Valid()
      ensures Valid()
      ensures |states| == |other.states|
      ensures forall i :: 0 <= i < |states| ==>
        states[i] == State(other.states[i].accept, Units(EntriesOf(i, other.states[i].trans, other.min, other.max), i))
      ensures alphabet == SymbolColumn(EntriesUpTo(other.states, |other.states|, other.min, other.max))
      ensures nbStates == |other.states|
      ensures initial == CopiedInitial(other.GetInitialState(), |other.states|)
      ensures deterministic
      ensures min == (if other.min > 0 then other.min else 0) && max == (if other.max < 0xFFFF then other.max else 0xFFFF)
    {
      states, alphabet := [], {};
      nbStates := other.nbStates;
      min := if other.min > 0 then other.min else 0;
      max := if other.max < 0xFFFF then other.max else 0xFFFF;
      initial, deterministic := Detached, true;
      new;
      var i := 0;
      while i < other.nbStates
        invariant 0 <= i <= other.nbStates && |states| == i
        invariant forall k :: 0 <= k < i ==> states[k] == State(other.states[k].accept, {})
        invariant Closed(states)
        invariant initial == CopiedInitial(other.GetInitialState(), i)
        invariant nbStates == other.nbStates && alphabet == {} && deterministic
        invariant min == (if other.min > 0 then other.min else 0) && max == (if other.max < 0xFFFF then other.max else 0xFFFF)
      {
        var s := State(false, {});
        if !other.IsNotFinal(i) {
          s := s.(accept := true);
        }
        states := states + [s];
        if other.GetInitialState() == i {
          initial := AtState(i);
        }
        i := i + 1;
      }
      var ts := other.GetTransitions();
      AddUnits(ts);
      forall k | 0 <= k < |states|
        ensures states[k] == State(other.states[k].accept, Units(EntriesOf(k, other.states[k].trans, other.min, other.max), k))
      {
        UnitsOfListed(other.states, other.min, other.max, k);
        assert {} + Units(Elems(ts), k) == Units(Elems(ts), k);
      }
    }

    /**
     * The last loop of perfectCopy and clone (FiniteAutomaton.java:644-647, 611-614): one
     * addTransition(t[0], t[1], t[2]) per listed triple.
     */
    method AddUnits(ts: seq<Entry>)
      requires Valid() && forall k :: 0 <= k < |ts| ==> ts[k].source < |states| && ts[k].dest < |states|
      modifies this
      ensures Valid() && states == AddedUnits(old(states), Elems(ts))
      ensures alphabet == old(alphabet) + SymbolColumn(Elems(ts))
      ensures nbStates == old(nbStates) && initial == old(initial)
      ensures deterministic == old(deterministic) && min == old(min) && max == old(max)
    {
      assert Elems(ts[..0]) == {};
      AddedNoUnits(states);
      var j := 0;
      while j < |ts|
        invariant 0 <= j <= |ts| && Valid() && states == AddedUnits(old(states), Elems(ts[..j]))
        invariant alphabet == old(alphabet) + SymbolColumn(Elems(ts[..j]))
        invariant nbStates == old(nbStates) && initial == old(initial)
        invariant deterministic == old(deterministic) && min == old(min) && max == old(max)
      {
        var e := ts[j];
        AddTransition(e.source, e.dest, [e.symbol]);
        assert UnitsFor([e.symbol], e.dest) == {Unit(CharFromInt(e.symbol), e.dest)};
        assert Elems([e.symbol]) == {e.symbol};
        ElemsPrefixStep(ts, j);
        SymbolColumnUnion(Elems(ts[..j]), {e});
        SymbolColumnOne(e);
        AddedUnitsStep(old(states), Elems(ts[..j]), e);
        j := j + 1;
      }
      assert ts[..|ts|] == ts;
    }

    /**
     * clone (FiniteAutomaton.java:595-616): the same copy as perfectCopy, except that the
     * bounds are carried over as they are instead of being clamped to the char range.
     */
    method Clone() returns (auto: FiniteAutomaton)
      requires Valid()
      ensures fresh(auto) && auto.Valid()
      ensures |auto.states| == |states|
      ensures forall i :: 0 <= i < |states| ==>
        auto.states[i] == State(states[i].accept, Units(EntriesOf(i, states[i].trans, min, max), i))
      ensures auto.alphabet == SymbolColumn(EntriesUpTo(states, |states|, min, max))
      ensures auto.initial == CopiedInitial(GetInitialState(), |states|) && auto.deterministic
      ensures auto.min == min && auto.max == max
    {
      auto := new FiniteAutomaton.Copy(this);
      auto.min, auto.max := min, max;
    }

    // -------------------------------------------------------------------------------
    // States and accept flags
    // -------------------------------------------------------------------------------

    /** addState (FiniteAutomaton.java:201-208): append a non-accepting state without transitions. */
    method AddState() returns (idx: int)
      requires Valid()
      modifies this
      ensures Valid()
      ensures idx == |old(states)| && states == old(states) + [State(false, {})]
      ensures nbStates == old(nbStates) + 1
      ensures alphabet == old(alphabet) && initial == old(initial) && deterministic == old(deterministic)
      ensures min == old(min) && max == old(max)
    {
      idx := |states|;
      states := states + [State(false, {})];
      nbStates := nbStates + 1;
    }

    /** The value getInitialState returns for an initial state and n states (FiniteAutomaton.java:317-323). */
    static function InitialIndex(init: Initial): (r: int)
      ensures r == -1 <==> init.NoInitial?
      ensures init.AtState? ==> r == init.index
      ensures init.Detached? ==> r == 0
    {
      match init
      case NoInitial => -1
      case AtState(i) => i
      case Detached => 0   // the index map's default for an object it does not hold
    }

    /** getInitialState (FiniteAutomaton.java:317-323). */
    function GetInitialState(): (r: int)
      reads this
      ensures r == -1 <==> initial.NoInitial?
      ensures initial.AtState? ==> r == initial.index
      ensures Valid() ==> -1 <= r < |states| || (initial.Detached? && r == 0)
    {
      InitialIndex(initial)
    }

    /** The initial state of a copy of an automaton with n states whose getInitialState() is r. */
    static function CopiedInitial(r: int, n: nat): (init: Initial)
      ensures init.AtState? <==> 0 <= r < n
      ensures init.AtState? ==> init.index == r
      ensures !init.AtState? ==> init == Detached
    {
      if 0 <= r < n then AtState(r) else Detached
    }

    /** setInitialState (FiniteAutomaton.java:343-350). */
    method SetInitialState(state: int)
      requires Valid() && 0 <= state < |states|
      modifies this
      ensures Valid() && initial == AtState(state) && GetInitialState() == state
      ensures states == old(states) && alphabet == old(alphabet) && nbStates == old(nbStates)
      ensures deterministic == old(deterministic) && min == old(min) && max == old(max)
    {
      initial := AtState(state);
    }

    /** isFinal (FiniteAutomaton.java:325-332). */
    function IsFinal(state: int): bool
      reads this
      requires 0 <= state < |states|
    {
      states[state].accept
    }

    /** isNotFinal (FiniteAutomaton.java:334-341): the negation of isFinal. */
    function IsNotFinal(state: int): (r: bool)
      reads this
      requires 0 <= state < |states|
      ensures r == !IsFinal(state)
    {
      !states[state].accept
    }

    /** setFinal (FiniteAutomaton.java:352-359): raise the accept flag of one state, a no-op if it is already raised. */
    method SetFinal(state: int)
      requires Valid() && 0 <= state < |states|
      modifies this
      ensures Valid() && |states| == |old(states)| && IsFinal(state)
      ensures states == old(states)[state := old(states[state]).(accept := true)]
      ensures old(states[state].accept) ==> states == old(states)
      ensures alphabet == old(alphabet) && nbStates == old(nbStates) && initial == old(initial)
      ensures deterministic == old(deterministic) && min == old(min) && max == old(max)
    {
      states := states[state := states[state].(accept := true)];
    }

    /** setNonFinal (FiniteAutomaton.java:365-372): lower the accept flag of one state, a no-op if it is already lowered. */
    method SetNonFinal(state: int)
      requires Valid() && 0 <= state < |states|
      modifies this
      ensures Valid() && |states| == |old(states)| && !IsFinal(state)
      ensures states == old(states)[state := old(states[state]).(accept := false)]
      ensures !old(states[state].accept) ==> states == old(states)
      ensures alphabet == old(alphabet) && nbStates == old(nbStates) && initial == old(initial)
      ensures deterministic == old(deterministic) && min == old(min) && max == old(max)
    {
      states := states[state := states[state].(accept := false)];
    }

    /** setFinal(int...) (FiniteAutomaton.java:361-363): the listed states become accepting, and only they change. */
    method SetFinalAll(ids: seq<int>)
      requires Valid() && forall k :: 0 <= k < |ids| ==> 0 <= ids[k] < |states|
      modifies this
      ensures Valid() && |states| == |old(states)|
      ensures forall i :: 0 <= i < |states| ==>
        states[i] == old(states[i]).(accept := old(states[i].accept) || i in ids)
      ensures alphabet == old(alphabet) && nbStates == old(nbStates) && initial == old(initial)
      ensures deterministic == old(deterministic) && min == old(min) && max == old(max)
    {
      var j := 0;
      while j < |ids|
        invariant 0 <= j <= |ids| && Valid() && |states| == |old(states)|
        invariant forall i :: 0 <= i < |states| ==> states[i] == old(states[i]).(accept := old(states[i].accept) || i in ids[..j])
        invariant alphabet == old(alphabet) && nbStates == old(nbStates) && initial == old(initial)
        invariant deterministic == old(deterministic) && min == old(min) && max == old(max)
      {
        SetFinal(ids[j]);
        assert ids[..j + 1] == ids[..j] + [ids[j]];
        j := j + 1;
      }
      assert ids[..|ids|] == ids;
    }

    /** setNonFInal(int...) (FiniteAutomaton.java:375-377): the listed states become non-accepting, and only they change. */
    method SetNonFinalAll(ids: seq<int>)
      requires Valid() && forall k :: 0 <= k < |ids| ==> 0 <= ids[k] < |states|
      modifies this
      ensures Valid() && |states| == |old(states)|
      ensures forall i :: 0 <= i < |states| ==>
        states[i] == old(states[i]).(accept := old(states[i].accept) && i !in ids)
      ensures alphabet == old(alphabet) && nbStates == old(nbStates) && initial == old(initial)
      ensures deterministic == old(deterministic) && min == old(min) && max == old(max)
    {
      var j := 0;
      while j < |ids|
        invariant 0 <= j <= |ids| && Valid() && |states| == |old(states)|
        invariant forall i :: 0 <= i < |states| ==> states[i] == old(states[i]).(accept := old(states[i].accept) && i !in ids[..j])
        invariant alphabet == old(alphabet) && nbStates == old(nbStates) && initial == old(initial)
        invariant deterministic == old(deterministic) && min == old(min) && max == old(max)
      {
        SetNonFinal(ids[j]);
        assert ids[..j + 1] == ids[..j] + [ids[j]];
        j := j + 1;
      }
      assert ids[..|ids|] == ids;
    }

    /** getFinalStates (FiniteAutomaton.java:479-486): exactly the indices of the accepting states. */
    method GetFinalStates() returns (finals: set<int>)
      requires Valid()
      ensures forall i :: i in finals <==> 0 <= i < |states| && IsFinal(i)
    {
      finals := {};
      var i := 0;
      while i < |states|
        invariant 0 <= i <= |states|
        invariant forall k :: k in finals <==> 0 <= k < i && IsFinal(k)
      {
        if states[i].accept {
          finals := finals + {i};
        }
        i := i + 1;
      }
    }

    /** setDeterministic (FiniteAutomaton.java:475-477). */
    method SetDeterministic(flag: bool)
      requires Valid()
      modifies this
      ensures Valid() && deterministic == flag
      ensures states == old(states) && alphabet == old(alphabet) && nbStates == old(nbStates)
      ensures initial == old(initial) && min == old(min) && max == old(max)
    {
      deterministic := flag;
    }

    /**
     * checkState (FiniteAutomaton.java:651-657): reject the first index at or above the
     * state count. Negative indices pass.
     */
    method CheckState(ids: seq<int>) returns (r: Result<(), Failure>)
      ensures r.Ok? <==> forall k :: 0 <= k < |ids| ==> ids[k] < |states|
      ensures r.Err? ==> exists k :: (0 <= k < |ids| && ids[k] >= |states| && r.error == StateNotInAutomaton(ids[k])
        && forall j :: 0 <= j < k ==> ids[j] < |states|)
    {
      var sz := |states|;
      var k := 0;
      while k < |ids|
        invariant 0 <= k <= |ids|
        invariant forall j :: 0 <= j < k ==> ids[j] < sz
      {
        if ids[k] >= sz {
          return Err(StateNotInAutomaton(ids[k]));
        }
        k := k + 1;
      }
      return Ok(());
    }

    // -------------------------------------------------------------------------------
    // Alphabet
    // -------------------------------------------------------------------------------

    /** addToAlphabet (FiniteAutomaton.java:309-311). */
    method AddToAlphabet(a: Int32)
      requires Valid()
      modifies this
      ensures Valid() && alphabet == old(alphabet) + {a}
      ensures states == old(states) && nbStates == old(nbStates) && initial == old(initial)
      ensures deterministic == old(deterministic) && min == old(min) && max == old(max)
    {
      alphabet := alphabet + {a};
    }

    /** removeFromAlphabet (FiniteAutomaton.java:313-315). */
    method RemoveFromAlphabet(a: Int32)
      requires Valid()
      modifies this
      ensures Valid() && alphabet == old(alphabet) - {a}
      ensures states == old(states) && nbStates == old(nbStates) && initial == old(initial)
      ensures deterministic == old(deterministic) && min == old(min) && max == old(max)
    {
      alphabet := alphabet - {a};
    }

    // -------------------------------------------------------------------------------
    // Transitions
    // -------------------------------------------------------------------------------

    /**
     * addTransition (FiniteAutomaton.java:232-244): for each symbol, add it to the alphabet
     * and insert the unit transition on its codepoint from source to destination. The
     * index check's exception is swallowed; it is the list lookups that need the indices
     * in range, and they run only when there is a symbol.
     */
    method AddTransition(source: int, destination: int, symbols: seq<Int32>)
      requires Valid()
      requires |symbols| > 0 ==> 0 <= source < |states| && 0 <= destination < |states|
      modifies this
      ensures Valid() && |states| == |old(states)|
      ensures |symbols| == 0 ==> states == old(states)
      ensures |symbols| > 0 ==> states == AddedTo(old(states), source, UnitsFor(symbols, destination))
      ensures alphabet == old(alphabet) + Elems(symbols)
      ensures nbStates == old(nbStates) && initial == old(initial)
      ensures deterministic == old(deterministic) && min == old(min) && max == old(max)
    {
      // The states and the alphabet are accumulated locally and written back once.
      var ss, alpha := states, alphabet;
      if |symbols| > 0 {
        assert UnitsFor(symbols[..0], destination) == {};
        AddedToNothing(ss, source);
      }
      var j := 0;
      while j < |symbols|
        invariant 0 <= j <= |symbols| && Closed(ss) && |ss| == |states|
        invariant |symbols| == 0 ==> ss == states
        invariant |symbols| > 0 ==> ss == AddedTo(states, source, UnitsFor(symbols[..j], destination))
        invariant alpha == alphabet + Elems(symbols[..j])
        modifies {}
      {
        var symbol := symbols[j];
        alpha := alpha + {symbol};
        var u := Unit(CharFromInt(symbol), destination);
        UnitsForPrefixStep(symbols, j, destination);
        ElemsPrefixStep(symbols, j);
        AddedToTwice(states, source, UnitsFor(symbols[..j], destination), {u});
        AddedToClosed(ss, source, {u});
        ss := AddedTo(ss, source, {u});
        j := j + 1;
      }
      assert symbols[..|symbols|] == symbols;
      states, alphabet := ss, alpha;
    }

    /**
     * deleteTransition (FiniteAutomaton.java:246-274): remove every transition of source to
     * destination that carries the symbol's codepoint c, and put back what is left of it
     * on either side of c. The upper-endpoint branch uses the evidently intended guard
     * `lo < c` (the code tests `lo > c`; see Graphs.PiecesAsWritten).
     */
    method DeleteTransition(source: int, destination: int, symbol: Int32)
      requires Valid() && 0 <= source < |states| && 0 <= destination < |states|
      modifies this
      ensures Valid() && |states| == |old(states)|
      ensures states == old(states)[source :=
        State(old(states[source].accept), SplitDelete(old(states[source].trans), destination, CharFromInt(symbol)))]
      ensures alphabet == old(alphabet) && nbStates == old(nbStates) && initial == old(initial)
      ensures deterministic == old(deterministic) && min == old(min) && max == old(max)
    {
      var c := CharFromInt(symbol);
      var transitions := states[source].trans;
      var kept, nTrans := SplitTransitions(transitions, destination, c);
      assert forall t :: t in transitions ==> t.dest < |states|;
      SplitForWithin(transitions, {destination}, c, |states|);
      ClosedUpdate(states, source, states[source].(trans := kept + nTrans));
      states := states[source := states[source].(trans := kept + nTrans)];
    }

    /**
     * The iterator loop of deleteTransition (FiniteAutomaton.java:257-272): the transitions
     * it leaves in place and the pieces it collects for addAll.
     */
    static method SplitTransitions(transitions: set<Transition>, destination: nat, c: Char16)
      returns (kept: set<Transition>, nTrans: set<Transition>)
      ensures kept == KeptFor(transitions, {destination}, c)
      ensures nTrans == CutFor(transitions, {destination}, c)
    {
      kept, nTrans := {}, {};
      var todo := transitions;
      ghost var done: set<Transition> := {};
      while todo != {}
        invariant done + todo == transitions && done !! todo
        invariant kept == KeptFor(done, {destination}, c)
        invariant nTrans == CutFor(done, {destination}, c)
        decreases todo
      {
        var t :| t in todo;
        SplitStep(done, t, {destination}, c);
        if t.dest == destination && t.lo <= c && t.hi >= c {
          if t.lo == c && c < t.hi {
            nTrans := nTrans + {Transition(c + 1, t.hi, destination)};
          } else if t.lo < c && c == t.hi {
            nTrans := nTrans + {Transition(t.lo, c - 1, destination)};
          } else if t.lo < c && c < t.hi {
            nTrans := nTrans + {Transition(t.lo, c - 1, destination), Transition(c + 1, t.hi, destination)};
          }
        } else {
          kept := kept + {t};
        }
        todo, done := todo - {t}, done + {t};
      }
    }

    /**
     * The destinations of the transitions of state i that carry c: the triples one pass of
     * removeSymbolFromAutomaton collects (FiniteAutomaton.java:216-221).
     */
    method HitDestinations(i: int, c: Char16) returns (dests: seq<int>)
      requires Valid() && 0 <= i < |states|
      ensures forall t :: t in states[i].trans && Contains(t, c) ==> t.dest in dests
      ensures forall k :: 0 <= k < |dests| ==> 0 <= dests[k] < |states|
      ensures |dests| > 0 <==> Carries(states[i].trans, c)
    {
      dests := [];
      var todo := states[i].trans;
      ghost var done: set<Transition> := {};
      while todo != {}
        invariant done + todo == states[i].trans && done !! todo
        invariant forall t :: t in done && Contains(t, c) ==> t.dest in dests
        invariant forall k :: 0 <= k < |dests| ==> 0 <= dests[k] < |states|
        invariant |dests| > 0 ==> Carries(done, c)
        invariant Carries(done, c) ==> |dests| > 0
        decreases todo
      {
        var t :| t in todo;
        if t.lo <= c && t.hi >= c {
          dests := dests + [t.dest];
        }
        todo, done := todo - {t}, done + {t};
      }
    }

    /**
     * One pass of the state loop of removeSymbolFromAutomaton (FiniteAutomaton.java:214-226):
     * delete c towards every collected destination, which cuts c out of every transition of
     * state i. Reports whether some transition carried c.
     */
    method StripState(i: int, symbol: Int32) returns (hit: bool)
      requires Valid() && 0 <= i < |states|
      modifies this
      ensures Valid() && |states| == |old(states)|
      ensures states == old(states)[i := State(old(states[i].accept), StripSymbol(old(states[i].trans), CharFromInt(symbol)))]
      ensures hit <==> Carries(old(states[i].trans), CharFromInt(symbol))
      ensures alphabet == old(alphabet) && nbStates == old(nbStates) && initial == old(initial)
      ensures deterministic == old(deterministic) && min == old(min) && max == old(max)
    {
      var c := CharFromInt(symbol);
      var dests := HitDestinations(i, c);
      hit := |dests| > 0;
      ghost var ts := states[i].trans;
      assert SplitFor(ts, {}, c) == ts;
      assert Elems(dests[..0]) == {};
      var j := 0;
      while j < |dests|
        invariant 0 <= j <= |dests| && Valid() && |states| == |old(states)|
        invariant states == old(states)[i := State(old(states[i].accept), SplitFor(ts, Elems(dests[..j]), c))]
        invariant alphabet == old(alphabet) && nbStates == old(nbStates) && initial == old(initial)
        invariant deterministic == old(deterministic) && min == old(min) && max == old(max)
      {
        DeleteTransition(i, dests[j], symbol);
        SplitForAdd(ts, Elems(dests[..j]), dests[j], c);
        assert Elems(dests[..j + 1]) == Elems(dests[..j]) + {dests[j]} by {
          assert dests[..j + 1] == dests[..j] + [dests[j]];
        }
        j := j + 1;
      }
      assert dests[..|dests|] == dests;
      SplitForAll(ts, Elems(dests), c);
    }

    /**
     * removeSymbolFromAutomaton (FiniteAutomaton.java:211-230): cut the symbol's codepoint
     * out of every transition of every state and drop the symbol from the alphabet.
     */
    method RemoveSymbolFromAutomaton(symbol: Int32)
      requires Valid()
      modifies this
      ensures Valid() && |states| == |old(states)|
      ensures forall i :: 0 <= i < |states| ==>
        states[i] == State(old(states[i].accept), StripSymbol(old(states[i].trans), CharFromInt(symbol)))
      ensures alphabet == old(alphabet) - {symbol}
      ensures nbStates == old(nbStates) && initial == old(initial)
      ensures deterministic == old(deterministic) && min == old(min) && max == old(max)
    {
      var i := 0;
      while i < |states|
        invariant 0 <= i <= |states| && Valid() && |states| == |old(states)|
        invariant forall k :: 0 <= k < i ==>
          states[k] == State(old(states[k].accept), StripSymbol(old(states[k].trans), CharFromInt(symbol)))
        invariant forall k :: i <= k < |states| ==> states[k] == old(states[k])
        invariant alphabet == old(alphabet) && nbStates == old(nbStates) && initial == old(initial)
        invariant deterministic == old(deterministic) && min == old(min) && max == old(max)
      {
        var _ := StripState(i, symbol);
        i := i + 1;
      }
      alphabet := alphabet - {symbol};
    }

    /**
     * _removeSymbolFromAutomaton (FiniteAutomaton.java:551-593): the same removal, which also
     * records the states that had a transition carrying the codepoint; afterwards it lists,
     * for every transition into a recorded state, one (source, symbol) couple per codepoint.
     */
    method RemoveSymbolWithCouples(alpha: Int32) returns (couples: seq<(nat, Int32)>)
      requires Valid()
      modifies this
      ensures Valid() && |states| == |old(states)|
      ensures forall i :: 0 <= i < |states| ==>
        states[i] == State(old(states[i].accept), StripSymbol(old(states[i].trans), CharFromInt(alpha)))
      ensures alphabet == old(alphabet) - {alpha}
      ensures nbStates == old(nbStates) && initial == old(initial)
      ensures deterministic == old(deterministic) && min == old(min) && max == old(max)
      ensures Elems(couples) == CouplesUpTo(states, |states|,
        set i | 0 <= i < |old(states)| && Carries(old(states[i].trans), CharFromInt(alpha)))
    {
      ghost var hitStates := set i | 0 <= i < |old(states)| && Carries(old(states[i].trans), CharFromInt(alpha));
      var setOfRemoved: set<nat> := {};
      var i := 0;
      while i < |states|
        invariant 0 <= i <= |states| && Valid() && |states| == |old(states)|
        invariant forall k :: 0 <= k < i ==>
          states[k] == State(old(states[k].accept), StripSymbol(old(states[k].trans), CharFromInt(alpha)))
        invariant forall k :: i <= k < |states| ==> states[k] == old(states[k])
        invariant forall k :: k in setOfRemoved <==> 0 <= k < i && Carries(old(states[k].trans), CharFromInt(alpha))
        invariant alphabet == old(alphabet) && nbStates == old(nbStates) && initial == old(initial)
        invariant deterministic == old(deterministic) && min == old(min) && max == old(max)
      {
        var hit := StripState(i, alpha);
        if hit {
          setOfRemoved := setOfRemoved + {i};
        }
        i := i + 1;
      }
      alphabet := alphabet - {alpha};
      assert setOfRemoved == hitStates;
      couples := CouplesOfStates(setOfRemoved);
    }

    /** The couple loop of _removeSymbolFromAutomaton (FiniteAutomaton.java:572-586). */
    method CouplesOfStates(removed: set<nat>) returns (couples: seq<(nat, Int32)>)
      requires Valid()
      ensures Elems(couples) == CouplesUpTo(states, |states|, removed)
    {
      couples := [];
      var i := 0;
      while i < |states|
        invariant 0 <= i <= |states|
        invariant Elems(couples) == CouplesUpTo(states, i, removed)
      {
        var cs := CouplesAt(i, removed);
        assert Elems(couples + cs) == Elems(couples) + Elems(cs);
        couples := couples + cs;
        i := i + 1;
      }
    }

    /**
     * The couples of one state in _removeSymbolFromAutomaton (FiniteAutomaton.java:574-582),
     * counting codepoints with an `int` (the code counts with a `char`, which never passes
     * 0xFFFF; see Graphs.CharLoopNeverEnds).
     */
    method CouplesAt(i: int, removed: set<nat>) returns (cs: seq<(nat, Int32)>)
      requires Valid() && 0 <= i < |states|
      ensures Elems(cs) == CouplesOf(i, states[i].trans, removed)
    {
      cs := [];
      var todo := states[i].trans;
      ghost var done: set<Transition> := {};
      while todo != {}
        invariant done + todo == states[i].trans && done !! todo
        invariant Elems(cs) == CouplesOf(i, done, removed)
        decreases todo
      {
        var t :| t in todo;
        CouplesOfAdd(i, done, t, removed);
        if t.dest in removed {
          var more := CouplesOfTransition(i, t);
          ElemsConcat(cs, more);
          cs := cs + more;
        }
        todo, done := todo - {t}, done + {t};
      }
    }

    /**
     * The innermost loop of _removeSymbolFromAutomaton for one transition t of state i
     * (FiniteAutomaton.java:578-579), counting codepoints with an `int`.
     */
    static method CouplesOfTransition(i: nat, t: Transition) returns (cs: seq<(nat, Int32)>)
      ensures Elems(cs) == CouplesOfOne(i, t)
    {
      cs := [];
      var d: int := t.lo;
      while d <= t.hi
        invariant t.lo <= d && (d <= t.hi + 1 || d == t.lo)
        invariant Elems(cs) == set x | t.lo <= x < d :: (i, IntFromChar(x))
      {
        ElemsConcat(cs, [(i, IntFromChar(d))]);
        cs := cs + [(i, IntFromChar(d))];
        d := d + 1;
      }
    }

    // -------------------------------------------------------------------------------
    // Stepping
    // -------------------------------------------------------------------------------

    /**
     * delta(source, symbol) (FiniteAutomaton.java:276-293): refuse unless the automaton is
     * flagged deterministic; otherwise the destination of a transition of source carrying
     * the symbol's codepoint, or -1 when there is none. The library's State.step returns
     * the first such transition in its set's order, which the model leaves open.
     */
    method Delta(source: int, symbol: Int32) returns (r: Result<int, Failure>)
      requires Valid()
      requires deterministic ==> 0 <= source < |states|
      ensures r.Err? <==> !deterministic
      ensures r.Err? ==> r.error == NonDeterministicOperation
      ensures r.Ok? ==> (r.value == -1 <==> Successors(states[source].trans, CharFromInt(symbol)) == {})
      ensures r.Ok? && r.value != -1 ==> r.value in Successors(states[source].trans, CharFromInt(symbol))
    {
      if !deterministic {
        return Err(NonDeterministicOperation);
      }
      var s := states[source];
      var c := CharFromInt(symbol);
      if t :| t in s.trans && Contains(t, c) {
        assert t.dest in Successors(s.trans, c);
        return Ok(t.dest);
      }
      assert Successors(s.trans, c) == {};
      return Ok(-1);
    }

    /**
     * delta(source, symbol, states) (FiniteAutomaton.java:294-306): add to the caller's set
     * the index of every state that source reaches on the symbol's codepoint.
     */
    method DeltaAll(source: int, symbol: Int32, into: set<int>) returns (out: set<int>)
      requires Valid() && 0 <= source < |states|
      ensures out == into + Successors(states[source].trans, CharFromInt(symbol))
      ensures forall d :: d in out - into ==> 0 <= d < |states|
    {
      var nexts: set<int> := Successors(states[source].trans, CharFromInt(symbol));
      out := into;
      var todo := nexts;
      while todo != {}
        invariant todo <= nexts && out == into + (nexts - todo)
        decreases todo
      {
        var d :| d in todo;
        out := out + {d};
        todo := todo - {d};
      }
    }

    // -------------------------------------------------------------------------------
    // Enumerating transitions
    // -------------------------------------------------------------------------------

    /**
     * getTransitions(state) (FiniteAutomaton.java:535-548): one (state, destination, symbol)
     * triple per codepoint of each transition, clamped to [min, max] and cast to `char`.
     * The codepoint counter is an `int` here; the code's `char` counter never passes 0xFFFF
     * (see Graphs.CharLoopNeverEnds).
     */
    method GetTransitionsOf(state: int) returns (r: seq<Entry>)
      requires Valid() && 0 <= state < |states|
      ensures Elems(r) == EntriesOf(state, states[state].trans, min, max)
      ensures forall k :: 0 <= k < |r| ==> r[k].source == state && r[k].dest < |states|
    {
      r := [];
      var todo := states[state].trans;
      ghost var done: set<Transition> := {};
      while todo != {}
        invariant done + todo == states[state].trans && done !! todo
        invariant Elems(r) == EntriesOf(state, done, min, max)
        invariant forall k :: 0 <= k < |r| ==> r[k].source == state && r[k].dest < |states|
        decreases todo
      {
        var t :| t in todo;
        EntriesOfAdd(state, done, t, min, max);
        var es := EntriesOfTransition(state, t);
        assert Elems(r + es) == Elems(r) + Elems(es);
        r := r + es;
        todo, done := todo - {t}, done + {t};
      }
    }

    /** The inner loop of getTransitions(state) for one transition t (FiniteAutomaton.java:539-545). */
    method EntriesOfTransition(state: nat, t: Transition) returns (r: seq<Entry>)
      ensures Elems(r) == EntriesOfOne(state, t, min, max)
      ensures forall k :: 0 <= k < |r| ==> r[k].source == state && r[k].dest == t.dest
    {
      r := [];
      var m: int := LowEnd(min, t);
      var top: int := HighEnd(max, t);
      var c: int := m;
      while c <= top
        invariant m <= c && (c <= top + 1 || c == m)
        invariant Elems(r) == set x | m <= x < c :: Entry(state, t.dest, IntFromChar(x))
        invariant forall k :: 0 <= k < |r| ==> r[k].source == state && r[k].dest == t.dest
      {
        ghost var before := r;
        r := r + [Entry(state, t.dest, IntFromChar(c))];
        assert Elems(r) == Elems(before) + {Entry(state, t.dest, IntFromChar(c))};
        c := c + 1;
      }
    }

    /**
     * getTransitions() (FiniteAutomaton.java:527-533): the triples of every state in index
     * order.
     */
    method GetTransitions() returns (r: seq<Entry>)
      requires Valid()
      ensures Elems(r) == EntriesUpTo(states, |states|, min, max)
      ensures forall a, b :: 0 <= a < b < |r| ==> r[a].source <= r[b].source
      ensures forall k :: 0 <= k < |r| ==> r[k].source < |states| && r[k].dest < |states|
    {
      r := [];
      var i := 0;
      while i < |states|
        invariant 0 <= i <= |states|
        invariant Elems(r) == EntriesUpTo(states, i, min, max)
        invariant forall a, b :: 0 <= a < b < |r| ==> r[a].source <= r[b].source
        invariant forall k :: 0 <= k < |r| ==> r[k].source < i && r[k].dest < |states|
      {
        var ts := GetTransitionsOf(i);
        assert Elems(r + ts) == Elems(r) + Elems(ts);
        r := r + ts;
        i := i + 1;
      }
    }

    // -------------------------------------------------------------------------------
    // Synchronising with and importing library graphs
    // -------------------------------------------------------------------------------

    /** The symbols of the clamped codepoints of ts join the alphabet (FiniteAutomaton.java:667-673). */
    method CollectSymbols(ts: set<Transition>)
      modifies this`alphabet
      ensures alphabet == old(alphabet) + SymbolsOf(ts, min, max)
    {
      var todo := ts;
      ghost var done: set<Transition> := {};
      while todo != {}
        invariant done + todo == ts && done !! todo
        invariant alphabet == old(alphabet) + SymbolsOf(done, min, max)
        decreases todo
      {
        var t :| t in todo;
        SymbolsOfAdd(done, t, min, max);
        CollectSymbolsOf(t);
        todo, done := todo - {t}, done + {t};
      }
    }

    /** The innermost loop of syncStates for one transition t (FiniteAutomaton.java:668-672). */
    method CollectSymbolsOf(t: Transition)
      modifies this`alphabet
      ensures alphabet == old(alphabet) + SymbolsOfOne(t, min, max)
    {
      var m: int := LowEnd(min, t);
      var top: int := HighEnd(max, t);
      var c: int := m;
      while c <= top
        invariant m <= c && (c <= top + 1 || c == m)
        invariant alphabet == old(alphabet) + set x | m <= x < c :: IntFromChar(x)
      {
        alphabet := alphabet + {IntFromChar(c)};
        c := c + 1;
      }
    }

    /**
     * syncStates (FiniteAutomaton.java:659-676), after the library graph g has replaced the
     * represented automaton: its states in its own order become the indexed states, and the
     * alphabet becomes the symbols of their clamped codepoints. The codepoint counter is an
     * `int` here (see Graphs.CharLoopNeverEnds for the code's `char` counter).
     */
    method SyncStates(g: Graph)
      requires WellFormed(g)
      modifies this
      ensures Valid()
      ensures states == g.nodes && nbStates == |g.nodes|
      ensures alphabet == SymbolsUpTo(g.nodes, |g.nodes|, min, max)
      ensures initial == AtState(g.initial) && deterministic == g.deterministic
      ensures min == old(min) && max == old(max)
    {
      initial, deterministic := AtState(g.initial), g.deterministic;
      alphabet := {};
      states := [];
      var idx := 0;
      while idx < |g.nodes|
        invariant 0 <= idx <= |g.nodes| && states == g.nodes[..idx]
        invariant alphabet == SymbolsUpTo(g.nodes, idx, min, max)
        invariant initial == AtState(g.initial) && deterministic == g.deterministic
        invariant min == old(min) && max == old(max)
      {
        var s := g.nodes[idx];
        states := states + [s];
        CollectSymbols(s.trans);
        PrefixStep(g.nodes, idx);
        assert SymbolsUpTo(g.nodes, idx + 1, min, max) == alphabet;
        idx := idx + 1;
      }
      assert g.nodes[..|g.nodes|] == g.nodes;
      nbStates := |states|;
    }

    /**
     * The innermost loop of fill (FiniteAutomaton.java:179-187) for one transition t of the
     * graph: every symbol of the alphabet between the symbols of t's first and last usable
     * codepoints, clamped to the alphabet's own extremes mn and mx, becomes a unit
     * transition from source. The code reads a reserved endpoint as symbol 0 instead.
     */
    method ImportTransition(source: int, t: Transition, base: nat, alpha: set<Int32>, mn: Int32, mx: Int32)
      requires Valid() && 0 <= source < |states| && base + t.dest < |states|
      requires forall i :: i in alpha ==> mn <= i <= mx
      modifies this
      ensures Valid() && |states| == |old(states)|
      ensures states == AddedTo(old(states), source, ImportedOne(t, alpha, base))
      ensures alphabet == old(alphabet) + ImportedSymbolsOne(t, alpha)
      ensures nbStates == old(nbStates) && initial == old(initial)
      ensures deterministic == old(deterministic) && min == old(min) && max == old(max)
    {
      var tmin, tmax := IntervalSymbols(t.lo, t.hi);
      var desti := base + t.dest;
      var minmax := if mx < tmax then mx else tmax;
      var i: int := if mn > tmin then mn else tmin;
      ghost var start := i;
      ImportedBelowEnds(t, alpha, base, start, minmax);
      AddedToNothing(states, source);
      while i <= minmax
        invariant start <= i && Valid() && |states| == |old(states)|
        invariant states == AddedTo(old(states), source, ImportedBelow(t, alpha, base, i))
        invariant alphabet == old(alphabet) + ImportedSymbolsBelow(t, alpha, i)
        invariant nbStates == old(nbStates) && initial == old(initial)
        invariant deterministic == old(deterministic) && min == old(min) && max == old(max)
      {
        ImportedBelowStep(t, alpha, base, i);
        if i in alpha {
          AddTransition(source, desti, [i]);
          UnitsForSingle(i, desti);
          AddedToTwice(old(states), source, ImportedBelow(t, alpha, base, i), {Unit(CharFromInt(i), desti)});
        }
        i := i + 1;
      }
      ImportedBelowEnds(t, alpha, base, start, i - 1);
    }

    /**
     * One pass of the second loop of fill (FiniteAutomaton.java:172-190): node k of the graph
     * gives state base + k its accept flag, its initial mark and its imported transitions.
     */
    method FillNode(g: Graph, k: nat, alpha: set<Int32>, base: nat, mn: Int32, mx: Int32)
      requires Valid() && WellFormed(g) && k < |g.nodes| && base + |g.nodes| <= |states|
      requires forall i :: i in alpha ==> mn <= i <= mx
      modifies this
      ensures Valid() && |states| == |old(states)|
      ensures states == old(states)[base + k := State(g.nodes[k].accept, old(states[base + k].trans) + Imported(g.nodes[k].trans, alpha, base))]
      ensures alphabet == old(alphabet) + ImportedSymbols(g.nodes[k].trans, alpha)
      ensures initial == if k == g.initial then AtState(base + k) else old(initial)
      ensures nbStates == old(nbStates) && deterministic == old(deterministic) && min == old(min) && max == old(max)
    {
      var source := base + k;
      ClosedUpdate(states, source, states[source].(accept := g.nodes[k].accept));
      states := states[source := states[source].(accept := g.nodes[k].accept)];
      assert forall t :: t in g.nodes[k].trans ==> base + t.dest < |states|;
      if g.initial == k {
        initial := AtState(source);
      }
      ImportNode(source, g.nodes[k].trans, base, alpha, mn, mx);
      AddedToFlagged(old(states), source, g.nodes[k].accept, Imported(g.nodes[k].trans, alpha, base));
    }

    /** The transition loop of fill for one node with transitions ts (FiniteAutomaton.java:178-188). */
    method ImportNode(source: int, ts: set<Transition>, base: nat, alpha: set<Int32>, mn: Int32, mx: Int32)
      requires Valid() && 0 <= source < |states| && forall t :: t in ts ==> base + t.dest < |states|
      requires forall i :: i in alpha ==> mn <= i <= mx
      modifies this
      ensures Valid() && |states| == |old(states)|
      ensures states == AddedTo(old(states), source, Imported(ts, alpha, base))
      ensures alphabet == old(alphabet) + ImportedSymbols(ts, alpha)
      ensures nbStates == old(nbStates) && initial == old(initial)
      ensures deterministic == old(deterministic) && min == old(min) && max == old(max)
    {
      assert Imported({}, alpha, base) == {} && ImportedSymbols({}, alpha) == {};
      AddedToNothing(states, source);
      var todo := ts;
      ghost var done: set<Transition> := {};
      while todo != {}
        invariant done + todo == ts && done !! todo
        invariant Valid() && |states| == |old(states)|
        invariant states == AddedTo(old(states), source, Imported(done, alpha, base))
        invariant alphabet == old(alphabet) + ImportedSymbols(done, alpha)
        invariant nbStates == old(nbStates) && initial == old(initial)
        invariant deterministic == old(deterministic) && min == old(min) && max == old(max)
        decreases todo
      {
        var t :| t in todo;
        ImportedAdd(done, t, alpha, base);
        ImportTransition(source, t, base, alpha, mn, mx);
        AddedToTwice(old(states), source, Imported(done, alpha, base), ImportedOne(t, alpha, base));
        todo, done := todo - {t}, done + {t};
      }
    }

    /** The first loop of fill (FiniteAutomaton.java:166-171): n calls of addState. */
    method AddStates(n: nat)
      requires Valid()
      modifies this
      ensures Valid() && |states| == |old(states)| + n
      ensures forall j :: 0 <= j < |old(states)| ==> states[j] == old(states[j])
      ensures forall j :: |old(states)| <= j < |states| ==> states[j] == State(false, {})
      ensures alphabet == old(alphabet) && initial == old(initial)
      ensures deterministic == old(deterministic) && min == old(min) && max == old(max)
    {
      var k := 0;
      while k < n
        invariant 0 <= k <= n && Valid() && |states| == |old(states)| + k
        invariant forall j :: 0 <= j < |old(states)| ==> states[j] == old(states[j])
        invariant forall j :: |old(states)| <= j < |states| ==> states[j] == State(false, {})
        invariant alphabet == old(alphabet) && initial == old(initial)
        invariant deterministic == old(deterministic) && min == old(min) && max == old(max)
      {
        var _ := AddState();
        k := k + 1;
      }
    }

    /**
     * fill (FiniteAutomaton.java:156-191): append one state per node of the library graph g,
     * then give each the node's accept flag and, for every transition of the node, a unit
     * transition per alphabet symbol between the symbols of the transition's endpoints.
     * The graph's initial node becomes the initial state, and its determinism flag is kept.
     */
    method Fill(g: Graph, alpha: set<Int32>)
      requires Valid() && WellFormed(g)
      modifies this
      ensures Valid()
      ensures states == old(states) + ImportedStates(g.nodes, alpha, |old(states)|)
      ensures alphabet == old(alphabet) + ImportedSymbolsUpTo(g.nodes, |g.nodes|, alpha)
      ensures initial == AtState(|old(states)| + g.initial) && deterministic == g.deterministic
      ensures min == old(min) && max == old(max)
    {
      var mx := MaxOf(alpha);
      var mn := MinOf(alpha);
      SetDeterministic(g.deterministic);
      var base := |states|;
      AddStates(|g.nodes|);
      ghost var added := ImportedStates(g.nodes, alpha, base);
      var k := 0;
      while k < |g.nodes|
        invariant 0 <= k <= |g.nodes| && Valid() && |states| == base + |g.nodes|
        invariant forall j :: 0 <= j < base ==> states[j] == old(states[j])
        invariant forall j :: base <= j < base + k ==> states[j] == added[j - base]
        invariant forall j :: base + k <= j < base + |g.nodes| ==> states[j] == State(false, {})
        invariant alphabet == old(alphabet) + ImportedSymbolsUpTo(g.nodes, k, alpha)
        invariant initial == if g.initial < k then AtState(base + g.initial) else old(initial)
        invariant deterministic == g.deterministic && min == old(min) && max == old(max)
      {
        assert states[base + k].trans + Imported(g.nodes[k].trans, alpha, base) == Imported(g.nodes[k].trans, alpha, base);
        FillNode(g, k, alpha, base, mn, mx);
        assert states[base + k] == added[k];
        k := k + 1;
      }
      assert states == old(states) + ImportedStates(g.nodes, alpha, base);
    }

    // -------------------------------------------------------------------------------
    // Algebra: the library builds the graph, the wrapper chooses the alphabet
    // -------------------------------------------------------------------------------

    /**
     * union (FiniteAutomaton.java:420-425), given the library's union graph g: a new
     * automaton filled from g over the union of both alphabets.
     */
    method Union(other: FiniteAutomaton, g: Graph) returns (r: FiniteAutomaton)
      requires WellFormed(g)
      ensures fresh(r) && r.Valid()
      ensures r.states == ImportedStates(g.nodes, alphabet + other.alphabet, 0)
      ensures r.alphabet == ImportedSymbolsUpTo(g.nodes, |g.nodes|, alphabet + other.alphabet)
      ensures r.alphabet <= alphabet + other.alphabet
      ensures r.initial == AtState(g.initial) && r.deterministic == g.deterministic
      ensures r.min == 0 && r.max == 0xFFFF
    {
      var a := UniteAlphabets(alphabet, other.alphabet);
      assert a == alphabet + other.alphabet;
      r := new FiniteAutomaton.FromGraph(g, a);
    }

    /**
     * intersection (FiniteAutomaton.java:428-437), given the library's product graph g: a new
     * automaton filled from g over the symbols common to both alphabets.
     */
    method Intersection(other: FiniteAutomaton, g: Graph) returns (r: FiniteAutomaton)
      requires WellFormed(g)
      ensures fresh(r) && r.Valid()
      ensures r.states == ImportedStates(g.nodes, alphabet * other.alphabet, 0)
      ensures r.alphabet == ImportedSymbolsUpTo(g.nodes, |g.nodes|, alphabet * other.alphabet)
      ensures r.alphabet <= alphabet * other.alphabet
      ensures r.initial == AtState(g.initial) && r.deterministic == g.deterministic
      ensures r.min == 0 && r.max == 0xFFFF
    {
      var a := IntersectAlphabets(alphabet, other.alphabet);
      assert a == alphabet * other.alphabet;
      r := new FiniteAutomaton.FromGraph(g, a);
    }

    /**
     * concatenate (FiniteAutomaton.java:448-453), given the library's concatenation graph g:
     * filled over the union of both alphabets, as union is.
     */
    method Concatenate(other: FiniteAutomaton, g: Graph) returns (r: FiniteAutomaton)
      requires WellFormed(g)
      ensures fresh(r) && r.Valid()
      ensures r.states == ImportedStates(g.nodes, alphabet + other.alphabet, 0)
      ensures r.alphabet == ImportedSymbolsUpTo(g.nodes, |g.nodes|, alphabet + other.alphabet)
      ensures r.alphabet <= alphabet + other.alphabet
      ensures r.initial == AtState(g.initial) && r.deterministic == g.deterministic
      ensures r.min == 0 && r.max == 0xFFFF
    {
      var a := UniteAlphabets(alphabet, other.alphabet);
      assert a == alphabet + other.alphabet;
      r := new FiniteAutomaton.FromGraph(g, a);
    }

    /**
     * complement(alphabet) and complement() (FiniteAutomaton.java:439-446), given the
     * library's complement graph g: filled over the alphabet passed in, which complement()
     * takes to be this automaton's own.
     */
    method Complement(g: Graph, alpha: set<Int32>) returns (r: FiniteAutomaton)
      requires WellFormed(g)
      ensures fresh(r) && r.Valid()
      ensures r.states == ImportedStates(g.nodes, alpha, 0)
      ensures r.alphabet == ImportedSymbolsUpTo(g.nodes, |g.nodes|, alpha)
      ensures r.alphabet <= alpha
      ensures r.initial == AtState(g.initial) && r.deterministic == g.deterministic
      ensures r.min == 0 && r.max == 0xFFFF
    {
      r := new FiniteAutomaton.FromGraph(g, alpha);
    }

    /**
     * repeat(), repeat(min) and repeat(min, max) (FiniteAutomaton.java:393-403), given the
     * library's repetition graph g: filled over this automaton's alphabet.
     */
    method Repeat(g: Graph) returns (r: FiniteAutomaton)
      requires WellFormed(g)
      ensures fresh(r) && r.Valid()
      ensures r.states == ImportedStates(g.nodes, alphabet, 0)
      ensures r.alphabet == ImportedSymbolsUpTo(g.nodes, |g.nodes|, alphabet)
      ensures r.alphabet <= alphabet
      ensures r.initial == AtState(g.initial) && r.deterministic == g.deterministic
      ensures r.min == 0 && r.max == 0xFFFF
    {
      r := new FiniteAutomaton.FromGraph(g, alphabet);
    }
  }
}
