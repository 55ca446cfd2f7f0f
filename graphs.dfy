/**
 * States and interval transitions of FiniteAutomaton, as values, together with the
 * set-level definitions that its mutation and enumeration loops are proved against.
 */
module Graphs {
  import opened Codec

  /** A transition of the automaton library: the closed codepoint interval [lo, hi] to dest. */
  datatype Transition = Transition(lo: Char16, hi: Char16, dest: nat)

  /** A state: its accept flag and its set of outgoing transitions. */
  datatype State = State(accept: bool, trans: set<Transition>)

  /**
   * A graph of the automaton library, listed in that library's own iteration order:
   * destinations and the initial state are positions in `nodes`.
   */
  datatype Graph = Graph(nodes: seq<State>, initial: nat, deterministic: bool)

  /** One (source, destination, symbol) triple of getTransitions. */
  datatype Entry = Entry(source: nat, dest: nat, symbol: Int32)

  /** The transition carries codepoint c. */
  predicate Contains(t: Transition, c: int) {
    t.lo <= c <= t.hi
  }

  /** Every transition of every state leads to a state of the sequence. */
  predicate Closed(ss: seq<State>) {
    forall i, t :: 0 <= i < |ss| && t in ss[i].trans ==> t.dest < |ss|
  }

  /** Replacing one state by one whose transitions stay inside keeps the sequence closed. */
  lemma ClosedUpdate(ss: seq<State>, i: nat, s: State)
    requires Closed(ss) && i < |ss| && forall t :: t in s.trans ==> t.dest < |ss|
    ensures Closed(ss[i := s])
  {
  }

  /** The states ss with the transitions extra added to state src. */
  function AddedTo(ss: seq<State>, src: nat, extra: set<Transition>): seq<State>
    requires src < |ss|
  {
    ss[src := State(ss[src].accept, ss[src].trans + extra)]
  }

  /** Adding no transitions changes nothing. */
  lemma AddedToNothing(ss: seq<State>, src: nat)
    requires src < |ss|
    ensures AddedTo(ss, src, {}) == ss
  {
    assert ss[src].trans + {} == ss[src].trans;
  }

  /** Adding a and then b to one state adds a + b. */
  lemma AddedToTwice(ss: seq<State>, src: nat, a: set<Transition>, b: set<Transition>)
    requires src < |ss|
    ensures AddedTo(AddedTo(ss, src, a), src, b) == AddedTo(ss, src, a + b)
  {
    assert ss[src].trans + a + b == ss[src].trans + (a + b);
  }

  /** Setting a state's flag and then adding transitions to it rewrites that state. */
  lemma AddedToFlagged(ss: seq<State>, src: nat, accept: bool, extra: set<Transition>)
    requires src < |ss|
    ensures AddedTo(ss[src := ss[src].(accept := accept)], src, extra) == ss[src := State(accept, ss[src].trans + extra)]
  {
  }

  /** Adding transitions that lead to existing states keeps the sequence closed. */
  lemma AddedToClosed(ss: seq<State>, src: nat, extra: set<Transition>)
    requires Closed(ss) && src < |ss| && forall t :: t in extra ==> t.dest < |ss|
    ensures Closed(AddedTo(ss, src, extra))
  {
    ClosedUpdate(ss, src, State(ss[src].accept, ss[src].trans + extra));
  }

  predicate WellFormed(g: Graph) {
    Closed(g.nodes) && g.initial < |g.nodes|
  }

  /** Some transition of ts leads to e on codepoint x. */
  predicate Covers(ts: set<Transition>, e: nat, x: int) {
    exists t :: t in ts && t.dest == e && Contains(t, x)
  }

  /** The single-codepoint transition [c, c] -> d that addTransition inserts. */
  function Unit(c: Char16, d: nat): Transition {
    Transition(c, c, d)
  }

  /** The unit transitions to d that addTransition inserts for the given symbols. */
  function UnitsFor(symbols: seq<Int32>, d: nat): set<Transition> {
    set s | s in symbols :: Unit(CharFromInt(s), d)
  }

  /** The elements of a list. */
  function Elems<T>(s: seq<T>): set<T> {
    set x | x in s
  }

  /** The elements of two joined lists. */
  lemma ElemsConcat<T>(a: seq<T>, b: seq<T>)
    ensures Elems(a + b) == Elems(a) + Elems(b)
  {
  }

  /** A prefix one longer is the shorter prefix and one more element. */
  lemma PrefixStep<T>(s: seq<T>, j: nat)
    requires j < |s|
    ensures s[..j + 1] == s[..j] + [s[j]]
  {
  }

  /** One more element of a list's prefix. */
  lemma ElemsPrefixStep<T>(s: seq<T>, j: nat)
    requires j < |s|
    ensures Elems(s[..j + 1]) == Elems(s[..j]) + {s[j]}
  {
    assert s[..j + 1] == s[..j] + [s[j]];
  }

  /** One more symbol of addTransition's list adds its unit transition. */
  lemma UnitsForPrefixStep(symbols: seq<Int32>, j: nat, d: nat)
    requires j < |symbols|
    ensures UnitsFor(symbols[..j + 1], d) == UnitsFor(symbols[..j], d) + {Unit(CharFromInt(symbols[j]), d)}
  {
    assert symbols[..j + 1] == symbols[..j] + [symbols[j]];
  }

  /** addTransition with a single symbol adds that symbol and its one unit transition. */
  lemma UnitsForSingle(i: Int32, d: nat)
    ensures UnitsFor([i], d) == {Unit(CharFromInt(i), d)}
    ensures Elems([i]) == {i}
  {
  }

  // ---------------------------------------------------------------------------------
  // Deleting one codepoint from the transitions to one destination
  // ---------------------------------------------------------------------------------

  /** deleteTransition removes t: it goes to d and carries c. */
  predicate Hit(t: Transition, d: nat, c: int) {
    t.dest == d && Contains(t, c)
  }

  /**
   * What deleteTransition puts back for a removed transition, as the code evidently
   * intends: the part left of c and the part right of c, where not empty.
   */
  function Pieces(t: Transition, c: Char16): (r: set<Transition>)
    ensures Contains(t, c) ==> forall p :: p in r ==>
      p.dest == t.dest && t.lo <= p.lo <= p.hi <= t.hi && !Contains(p, c)
  {
    (if t.lo < c then {Transition(t.lo, c - 1, t.dest)} else {})
    + (if c < t.hi then {Transition(c + 1, t.hi, t.dest)} else {})
  }

  /**
   * What deleteTransition puts back as written (FiniteAutomaton.java:263-270): its second
   * branch tests `lo > c`, which the enclosing guard `lo <= c` rules out.
   */
  function PiecesAsWritten(t: Transition, c: Char16): (r: set<Transition>)
    ensures Contains(t, c) ==> r <= Pieces(t, c)
    ensures Contains(t, c) && t.lo < c && c == t.hi ==> r == {}
  {
    if t.lo == c && c < t.hi then {Transition(c + 1, t.hi, t.dest)}
    else if t.lo > c && c == t.hi then {Transition(t.lo, Wrap16(c - 1), t.dest)}
    else if t.lo < c && c < t.hi then {Transition(t.lo, c - 1, t.dest), Transition(c + 1, t.hi, t.dest)}
    else {}
  }

  /**
   * The transitions after codepoint c has been deleted from every transition whose
   * destination is in ds: each such transition carrying c is replaced by its pieces.
   */
  function SplitFor(ts: set<Transition>, ds: set<nat>, c: Char16): set<Transition> {
    KeptFor(ts, ds, c) + CutFor(ts, ds, c)
  }

  /** The transitions of ts that survive deleting c for the destinations ds. */
  function KeptFor(ts: set<Transition>, ds: set<nat>, c: Char16): set<Transition> {
    set t | t in ts && !(t.dest in ds && Contains(t, c))
  }

  /** The pieces put back for the transitions of ts that deleting c for ds removes. */
  function CutFor(ts: set<Transition>, ds: set<nat>, c: Char16): set<Transition> {
    set t, p | t in ts && t.dest in ds && Contains(t, c) && p in Pieces(t, c) :: p
  }

  /** Treating one more transition t of the deletion loop. */
  lemma SplitStep(ts: set<Transition>, t: Transition, ds: set<nat>, c: Char16)
    ensures KeptFor(ts + {t}, ds, c) == KeptFor(ts, ds, c) + (if t.dest in ds && Contains(t, c) then {} else {t})
    ensures CutFor(ts + {t}, ds, c) == CutFor(ts, ds, c) + (if t.dest in ds && Contains(t, c) then Pieces(t, c) else {})
  {
    var lhs := CutFor(ts + {t}, ds, c);
    var rhs := CutFor(ts, ds, c) + (if t.dest in ds && Contains(t, c) then Pieces(t, c) else {});
    forall p | p in lhs ensures p in rhs {
      var u :| u in ts + {t} && u.dest in ds && Contains(u, c) && p in Pieces(u, c);
      if u != t {
        assert p in CutFor(ts, ds, c);
      }
    }
  }

  /** The deletion keeps every destination below n. */
  lemma SplitForWithin(ts: set<Transition>, ds: set<nat>, c: Char16, n: nat)
    requires forall t :: t in ts ==> t.dest < n
    ensures forall p :: p in SplitFor(ts, ds, c) ==> p.dest < n
  {
    forall p | p in SplitFor(ts, ds, c) ensures p.dest < n {
      if p !in KeptFor(ts, ds, c) {
        var t :| t in ts && t.dest in ds && Contains(t, c) && p in Pieces(t, c);
      }
    }
  }

  /** deleteTransition(_, d, c) on one state's transitions. */
  function SplitDelete(ts: set<Transition>, d: nat, c: Char16): (r: set<Transition>)
    ensures forall t :: t in ts && !Hit(t, d, c) ==> t in r
    ensures forall p :: p in r ==> !Hit(p, d, c)
  {
    SplitFor(ts, {d}, c)
  }

  /** deleteTransition(_, d, c) as written, with the unreachable upper-endpoint branch. */
  function SplitDeleteAsWritten(ts: set<Transition>, d: nat, c: Char16): (r: set<Transition>)
    ensures r <= SplitDelete(ts, d, c)
  {
    (set t | t in ts && !Hit(t, d, c))
    + (set t, p | t in ts && Hit(t, d, c) && p in PiecesAsWritten(t, c) :: p)
  }

  /**
   * removeSymbolFromAutomaton on one state's transitions, with the corrected pieces: c is
   * cut out of every transition.
   */
  function StripSymbol(ts: set<Transition>, c: Char16): (r: set<Transition>)
    ensures forall t :: t in ts && !Contains(t, c) ==> t in r
    ensures forall p :: p in r ==> !Contains(p, c)
  {
    (set t | t in ts && !Contains(t, c))
    + (set t, p | t in ts && Contains(t, c) && p in Pieces(t, c) :: p)
  }

  /**
   * removeSymbolFromAutomaton on one state's transitions as written: its deleteTransition
   * calls put back the pieces of the code's own branches.
   */
  function StripSymbolAsWritten(ts: set<Transition>, c: Char16): (r: set<Transition>)
    ensures r <= StripSymbol(ts, c)
  {
    (set t | t in ts && !Contains(t, c))
    + (set t, p | t in ts && Contains(t, c) && p in PiecesAsWritten(t, c) :: p)
  }

  /** The pieces keep the destination and exactly the codepoints of t other than c. */
  lemma PiecesCover(t: Transition, c: Char16, x: int)
    requires Contains(t, c)
    ensures forall p :: p in Pieces(t, c) ==> p.dest == t.dest && !Contains(p, c)
    ensures Covers(Pieces(t, c), t.dest, x) <==> Contains(t, x) && x != c
  {
    if Contains(t, x) && x != c {
      if x < c {
        assert Transition(t.lo, c - 1, t.dest) in Pieces(t, c);
      } else {
        assert Transition(c + 1, t.hi, t.dest) in Pieces(t, c);
      }
    }
  }

  /**
   * deleteTransition changes exactly one thing about the language of edges: afterwards
   * a destination e is reached on codepoint x if and only if it was before and the pair
   * is not (d, c).
   */
  lemma DeleteTransitionExact(ts: set<Transition>, d: nat, c: Char16, e: nat, x: int)
    ensures Covers(SplitDelete(ts, d, c), e, x) <==> Covers(ts, e, x) && !(e == d && x == c)
  {
    var r := SplitDelete(ts, d, c);
    if Covers(r, e, x) {
      var p :| p in r && p.dest == e && Contains(p, x);
      if p in ts && !(p.dest in {d} && Contains(p, c)) {
      } else {
        var t :| t in ts && t.dest in {d} && Contains(t, c) && p in Pieces(t, c);
        PiecesCover(t, c, x);
        assert Covers(Pieces(t, c), t.dest, x);
      }
    }
    if Covers(ts, e, x) && !(e == d && x == c) {
      var t :| t in ts && t.dest == e && Contains(t, x);
      if Hit(t, d, c) {
        PiecesCover(t, c, x);
        var p :| p in Pieces(t, c) && p.dest == e && Contains(p, x);
        assert p in r;
      } else {
        assert t in r;
      }
    }
  }

  /**
   * deleteTransition keeps every transition it does not hit; everything it adds lies
   * inside a hit transition, goes to d and misses c.
   */
  lemma DeleteTransitionFrame(ts: set<Transition>, d: nat, c: Char16)
    ensures forall t :: t in ts && !Hit(t, d, c) ==> t in SplitDelete(ts, d, c)
    ensures forall t :: t in ts && Hit(t, d, c) ==> t !in SplitDelete(ts, d, c)
    ensures forall p :: p in SplitDelete(ts, d, c) ==>
      (p in ts && !Hit(p, d, c))
      || (p.dest == d && !Contains(p, c) && exists t :: t in ts && Hit(t, d, c) && t.lo <= p.lo && p.hi <= t.hi)
  {
    forall p | p in SplitDelete(ts, d, c) && !(p in ts && !Hit(p, d, c))
      ensures p.dest == d && !Contains(p, c) && exists t :: t in ts && Hit(t, d, c) && t.lo <= p.lo && p.hi <= t.hi
    {
      var t :| t in ts && t.dest in {d} && Contains(t, c) && p in Pieces(t, c);
      assert Hit(t, d, c);
    }
  }

  /** Deleting the lower endpoint c of [c, hi] leaves [c + 1, hi]. */
  lemma DeleteLowerEndpoint(ts: set<Transition>, d: nat, c: Char16, hi: Char16)
    requires Transition(c, hi, d) in ts && c < hi
    ensures Transition(c + 1, hi, d) in SplitDelete(ts, d, c)
    ensures Transition(c, hi, d) !in SplitDelete(ts, d, c)
  {
    assert Transition(c + 1, hi, d) in Pieces(Transition(c, hi, d), c);
    PiecesCover(Transition(c, hi, d), c, c);
    DeleteTransitionExact(ts, d, c, d, c);
  }

  /** Deleting an interior codepoint c of [lo, hi] leaves [lo, c - 1] and [c + 1, hi]. */
  lemma DeleteInterior(ts: set<Transition>, d: nat, c: Char16, lo: Char16, hi: Char16)
    requires Transition(lo, hi, d) in ts && lo < c < hi
    ensures Transition(lo, c - 1, d) in SplitDelete(ts, d, c)
    ensures Transition(c + 1, hi, d) in SplitDelete(ts, d, c)
    ensures Transition(lo, hi, d) !in SplitDelete(ts, d, c)
  {
    var t := Transition(lo, hi, d);
    assert Transition(lo, c - 1, d) in Pieces(t, c);
    assert Transition(c + 1, hi, d) in Pieces(t, c);
    DeleteTransitionExact(ts, d, c, d, c);
  }

  /** Deleting the upper endpoint c of [lo, c] leaves [lo, c - 1]. */
  lemma DeleteUpperEndpoint(ts: set<Transition>, d: nat, c: Char16, lo: Char16)
    requires Transition(lo, c, d) in ts && lo < c
    ensures Transition(lo, c - 1, d) in SplitDelete(ts, d, c)
    ensures Transition(lo, c, d) !in SplitDelete(ts, d, c)
  {
    assert Transition(lo, c - 1, d) in Pieces(Transition(lo, c, d), c);
    DeleteTransitionExact(ts, d, c, d, c);
  }

  /** As written, the upper-endpoint branch can never be taken under the guard. */
  lemma AsWrittenUpperBranchDead(t: Transition, c: Char16)
    requires Contains(t, c)
    ensures !(t.lo > c && c == t.hi)
    ensures !(t.lo < c && c == t.hi) ==> PiecesAsWritten(t, c) == Pieces(t, c)
    ensures t.lo < c && c == t.hi ==> PiecesAsWritten(t, c) == {} && Pieces(t, c) == {Transition(t.lo, c - 1, t.dest)}
  {
  }

  /**
   * The consequence as written: deleting 7 from [5, 7] -> 1 drops the whole transition,
   * so codepoints 5 and 6 stop leading to state 1.
   */
  lemma AsWrittenDropsLowerRemainder()
    ensures Covers({Transition(5, 7, 1)}, 1, 5)
    ensures SplitDeleteAsWritten({Transition(5, 7, 1)}, 1, 7) == {}
    ensures SplitDelete({Transition(5, 7, 1)}, 1, 7) == {Transition(5, 6, 1)}
  {
    var t := Transition(5, 7, 1);
    assert Contains(t, 5);
    assert PiecesAsWritten(t, 7) == {};
    assert Pieces(t, 7) == {Transition(5, 6, 1)};
    var r := SplitDelete({t}, 1, 7);
    assert Transition(5, 6, 1) in r;
    forall p | p in r ensures p == Transition(5, 6, 1) {
    }
  }

  /**
   * As written, the removal agrees with the corrected one unless some transition ends at
   * c and starts below it.
   */
  lemma StripSymbolAsWrittenAgrees(ts: set<Transition>, c: Char16)
    requires forall t :: t in ts && Contains(t, c) ==> !(t.lo < c && c == t.hi)
    ensures StripSymbolAsWritten(ts, c) == StripSymbol(ts, c)
  {
    forall p | p in StripSymbol(ts, c) ensures p in StripSymbolAsWritten(ts, c) {
      if !(p in ts && !Contains(p, c)) {
        var t :| t in ts && Contains(t, c) && p in Pieces(t, c);
        AsWrittenUpperBranchDead(t, c);
      }
    }
  }

  /**
   * The consequence for removeSymbolFromAutomaton as written: removing codepoint 7 from a
   * state with [5, 7] -> 1 leaves no transition, so 5 and 6 stop leading to state 1.
   */
  lemma AsWrittenRemovalDropsLowerRemainder()
    ensures StripSymbolAsWritten({Transition(5, 7, 1)}, 7) == {}
    ensures StripSymbol({Transition(5, 7, 1)}, 7) == {Transition(5, 6, 1)}
    ensures Covers(StripSymbol({Transition(5, 7, 1)}, 7), 1, 5)
    ensures !Covers(StripSymbolAsWritten({Transition(5, 7, 1)}, 7), 1, 5)
  {
    var t := Transition(5, 7, 1);
    assert PiecesAsWritten(t, 7) == {};
    assert Pieces(t, 7) == {Transition(5, 6, 1)};
    var r := StripSymbol({t}, 7);
    assert Transition(5, 6, 1) in r;
    forall p | p in r ensures p == Transition(5, 6, 1) {
    }
    assert Contains(Transition(5, 6, 1), 5);
  }

  /** Deleting c for one more destination composes with the deletions already made. */
  lemma SplitForAdd(ts: set<Transition>, ds: set<nat>, d: nat, c: Char16)
    ensures SplitDelete(SplitFor(ts, ds, c), d, c) == SplitFor(ts, ds + {d}, c)
  {
    var a := SplitFor(ts, ds, c);
    var lhs := SplitDelete(a, d, c);
    var rhs := SplitFor(ts, ds + {d}, c);
    forall p | p in lhs ensures p in rhs {
      if p in a && !(p.dest in {d} && Contains(p, c)) {
        if p in ts && !(p.dest in ds && Contains(p, c)) {
          assert p in rhs;
        } else {
          var t :| t in ts && t.dest in ds && Contains(t, c) && p in Pieces(t, c);
          assert p in rhs;
        }
      } else {
        var q :| q in a && q.dest in {d} && Contains(q, c) && p in Pieces(q, c);
        if q in ts && !(q.dest in ds && Contains(q, c)) {
          assert p in rhs;
        } else {
          assert false;
        }
      }
    }
    forall p | p in rhs ensures p in lhs {
      if p in ts && !(p.dest in ds + {d} && Contains(p, c)) {
        assert p in a;
      } else {
        var t :| t in ts && t.dest in ds + {d} && Contains(t, c) && p in Pieces(t, c);
        PiecesCover(t, c, c);
        if t.dest in ds {
          assert p in a;
        } else {
          assert t in a;
        }
      }
    }
  }

  /** Once every destination carrying c has been treated, the result is StripSymbol. */
  lemma SplitForAll(ts: set<Transition>, ds: set<nat>, c: Char16)
    requires forall t :: t in ts && Contains(t, c) ==> t.dest in ds
    ensures SplitFor(ts, ds, c) == StripSymbol(ts, c)
  {
  }

  /**
   * removeSymbolFromAutomaton on one state: a destination is reached on x afterwards if
   * and only if it was before and x is not the removed codepoint.
   */
  lemma StripSymbolExact(ts: set<Transition>, c: Char16, e: nat, x: int)
    ensures Covers(StripSymbol(ts, c), e, x) <==> Covers(ts, e, x) && x != c
  {
    var r := StripSymbol(ts, c);
    if Covers(r, e, x) {
      var p :| p in r && p.dest == e && Contains(p, x);
      if !(p in ts && !Contains(p, c)) {
        var t :| t in ts && Contains(t, c) && p in Pieces(t, c);
        PiecesCover(t, c, x);
        assert Covers(Pieces(t, c), t.dest, x);
      }
    }
    if Covers(ts, e, x) && x != c {
      var t :| t in ts && t.dest == e && Contains(t, x);
      if Contains(t, c) {
        PiecesCover(t, c, x);
        var p :| p in Pieces(t, c) && p.dest == e && Contains(p, x);
        assert p in r;
      } else {
        assert t in r;
      }
    }
  }

  /** After StripSymbol no transition carries c, and destinations are kept. */
  lemma StripSymbolMissesCodepoint(ts: set<Transition>, c: Char16)
    ensures forall p :: p in StripSymbol(ts, c) ==> !Contains(p, c)
    ensures forall p :: p in StripSymbol(ts, c) ==> exists t :: t in ts && t.dest == p.dest
  {
    forall p | p in StripSymbol(ts, c) ensures !Contains(p, c) && exists t :: t in ts && t.dest == p.dest {
      if !(p in ts && !Contains(p, c)) {
        var t :| t in ts && Contains(t, c) && p in Pieces(t, c);
        PiecesCover(t, c, c);
      }
    }
  }

  // ---------------------------------------------------------------------------------
  // Enumerating transitions symbol by symbol, clamped to [min, max]
  // ---------------------------------------------------------------------------------

  /** `(char) Math.max(min, t.getMin())`. */
  function LowEnd(min: int, t: Transition): Char16 {
    Wrap16(if min > t.lo then min else t.lo)
  }

  /** `(char) Math.min(max, t.getMax())`. */
  function HighEnd(max: int, t: Transition): Char16 {
    Wrap16(if max < t.hi then max else t.hi)
  }

  /** The triples one transition of state src yields. */
  function EntriesOfOne(src: nat, t: Transition, min: int, max: int): set<Entry> {
    set x | LowEnd(min, t) <= x <= HighEnd(max, t) :: Entry(src, t.dest, IntFromChar(x))
  }

  /** The triples getTransitions(src) yields for the transitions ts. */
  function EntriesOf(src: nat, ts: set<Transition>, min: int, max: int): set<Entry> {
    set t, x | t in ts && LowEnd(min, t) <= x <= HighEnd(max, t) :: Entry(src, t.dest, IntFromChar(x))
  }

  /** The triples getTransitions() yields for the first n states. */
  function EntriesUpTo(ss: seq<State>, n: nat, min: int, max: int): set<Entry>
    requires n <= |ss|
  {
    if n == 0 then {} else EntriesUpTo(ss, n - 1, min, max) + EntriesOf(n - 1, ss[n - 1].trans, min, max)
  }

  /** The symbol column of a set of triples. */
  function SymbolColumn(es: set<Entry>): set<Int32> {
    set e | e in es :: e.symbol
  }

  /** The symbol column of a union is the union of the columns. */
  lemma SymbolColumnUnion(a: set<Entry>, b: set<Entry>)
    ensures SymbolColumn(a + b) == SymbolColumn(a) + SymbolColumn(b)
  {
  }

  /** The symbol column of one triple. */
  lemma SymbolColumnOne(e: Entry)
    ensures SymbolColumn({e}) == {e.symbol}
  {
  }

  /** The symbols one transition contributes to the alphabet in syncStates. */
  function SymbolsOfOne(t: Transition, min: int, max: int): set<Int32> {
    set x | LowEnd(min, t) <= x <= HighEnd(max, t) :: IntFromChar(x)
  }

  /** The symbols the transitions ts contribute to the alphabet in syncStates. */
  function SymbolsOf(ts: set<Transition>, min: int, max: int): set<Int32> {
    set t, x | t in ts && LowEnd(min, t) <= x <= HighEnd(max, t) :: IntFromChar(x)
  }

  /** The alphabet syncStates computes from the first n states. */
  function SymbolsUpTo(ss: seq<State>, n: nat, min: int, max: int): set<Int32>
    requires n <= |ss|
  {
    if n == 0 then {} else SymbolsUpTo(ss, n - 1, min, max) + SymbolsOf(ss[n - 1].trans, min, max)
  }

  lemma EntriesOfAdd(src: nat, ts: set<Transition>, t: Transition, min: int, max: int)
    ensures EntriesOf(src, ts + {t}, min, max) == EntriesOf(src, ts, min, max) + EntriesOfOne(src, t, min, max)
  {
    var lhs := EntriesOf(src, ts + {t}, min, max);
    var rhs := EntriesOf(src, ts, min, max) + EntriesOfOne(src, t, min, max);
    forall e | e in lhs ensures e in rhs {
      var u, x :| u in ts + {t} && LowEnd(min, u) <= x <= HighEnd(max, u) && e == Entry(src, u.dest, IntFromChar(x));
      if u == t {
        assert e in EntriesOfOne(src, t, min, max);
      }
    }
  }

  lemma SymbolsOfAdd(ts: set<Transition>, t: Transition, min: int, max: int)
    ensures SymbolsOf(ts + {t}, min, max) == SymbolsOf(ts, min, max) + SymbolsOfOne(t, min, max)
  {
    var lhs := SymbolsOf(ts + {t}, min, max);
    var rhs := SymbolsOf(ts, min, max) + SymbolsOfOne(t, min, max);
    forall y | y in lhs ensures y in rhs {
      var u, x :| u in ts + {t} && LowEnd(min, u) <= x <= HighEnd(max, u) && y == IntFromChar(x);
      if u == t {
        assert y in SymbolsOfOne(t, min, max);
      }
    }
  }

  /** The triples of state src all start at src. */
  lemma EntriesOfSource(src: nat, ts: set<Transition>, min: int, max: int)
    ensures forall e :: e in EntriesOf(src, ts, min, max) ==> e.source == src
  {
  }

  /** The triples of the first n states start at a state below n. */
  lemma {:induction false} EntriesUpToSources(ss: seq<State>, n: nat, min: int, max: int)
    requires n <= |ss|
    ensures forall e :: e in EntriesUpTo(ss, n, min, max) ==> e.source < n
  {
    if n > 0 {
      var m: nat := n - 1;
      EntriesUpToSources(ss, m, min, max);
      EntriesUpToSourcesStep(ss, m, min, max);
    }
  }

  lemma EntriesUpToSourcesStep(ss: seq<State>, m: nat, min: int, max: int)
    requires m < |ss|
    requires forall e :: e in EntriesUpTo(ss, m, min, max) ==> e.source < m
    ensures forall e :: e in EntriesUpTo(ss, m + 1, min, max) ==> e.source < m + 1
  {
    EntriesOfSource(m, ss[m].trans, min, max);
  }

  /** A triple (i, e, y) is listed if and only if some transition of i to e carries a clamped x with symbol y. */
  lemma {:induction false} EntriesUpToMember(ss: seq<State>, n: nat, min: int, max: int, e: Entry)
    requires n <= |ss|
    ensures e in EntriesUpTo(ss, n, min, max) <==> e.source < n && e in EntriesOf(e.source, ss[e.source].trans, min, max)
  {
    if n > 0 {
      var m: nat := n - 1;
      EntriesUpToMember(ss, m, min, max, e);
      EntriesUpToMemberStep(ss, m, min, max, e);
    }
  }

  lemma EntriesUpToMemberStep(ss: seq<State>, m: nat, min: int, max: int, e: Entry)
    requires m < |ss|
    requires e in EntriesUpTo(ss, m, min, max) <==> e.source < m && e in EntriesOf(e.source, ss[e.source].trans, min, max)
    ensures e in EntriesUpTo(ss, m + 1, min, max) <==> e.source < m + 1 && e in EntriesOf(e.source, ss[e.source].trans, min, max)
  {
    EntriesOfSource(m, ss[m].trans, min, max);
  }

  /** The symbols of one state's transitions are the symbols of its triples. */
  lemma SymbolsOfEntries(src: nat, ts: set<Transition>, min: int, max: int)
    ensures SymbolsOf(ts, min, max) == SymbolColumn(EntriesOf(src, ts, min, max))
  {
    var es := EntriesOf(src, ts, min, max);
    forall y | y in SymbolsOf(ts, min, max) ensures y in SymbolColumn(es) {
      var t, x :| t in ts && LowEnd(min, t) <= x <= HighEnd(max, t) && y == IntFromChar(x);
      assert Entry(src, t.dest, y) in es;
    }
  }

  /** The alphabet syncStates computes is exactly the set of symbols getTransitions() lists. */
  lemma {:induction false} SymbolsAreEntrySymbols(ss: seq<State>, n: nat, min: int, max: int)
    requires n <= |ss|
    ensures SymbolsUpTo(ss, n, min, max) == SymbolColumn(EntriesUpTo(ss, n, min, max))
  {
    if n > 0 {
      var m: nat := n - 1;
      SymbolsAreEntrySymbols(ss, m, min, max);
      SymbolsAreEntrySymbolsStep(ss, m, min, max);
    }
  }

  /** If the alphabet agrees with the listed symbols for the first m states, it does for m + 1. */
  lemma SymbolsAreEntrySymbolsStep(ss: seq<State>, m: nat, min: int, max: int)
    requires m < |ss|
    requires SymbolsUpTo(ss, m, min, max) == SymbolColumn(EntriesUpTo(ss, m, min, max))
    ensures SymbolsUpTo(ss, m + 1, min, max) == SymbolColumn(EntriesUpTo(ss, m + 1, min, max))
  {
    SymbolsOfEntries(m, ss[m].trans, min, max);
    SymbolColumnUnion(EntriesUpTo(ss, m, min, max), EntriesOf(m, ss[m].trans, min, max));
  }


  // ---------------------------------------------------------------------------------
  // Importing a graph of the automaton library (fill)
  // ---------------------------------------------------------------------------------

  /**
   * Symbol i of the alphabet is imported from transition t: it lies between the symbols
   * of the first and the last usable codepoint of t, that is, between the number of
   * usable codepoints below t.lo and the number up to t.hi, less one.
   */
  predicate ImportsAt(t: Transition, alpha: set<Int32>, i: int) {
    i in alpha && FreeBelow(t.lo) <= i < FreeBelow(t.hi + 1)
  }

  /**
   * The same test as fill writes it: both endpoints are read with getIntFromChar, so a
   * reserved endpoint reads as symbol 0.
   */
  predicate ImportsAtAsWritten(t: Transition, alpha: set<Int32>, i: int) {
    i in alpha && IntFromChar(t.lo) <= i <= IntFromChar(t.hi)
  }

  /** The unit transitions fill as written adds for one transition t. */
  function ImportedOneAsWritten(t: Transition, alpha: set<Int32>, base: nat): set<Transition> {
    set i | i in alpha && ImportsAtAsWritten(t, alpha, i) :: Unit(CharFromInt(i), base + t.dest)
  }

  /** The unit transitions fill adds for one transition t of the source graph. */
  function ImportedOne(t: Transition, alpha: set<Int32>, base: nat): set<Transition> {
    set i | i in alpha && ImportsAt(t, alpha, i) :: Unit(CharFromInt(i), base + t.dest)
  }

  /** The unit transitions fill adds for a state with transitions ts, states shifted by base. */
  function Imported(ts: set<Transition>, alpha: set<Int32>, base: nat): set<Transition> {
    set t, i | t in ts && i in alpha && ImportsAt(t, alpha, i) :: Unit(CharFromInt(i), base + t.dest)
  }

  /** The symbols fill adds to the alphabet for one transition t. */
  function ImportedSymbolsOne(t: Transition, alpha: set<Int32>): set<Int32> {
    set i | i in alpha && ImportsAt(t, alpha, i)
  }

  /** The symbols fill adds to the alphabet for a state with transitions ts. */
  function ImportedSymbols(ts: set<Transition>, alpha: set<Int32>): set<Int32> {
    set t, i | t in ts && i in alpha && ImportsAt(t, alpha, i) :: i
  }

  /** The symbols fill adds to the alphabet for the first n nodes. */
  function ImportedSymbolsUpTo(nodes: seq<State>, n: nat, alpha: set<Int32>): set<Int32>
    requires n <= |nodes|
  {
    if n == 0 then {} else ImportedSymbolsUpTo(nodes, n - 1, alpha) + ImportedSymbols(nodes[n - 1].trans, alpha)
  }

  /** The states fill appends: one per node, with its accept flag and its imported transitions. */
  function ImportedStates(nodes: seq<State>, alpha: set<Int32>, base: nat): (r: seq<State>)
    ensures |r| == |nodes|
  {
    seq(|nodes|, k requires 0 <= k < |nodes| => State(nodes[k].accept, Imported(nodes[k].trans, alpha, base)))
  }

  lemma ImportedAdd(ts: set<Transition>, t: Transition, alpha: set<Int32>, base: nat)
    ensures Imported(ts + {t}, alpha, base) == Imported(ts, alpha, base) + ImportedOne(t, alpha, base)
    ensures ImportedSymbols(ts + {t}, alpha) == ImportedSymbols(ts, alpha) + ImportedSymbolsOne(t, alpha)
  {
    ImportedUnitsAdd(ts, t, alpha, base);
    ImportedSymbolsAdd(ts, t, alpha);
  }

  lemma ImportedUnitsAdd(ts: set<Transition>, t: Transition, alpha: set<Int32>, base: nat)
    ensures Imported(ts + {t}, alpha, base) == Imported(ts, alpha, base) + ImportedOne(t, alpha, base)
  {
    ImportedUnitsAddWithin(ts, t, alpha, base);
    ImportedUnitsAddCovers(ts, t, alpha, base);
  }

  lemma ImportedUnitsAddWithin(ts: set<Transition>, t: Transition, alpha: set<Int32>, base: nat)
    ensures Imported(ts + {t}, alpha, base) <= Imported(ts, alpha, base) + ImportedOne(t, alpha, base)
  {
    forall p | p in Imported(ts + {t}, alpha, base) ensures p in Imported(ts, alpha, base) + ImportedOne(t, alpha, base) {
      var u, i :| u in ts + {t} && i in alpha && ImportsAt(u, alpha, i) && p == Unit(CharFromInt(i), base + u.dest);
      if u == t {
        ImportedOneHas(t, alpha, base, i);
      } else {
        ImportedHas(ts, u, alpha, base, i);
      }
    }
  }

  lemma ImportedHas(ts: set<Transition>, u: Transition, alpha: set<Int32>, base: nat, i: Int32)
    requires u in ts && i in alpha && ImportsAt(u, alpha, i)
    ensures Unit(CharFromInt(i), base + u.dest) in Imported(ts, alpha, base)
  {
  }

  lemma ImportedOneHas(t: Transition, alpha: set<Int32>, base: nat, i: Int32)
    requires i in alpha && ImportsAt(t, alpha, i)
    ensures Unit(CharFromInt(i), base + t.dest) in ImportedOne(t, alpha, base)
  {
  }

  lemma ImportedUnitsAddCovers(ts: set<Transition>, t: Transition, alpha: set<Int32>, base: nat)
    ensures Imported(ts, alpha, base) + ImportedOne(t, alpha, base) <= Imported(ts + {t}, alpha, base)
  {
    forall p | p in Imported(ts, alpha, base) ensures p in Imported(ts + {t}, alpha, base) {
      var u, i :| u in ts && i in alpha && ImportsAt(u, alpha, i) && p == Unit(CharFromInt(i), base + u.dest);
    }
    forall p | p in ImportedOne(t, alpha, base) ensures p in Imported(ts + {t}, alpha, base) {
      var i :| i in alpha && ImportsAt(t, alpha, i) && p == Unit(CharFromInt(i), base + t.dest);
    }
  }

  lemma ImportedSymbolsAdd(ts: set<Transition>, t: Transition, alpha: set<Int32>)
    ensures ImportedSymbols(ts + {t}, alpha) == ImportedSymbols(ts, alpha) + ImportedSymbolsOne(t, alpha)
  {
    var lhs := ImportedSymbols(ts + {t}, alpha);
    forall y | y in lhs ensures y in ImportedSymbols(ts, alpha) + ImportedSymbolsOne(t, alpha) {
      var u, i :| u in ts + {t} && i in alpha && ImportsAt(u, alpha, i) && y == i;
      if u == t {
        assert y in ImportedSymbolsOne(t, alpha);
      }
    }
  }

  /** The units of ImportedOne for the symbols below i. */
  function ImportedBelow(t: Transition, alpha: set<Int32>, base: nat, i: int): set<Transition> {
    set j | j in alpha && ImportsAt(t, alpha, j) && j < i :: Unit(CharFromInt(j), base + t.dest)
  }

  /** The symbols of ImportedSymbolsOne below i. */
  function ImportedSymbolsBelow(t: Transition, alpha: set<Int32>, i: int): set<Int32> {
    set j | j in alpha && ImportsAt(t, alpha, j) && j < i
  }

  /** One step of fill's symbol loop. */
  lemma ImportedBelowStep(t: Transition, alpha: set<Int32>, base: nat, i: int)
    ensures i in alpha && ImportsAt(t, alpha, i) ==>
      ImportedBelow(t, alpha, base, i + 1) == ImportedBelow(t, alpha, base, i) + {Unit(CharFromInt(i), base + t.dest)}
      && ImportedSymbolsBelow(t, alpha, i + 1) == ImportedSymbolsBelow(t, alpha, i) + {i}
    ensures !(i in alpha && ImportsAt(t, alpha, i)) ==>
      ImportedBelow(t, alpha, base, i + 1) == ImportedBelow(t, alpha, base, i)
      && ImportedSymbolsBelow(t, alpha, i + 1) == ImportedSymbolsBelow(t, alpha, i)
  {
  }

  /** Below the first symbol the loop visits nothing is imported; past the last, everything is. */
  lemma ImportedBelowEnds(t: Transition, alpha: set<Int32>, base: nat, lo: int, hi: int)
    requires forall j :: j in alpha && ImportsAt(t, alpha, j) ==> lo <= j <= hi
    ensures ImportedBelow(t, alpha, base, lo) == {} && ImportedSymbolsBelow(t, alpha, lo) == {}
    ensures ImportedBelow(t, alpha, base, hi + 1) == ImportedOne(t, alpha, base)
    ensures ImportedSymbolsBelow(t, alpha, hi + 1) == ImportedSymbolsOne(t, alpha)
  {
  }

  /** fill only ever adds symbols of the alphabet it is given. */
  lemma {:induction false} ImportedSymbolsWithin(nodes: seq<State>, n: nat, alpha: set<Int32>)
    requires n <= |nodes|
    ensures ImportedSymbolsUpTo(nodes, n, alpha) <= alpha
  {
    if n > 0 {
      var m: nat := n - 1;
      ImportedSymbolsWithin(nodes, m, alpha);
    }
  }

  /**
   * fill keeps the edge language on usable codepoints whose symbol is in the alphabet:
   * a node reaching e on such a codepoint x gets a unit transition on x to base + e.
   */
  lemma ImportKeepsSymbol(t: Transition, alpha: set<Int32>, base: nat, x: Char16)
    requires Contains(t, x) && !Reserved(x) && IntFromChar(x) in alpha
    ensures Unit(x, base + t.dest) in ImportedOne(t, alpha, base)
  {
    var i := IntFromChar(x);
    assert FreeBelow(t.lo) <= i < FreeBelow(t.hi + 1) by {
      SymbolIsRank(x, 0);
      FreeBelowMonotone(t.lo, x);
      FreeBelowMonotone(x + 1, t.hi + 1);
      assert FreeBelow(x + 1) == FreeBelow(x) + 1;
    }
    EncodeDecode(x);
  }

  /**
   * Conversely, every symbol fill imports from t names a usable codepoint that t
   * carries, and that codepoint reads back as the symbol.
   */
  lemma ImportedSymbolInside(t: Transition, alpha: set<Int32>, i: int)
    requires ImportsAt(t, alpha, i)
    ensures Contains(t, CharFromInt(i)) && !Reserved(CharFromInt(i))
    ensures IntFromChar(CharFromInt(i)) == i
  {
    assert i <= 0xFFFF - 9 by {
      FreeBelowCount(t.hi + 1);
    }
    var x := CharFromInt(i);
    SymbolIsRank(x, i);
    CodeNotReserved(i);
    assert FreeBelow(x + 1) == i + 1;
    assert t.lo <= x by {
      if x < t.lo {
        FreeBelowMonotone(x + 1, t.lo);
      }
    }
    assert x <= t.hi by {
      if x > t.hi {
        FreeBelowMonotone(t.hi + 1, x);
      }
    }
    DecodeEncode(i);
  }

  /** When neither endpoint of t is reserved, fill as written imports the same units. */
  lemma ImportAsWrittenAgrees(t: Transition, alpha: set<Int32>, base: nat)
    requires !Reserved(t.lo) && !Reserved(t.hi)
    ensures ImportedOneAsWritten(t, alpha, base) == ImportedOne(t, alpha, base)
  {
    SymbolIsRank(t.lo, 0);
    SymbolIsRank(t.hi, 0);
    assert FreeBelow(t.hi + 1) == FreeBelow(t.hi) + 1;
    assert forall i :: ImportsAt(t, alpha, i) == ImportsAtAsWritten(t, alpha, i);
  }

  /** At the level of units: fill adds a unit on c from t only when t carries c. */
  lemma ImportedOneInside(t: Transition, alpha: set<Int32>, base: nat, p: Transition)
    requires p in ImportedOne(t, alpha, base)
    ensures p.lo == p.hi && p.dest == base + t.dest
    ensures Contains(t, p.lo) && !Reserved(p.lo) && IntFromChar(p.lo) in alpha
  {
    var i :| i in alpha && ImportsAt(t, alpha, i) && p == Unit(CharFromInt(i), base + t.dest);
    ImportedSymbolInside(t, alpha, i);
  }

  /**
   * As written, a gap [34, hi] that starts at the reserved '"' and ends at a usable
   * codepoint reads as the symbols from 0 to hi's symbol, so it imports symbol 33.
   */
  lemma AsWrittenGapReadsFromZero(alpha: set<Int32>, hi: Char16)
    requires 33 in alpha && 35 <= hi && !Reserved(hi)
    ensures IntFromChar(34) == 0 && IntFromChar(hi) >= 34
    ensures Unit(33, 1) in ImportedOneAsWritten(Transition(34, hi, 1), alpha, 0)
  {
    var t := Transition(34, hi, 1);
    assert IntFromChar(t.lo) == 0 && IntFromChar(t.hi) >= 34;
    assert ImportsAtAsWritten(t, alpha, 33);
    assert CharFromInt(33) == 33;
  }

  /**
   * Such a gap, for instance the gap [34, 0xFFFF] a complement leaves above a unit on
   * '!', gains symbol 33, codepoint '!', which it does not contain; the corrected import
   * does not add it.
   */
  lemma AsWrittenImportAddsSymbol(alpha: set<Int32>, hi: Char16)
    requires 33 in alpha && 35 <= hi && !Reserved(hi)
    ensures Unit(33, 1) in ImportedOneAsWritten(Transition(34, hi, 1), alpha, 0)
    ensures Unit(33, 1) !in ImportedOne(Transition(34, hi, 1), alpha, 0)
    ensures !Contains(Transition(34, hi, 1), 33)
  {
    AsWrittenGapReadsFromZero(alpha, hi);
    var t := Transition(34, hi, 1);
    if Unit(33, 1) in ImportedOne(t, alpha, 0) {
      ImportedOneInside(t, alpha, 0, Unit(33, 1));
    }
  }

  /**
   * As written, [0, 34] ends at the reserved '"', reads as the interval of symbols [0, 0],
   * and so loses symbol 20, which it contains.
   */
  lemma AsWrittenImportLosesSymbol(alpha: set<Int32>)
    requires 20 in alpha
    ensures Contains(Transition(0, 34, 1), 20)
    ensures Unit(20, 1) !in ImportedOneAsWritten(Transition(0, 34, 1), alpha, 0)
    ensures Unit(20, 1) in ImportedOne(Transition(0, 34, 1), alpha, 0)
  {
    var t := Transition(0, 34, 1);
    assert IntFromChar(t.lo) == 0 && IntFromChar(t.hi) == 0;
    forall i | i in alpha && ImportsAtAsWritten(t, alpha, i)
      ensures Unit(CharFromInt(i), 1) != Unit(20, 1)
    {
      assert i == 0;
    }
    ImportKeepsSymbol(t, alpha, 0, 20);
  }

  /** Counting usable codepoints is monotone. */
  lemma {:induction false} FreeBelowMonotone(a: nat, b: nat)
    requires a <= b
    ensures FreeBelow(a) <= FreeBelow(b)
  {
    if a < b {
      FreeBelowMonotone(a, b - 1);
    }
  }

  /**
   * The (state, symbol) couples _removeSymbolFromAutomaton lists for state src: every
   * codepoint of every transition that leads to a state in removed.
   */
  function CouplesOf(src: nat, ts: set<Transition>, removed: set<nat>): set<(nat, Int32)> {
    set t, x | t in ts && t.dest in removed && t.lo <= x <= t.hi :: (src, IntFromChar(x))
  }

  /** The couples one transition t of state src yields, whatever its destination. */
  function CouplesOfOne(src: nat, t: Transition): set<(nat, Int32)> {
    set x | t.lo <= x <= t.hi :: (src, IntFromChar(x))
  }

  lemma CouplesOfAdd(src: nat, ts: set<Transition>, t: Transition, removed: set<nat>)
    ensures CouplesOf(src, ts + {t}, removed) ==
      CouplesOf(src, ts, removed) + (if t.dest in removed then CouplesOfOne(src, t) else {})
  {
    var lhs := CouplesOf(src, ts + {t}, removed);
    forall y | y in lhs ensures y in CouplesOf(src, ts, removed) + (if t.dest in removed then CouplesOfOne(src, t) else {}) {
      var u, x :| u in ts + {t} && u.dest in removed && u.lo <= x <= u.hi && y == (src, IntFromChar(x));
      if u == t {
        assert y in CouplesOfOne(src, t);
      }
    }
  }

  /** The couples _removeSymbolFromAutomaton lists for the first n states. */
  function CouplesUpTo(ss: seq<State>, n: nat, removed: set<nat>): set<(nat, Int32)>
    requires n <= |ss|
  {
    if n == 0 then {} else CouplesUpTo(ss, n - 1, removed) + CouplesOf(n - 1, ss[n - 1].trans, removed)
  }

  /** Some transition of ts carries codepoint c. */
  predicate Carries(ts: set<Transition>, c: int) {
    exists t :: t in ts && Contains(t, c)
  }

  /** The couples of the first n states are exactly the couples of a state below n. */
  lemma {:induction false} CouplesUpToMember(ss: seq<State>, n: nat, removed: set<nat>, y: (nat, Int32))
    requires n <= |ss|
    ensures y in CouplesUpTo(ss, n, removed) <==> y.0 < n && y in CouplesOf(y.0, ss[y.0].trans, removed)
  {
    if n > 0 {
      var m: nat := n - 1;
      CouplesUpToMember(ss, m, removed, y);
    }
  }

  // ---------------------------------------------------------------------------------
  // The destinations of one step
  // ---------------------------------------------------------------------------------

  /** The destinations the library's State.step reaches from transitions ts on codepoint c. */
  function Successors(ts: set<Transition>, c: Char16): set<nat> {
    set t | t in ts && Contains(t, c) :: t.dest
  }

  /** A deterministic state (no two transitions overlap) has at most one successor on c. */
  lemma DeterministicStep(ts: set<Transition>, c: Char16)
    requires forall t, u :: t in ts && u in ts && t != u ==> t.hi < u.lo || u.hi < t.lo
    ensures forall d, e :: d in Successors(ts, c) && e in Successors(ts, c) ==> d == e
  {
  }

  // ---------------------------------------------------------------------------------
  // Loops over a `char` counter
  // ---------------------------------------------------------------------------------

  /** The increment `c++` of a Java `char`: 0xFFFF wraps to 0. */
  function CharSucc(c: Char16): Char16 {
    Wrap16(c + 1)
  }

  /** The counter after k increments from m. */
  function CharIterate(m: Char16, k: nat): Char16 {
    if k == 0 then m else CharSucc(CharIterate(m, k - 1))
  }

  /** The counter counts modulo 65536. */
  lemma {:induction false} CharIterateWraps(m: Char16, k: nat)
    ensures CharIterate(m, k) == (m + k) % 0x1_0000
  {
    if k > 0 {
      var j: nat := k - 1;
      CharIterateWraps(m, j);
      WrapSucc(m + j);
    }
  }

  /** Incrementing after the cast is the cast of the increment. */
  lemma WrapSucc(a: nat)
    ensures Wrap16(Wrap16(a) + 1) == Wrap16(a + 1)
  {
    var q, r := a / 0x1_0000, a % 0x1_0000;
    assert a == q * 0x1_0000 + r;
    if r < 0xFFFF {
      assert a + 1 == q * 0x1_0000 + (r + 1);
    } else {
      assert a + 1 == (q + 1) * 0x1_0000;
    }
  }

  /**
   * `for (char c = m; c <= top; c++)` as written: the loop has left within fuel tests of
   * its guard.
   */
  predicate CharLoopEnds(m: Char16, top: Char16, fuel: nat)
    decreases fuel
  {
    fuel > 0 && (m > top || CharLoopEnds(CharSucc(m), top, fuel - 1))
  }

  /** As written, the loop never ends when its upper bound is 0xFFFF. */
  lemma {:induction false} CharLoopNeverEnds(m: Char16, fuel: nat)
    ensures !CharLoopEnds(m, 0xFFFF, fuel)
    decreases fuel
  {
    if fuel > 0 {
      CharLoopNeverEnds(CharSucc(m), fuel - 1);
    }
  }

  /** Below 0xFFFF the loop ends after top - m + 1 iterations, as an `int` counter does. */
  lemma {:induction false} CharLoopEndsBelowTop(m: Char16, top: Char16)
    requires top < 0xFFFF
    ensures CharLoopEnds(m, top, if m <= top then top - m + 2 else 1)
    decreases top - m
  {
    if m <= top {
      CharLoopEndsBelowTop(CharSucc(m), top);
    }
  }

  /**
   * Below 0xFFFF the `char` counter takes the values an `int` counter takes: after k
   * increments it holds m + k, and after top - m + 1 of them it has passed top.
   */
  lemma CharLoopCountsLikeInt(m: Char16, top: Char16, k: nat)
    requires m <= top < 0xFFFF && k <= top - m + 1
    ensures CharIterate(m, k) == m + k
    ensures k == top - m + 1 ==> CharIterate(m, k) > top
  {
    CharIterateWraps(m, k);
  }

  /**
   * The counterexample: addTransition(0, 0, 65526) gives a state the transition
   * [0xFFFF, 0xFFFF], and a loop from 0xFFFF up to 0xFFFF never ends: its counter
   * wraps from 0xFFFF back to 0, which the guard `c <= 0xFFFF` lets through.
   */
  lemma TopCodepointLoopSpins(fuel: nat)
    ensures CharFromInt(0xFFFF - 9) == 0xFFFF
    ensures CharIterate(0xFFFF, 1) == 0
    ensures !CharLoopEnds(CharFromInt(0xFFFF - 9), 0xFFFF, fuel)
  {
    CharLoopNeverEnds(0xFFFF, fuel);
  }

  // ---------------------------------------------------------------------------------
  // Copying (perfectCopy / clone)
  // ---------------------------------------------------------------------------------

  /** The unit transitions addTransition(t[0], t[1], t[2]) inserts on state src for the triples es. */
  function Units(es: set<Entry>, src: nat): set<Transition> {
    set e | e in es && e.source == src :: Unit(CharFromInt(e.symbol), e.dest)
  }

  /** The states ss with the units of the triples es added to their transitions. */
  function AddedUnits(ss: seq<State>, es: set<Entry>): (r: seq<State>)
    ensures |r| == |ss|
  {
    seq(|ss|, i requires 0 <= i < |ss| => State(ss[i].accept, ss[i].trans + Units(es, i)))
  }

  /** Adding no triples changes nothing. */
  lemma AddedNoUnits(ss: seq<State>)
    ensures AddedUnits(ss, {}) == ss
  {
    forall i | 0 <= i < |ss| ensures AddedUnits(ss, {})[i] == ss[i] {
      assert Units({}, i) == {};
      assert ss[i].trans + {} == ss[i].trans;
    }
  }

  /** Adding one triple's unit adds it to its source state only. */
  lemma AddedUnitsStep(ss: seq<State>, es: set<Entry>, e: Entry)
    requires e.source < |ss|
    ensures AddedUnits(ss, es + {e}) == AddedTo(AddedUnits(ss, es), e.source, {Unit(CharFromInt(e.symbol), e.dest)})
  {
    var a := AddedUnits(ss, es + {e});
    var b := AddedTo(AddedUnits(ss, es), e.source, {Unit(CharFromInt(e.symbol), e.dest)});
    forall i | 0 <= i < |ss| ensures a[i] == b[i] {
      UnitsAdd(es, e, i);
    }
  }

  lemma UnitsAdd(es: set<Entry>, e: Entry, src: nat)
    ensures Units(es + {e}, src) == Units(es, src) + (if e.source == src then {Unit(CharFromInt(e.symbol), e.dest)} else {})
  {
  }

  lemma UnitsOfEntries(es: set<Entry>, fs: set<Entry>, src: nat)
    requires forall e :: e in es && e.source == src <==> e in fs && e.source == src
    ensures Units(es, src) == Units(fs, src)
  {
  }

  /** The units of state k among all listed triples are the units of state k's own triples. */
  lemma UnitsOfListed(ss: seq<State>, min: int, max: int, k: nat)
    requires k < |ss|
    ensures Units(EntriesUpTo(ss, |ss|, min, max), k) == Units(EntriesOf(k, ss[k].trans, min, max), k)
  {
    var es := EntriesUpTo(ss, |ss|, min, max);
    var fs := EntriesOf(k, ss[k].trans, min, max);
    forall e ensures e in es && e.source == k <==> e in fs && e.source == k {
      EntriesUpToMember(ss, |ss|, min, max, e);
      EntriesOfSource(k, ss[k].trans, min, max);
    }
    UnitsOfEntries(es, fs, k);
  }

  /**
   * A copy keeps every clamped edge on a usable codepoint, and sends every clamped
   * reserved codepoint to codepoint 0, whose symbol is 0.
   */
  lemma CopyKeepsEdge(src: nat, t: Transition, ts: set<Transition>, min: int, max: int, x: Char16)
    requires t in ts && LowEnd(min, t) <= x <= HighEnd(max, t)
    ensures !Reserved(x) ==> Unit(x, t.dest) in Units(EntriesOf(src, ts, min, max), src)
    ensures Reserved(x) ==> Unit(0, t.dest) in Units(EntriesOf(src, ts, min, max), src)
  {
    var e := Entry(src, t.dest, IntFromChar(x));
    assert e in EntriesOf(src, ts, min, max);
    if !Reserved(x) {
      EncodeDecode(x);
    }
  }
}
