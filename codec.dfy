/**
 * The symbol codec of FiniteAutomaton: a table, built once, that maps the solver's
 * integer symbols to the 16-bit codepoints the underlying automaton library labels its
 * transitions with, skipping nine codepoints that the pattern language reserves.
 */
module Codec {
  import opened Outcomes

  /** A Java `char`: an unsigned 16-bit codepoint. */
  type Char16 = c: int | 0 <= c <= 0xFFFF

  /** A Java `int`. */
  type Int32 = x: int | -0x8000_0000 <= x <= 0x7FFF_FFFF

  const INT_MIN: Int32 := -0x8000_0000
  const INT_MAX: Int32 := 0x7FFF_FFFF

  /** The Java cast `(char) x`: keep the low 16 bits. */
  function Wrap16(x: int): Char16 {
    x % 0x1_0000
  }

  /** The nine codepoints the table never hands out: " { } < > [ ] ( ) */
  predicate Reserved(c: int) {
    c == '"' as int || c == '{' as int || c == '}' as int || c == '<' as int || c == '>' as int
    || c == '[' as int || c == ']' as int || c == '(' as int || c == ')' as int
  }

  /** How many reserved codepoints lie strictly below c. */
  function ReservedBelow(c: int): nat {
    (if '"' as int < c then 1 else 0) + (if '(' as int < c then 1 else 0)
    + (if ')' as int < c then 1 else 0) + (if '<' as int < c then 1 else 0)
    + (if '>' as int < c then 1 else 0) + (if '[' as int < c then 1 else 0)
    + (if ']' as int < c then 1 else 0) + (if '{' as int < c then 1 else 0)
    + (if '}' as int < c then 1 else 0)
  }

  /** How many usable (non-reserved) codepoints lie strictly below c, counted one by one. */
  function FreeBelow(c: nat): nat {
    if c == 0 then 0 else FreeBelow(c - 1) + (if Reserved(c - 1) then 0 else 1)
  }

  /**
   * The final value of the running `delta` of the static initialiser once symbol i has
   * been placed: the number of reserved codepoints skipped so far.
   */
  function Shift(i: int): nat {
    if i < 34 then 0
    else if i < 39 then 1
    else if i < 57 then 3
    else if i < 58 then 4
    else if i < 86 then 5
    else if i < 87 then 6
    else if i < 116 then 7
    else if i < 117 then 8
    else 9
  }

  /** The `int` the initialiser stores for symbol i, before any `(char)` cast. */
  function RawCode(i: int): int {
    i + Shift(i)
  }

  /** The value of the running `delta` when the initialiser starts on symbol i. */
  function ShiftBefore(i: int): nat {
    if i <= 0 then 0 else Shift(i - 1)
  }

  /** `Int2IntOpenHashMap.get`: a missing key reads as the default value 0. */
  function Get(m: map<int, int>, k: int): int {
    if k in m then m[k] else 0
  }

  /** The codepoint the initialiser tests for symbol i under delta d is reserved. */
  predicate SkipsAt(i: int, d: int) {
    Reserved(Wrap16(i + d))
  }

  /**
   * One step of the initialiser: starting from the delta left by symbol i - 1, the
   * inner `while` passes exactly the reserved codepoints and stops on a usable one.
   */
  lemma ShiftStep(i: int)
    requires 0 <= i <= 0xFFFF
    ensures ShiftBefore(i) <= Shift(i) <= 9
    ensures forall d :: ShiftBefore(i) <= d < Shift(i) ==> SkipsAt(i, d)
    ensures !SkipsAt(i, Shift(i))
  {
    forall d | ShiftBefore(i) <= d < Shift(i) ensures SkipsAt(i, d) {
      assert i in {34, 39, 57, 58, 86, 87, 116, 117};
    }
  }

  /** RawCode is strictly increasing: no two symbols share a stored value. */
  lemma RawCodeIncreasing(i: int, j: int)
    requires 0 <= i < j
    ensures RawCode(i) < RawCode(j)
  {
  }

  /**
   * The static initialiser (FiniteAutomaton.java:49-57). For every i of the char range it
   * advances the running delta past reserved codepoints, then records i -> i + delta and
   * its inverse. The two tables are exactly RawCode and its inverse.
   */
  method BuildTables() returns (charFromInt: map<int, int>, intFromChar: map<int, int>)
    ensures forall i :: i in charFromInt <==> 0 <= i <= 0xFFFF
    ensures forall i :: 0 <= i <= 0xFFFF ==> charFromInt[i] == RawCode(i)
    ensures intFromChar.Keys == set i | 0 <= i <= 0xFFFF :: RawCode(i)
    ensures forall i :: 0 <= i <= 0xFFFF ==> intFromChar[RawCode(i)] == i
  {
    charFromInt, intFromChar := map[], map[];
    var delta := 0;
    var i := 0;
    while i <= 0xFFFF
      invariant 0 <= i <= 0x1_0000
      invariant delta == ShiftBefore(i)
      invariant forall k :: k in charFromInt <==> 0 <= k < i
      invariant forall k :: 0 <= k < i ==> charFromInt[k] == RawCode(k)
      invariant intFromChar.Keys == set k | 0 <= k < i :: RawCode(k)
      invariant forall k :: 0 <= k < i ==> intFromChar[RawCode(k)] == k
    {
      ShiftStep(i);
      while SkipsAt(i, delta)
        invariant ShiftBefore(i) <= delta <= Shift(i)
        decreases Shift(i) - delta
      {
        delta := delta + 1;
      }
      assert delta == Shift(i);
      forall k | 0 <= k < i ensures RawCode(k) != RawCode(i) {
        RawCodeIncreasing(k, i);
      }
      assert (set k | 0 <= k < i + 1 :: RawCode(k)) == (set k | 0 <= k < i :: RawCode(k)) + {RawCode(i)};
      charFromInt := charFromInt[i := i + delta];
      intFromChar := intFromChar[i + delta := i];
      i := i + 1;
    }
  }

  /**
   * getCharFromInt (FiniteAutomaton.java:122-130): look the symbol up, and throw when
   * the value read is negative. Lookups of symbols outside the table read the map's
   * default 0, so the guard never throws; the stored value is cast to `char`.
   */
  function GetCharFromInt(i: int): (r: Result<Char16, Failure>)
    ensures r.Ok?
    ensures 0 <= i <= 0xFFFF - 9 ==> r.value == RawCode(i) && !Reserved(r.value)
    ensures 0xFFFF - 9 < i <= 0xFFFF ==> r.value == i - (0xFFFF - 8)
    ensures !(0 <= i <= 0xFFFF) ==> r.value == 0
  {
    var c := if 0 <= i <= 0xFFFF then RawCode(i) else 0;
    if c > -1 then Ok(Wrap16(c)) else Err(UnknownValue(i))
  }

  /** The codepoint getCharFromInt returns for symbol i. */
  function CharFromInt(i: int): Char16 {
    GetCharFromInt(i).value
  }

  /**
   * getIntFromChar (FiniteAutomaton.java:118-120): the symbol a codepoint was assigned,
   * or the map default 0 for a reserved codepoint, which no symbol was assigned.
   */
  function IntFromChar(c: Char16): Int32 {
    if Reserved(c) then 0 else c - ReservedBelow(c)
  }

  /** The tables BuildTables produces answer exactly CharFromInt and IntFromChar. */
  lemma TablesAnswerCodec(charFromInt: map<int, int>, intFromChar: map<int, int>)
    requires forall i :: i in charFromInt <==> 0 <= i <= 0xFFFF
    requires forall i :: 0 <= i <= 0xFFFF ==> charFromInt[i] == RawCode(i)
    requires intFromChar.Keys == set i | 0 <= i <= 0xFFFF :: RawCode(i)
    requires forall i :: 0 <= i <= 0xFFFF ==> intFromChar[RawCode(i)] == i
    ensures forall i: int :: Wrap16(Get(charFromInt, i)) == CharFromInt(i)
    ensures forall c: Char16 :: Get(intFromChar, c) == IntFromChar(c)
  {
    forall c: Char16 ensures Get(intFromChar, c) == IntFromChar(c) {
      if Reserved(c) {
        forall i | 0 <= i <= 0xFFFF ensures RawCode(i) != c {
          CodeNotReserved(i);
        }
      } else {
        var i := c - ReservedBelow(c);
        CodeOfRank(c);
        assert RawCode(i) == c;
      }
    }
  }

  /** Every stored value, and every codepoint getCharFromInt returns, is usable. */
  lemma CodeNotReserved(i: int)
    requires 0 <= i <= 0xFFFF
    ensures !Reserved(RawCode(i)) && !Reserved(CharFromInt(i))
  {
  }

  /** A usable codepoint c is the stored value of the symbol c - ReservedBelow(c). */
  lemma CodeOfRank(c: Char16)
    requires !Reserved(c)
    ensures 0 <= c - ReservedBelow(c) <= 0xFFFF - 9
    ensures RawCode(c - ReservedBelow(c)) == c
  {
  }

  /** On [0, 65526] the codec is strictly increasing. */
  lemma CharFromIntIncreasing(i: int, j: int)
    requires 0 <= i < j <= 0xFFFF - 9
    ensures CharFromInt(i) < CharFromInt(j)
  {
    RawCodeIncreasing(i, j);
  }

  /** Decoding undoes encoding on [0, 65526]. */
  lemma DecodeEncode(i: int)
    requires 0 <= i <= 0xFFFF - 9
    ensures IntFromChar(CharFromInt(i)) == i
  {
  }

  /** Encoding undoes decoding on every usable codepoint. */
  lemma EncodeDecode(c: Char16)
    requires !Reserved(c)
    ensures CharFromInt(IntFromChar(c)) == c
  {
    CodeOfRank(c);
  }

  /** The nine symbols 65527..65535 wrap past 0xFFFF and alias the symbols 0..8. */
  lemma TopSymbolsAlias(i: int)
    requires 0xFFFF - 9 < i <= 0xFFFF
    ensures CharFromInt(i) == CharFromInt(i - (0xFFFF - 8))
    ensures IntFromChar(CharFromInt(i)) == i - (0xFFFF - 8)
  {
  }

  /** Counting usable codepoints one by one agrees with subtracting the reserved ones. */
  lemma {:induction false} FreeBelowCount(c: nat)
    ensures FreeBelow(c) == c - ReservedBelow(c)
  {
    if c > 0 {
      FreeBelowCount(c - 1);
    }
  }

  /**
   * The correspondence is dense and order-preserving: the symbol of a usable codepoint
   * is the number of usable codepoints below it, and every in-range symbol is the number
   * of usable codepoints below its codepoint.
   */
  lemma SymbolIsRank(c: Char16, i: int)
    requires 0 <= i <= 0xFFFF - 9
    ensures !Reserved(c) ==> IntFromChar(c) == FreeBelow(c)
    ensures FreeBelow(CharFromInt(i)) == i
  {
    FreeBelowCount(c);
    FreeBelowCount(CharFromInt(i));
  }

  /**
   * The corrected reading of an interval [lo, hi] of codepoints as symbols: the symbols
   * of its first and of its last usable codepoint. getIntFromChar reads a reserved
   * endpoint as the map default 0 instead.
   */
  method IntervalSymbols(lo: Char16, hi: Char16) returns (first: Int32, last: Int32)
    ensures first == FreeBelow(lo) && last == FreeBelow(hi + 1) - 1
    ensures !Reserved(lo) ==> first == IntFromChar(lo)
    ensures !Reserved(hi) ==> last == IntFromChar(hi)
  {
    first := lo - ReservedBelow(lo);
    last := if Reserved(hi) then hi - ReservedBelow(hi) - 1 else hi - ReservedBelow(hi);
    FreeBelowCount(lo);
    FreeBelowCount(hi + 1);
  }
}
