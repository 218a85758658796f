/**
  The random generator of core-mwc.c: 32-bit words from two multiply-with-carry
  registers, and three caches that hand a word out low end first in pieces of
  1, 8 and 16 bits.
 */
module Mwc {
  import opened Arithmetic
  import opened Bits
  import opened MultiplyWithCarry

  datatype Kind = Bits1 | Bits8 | Bits16 | Bits32

  datatype State = State(
    w: nat, z: nat,
    n16: nat, saved16: nat,
    n8: nat, saved8: nat,
    n1: nat, saved1: nat)

  function Width(k: Kind): (b: nat)
    ensures 1 <= b <= 32
  {
    match k
    case Bits1 => 1
    case Bits8 => 8
    case Bits16 => 16
    case Bits32 => 32
  }

  /** How many pieces one word gives. */
  function Pieces(k: Kind): (p: nat)
    ensures p >= 1 && p * Width(k) == 32
  {
    match k
    case Bits1 => 32
    case Bits8 => 4
    case Bits16 => 2
    case Bits32 => 1
  }

  function Flushed(w: nat, z: nat): State {
    State(w, z, 0, 0, 0, 0, 0, 0)
  }

  function Combine(w: nat, z: nat): nat {
    (z * HALF + w) % WORD32
  }

  /** The low half of a word is that of w, the high half is z with the high half of w added. */
  lemma CombineHalves(w: nat, z: nat)
    ensures Combine(w, z) % 65536 == w % 65536
    ensures Combine(w, z) / 65536 == (z + w / 65536) % 65536
  {
    var high := z + w / HALF;
    var q := high / HALF;
    assert z * HALF + w == HALF * high + w % HALF;
    assert high == HALF * q + high % HALF;
    DivModUnique(z * HALF + w, q, HALF * (high % HALF) + w % HALF, WORD32);
    DivModUnique(Combine(w, z), high % HALF, w % HALF, HALF);
  }

  /** The first words from the default seeds. */
  lemma FirstWords()
    ensures Word(SEED_W, SEED_Z, 0) == 820856226
    ensures Word(SEED_W, SEED_Z, 1) == 2331188998
  {
    TwoSteps(MULTIPLIER_W, SEED_W, 275137954, 320872198);
    TwoSteps(MULTIPLIER_Z, SEED_Z, 812916871, 307853267);
    hide After, Step;
    assert Word(SEED_W, SEED_Z, 0) == Combine(275137954, 812916871);
    assert Word(SEED_W, SEED_Z, 1) == Combine(320872198, 307853267);
  }

  lemma TwoSteps(a: Multiplier, x: nat, y: nat, t: nat)
    requires y == Step(a, x) && t == Step(a, y)
    ensures After(a, x, 1) == y && After(a, x, 2) == t
  {
    hide Step;
    assert After(a, x, 0) == x;
  }

  function Draw(s: State): State {
    s.(z := Step(MULTIPLIER_Z, s.z), w := Step(MULTIPLIER_W, s.w))
  }

  /** What one call of stress_mwc1, 8, 16 or 32 leaves behind. */
  function Next(s: State, k: Kind): State {
    match k
    case Bits1 =>
      if s.n1 > 0 then s.(n1 := s.n1 - 1, saved1 := s.saved1 / 2)
      else Draw(s).(n1 := 31, saved1 := Combine(Draw(s).w, Draw(s).z))
    case Bits8 =>
      if s.n8 > 0 then s.(n8 := s.n8 - 1, saved8 := s.saved8 / 256)
      else Draw(s).(n8 := 3, saved8 := Combine(Draw(s).w, Draw(s).z))
    case Bits16 =>
      if s.n16 > 0 then s.(n16 := s.n16 - 1, saved16 := s.saved16 / HALF)
      else Draw(s).(n16 := 1, saved16 := Combine(Draw(s).w, Draw(s).z))
    case Bits32 => Draw(s)
  }

  /** What that call returns, read off the state it leaves. */
  function Output(after: State, k: Kind): nat {
    match k
    case Bits1 => after.saved1 % 2
    case Bits8 => after.saved8 % 256
    case Bits16 => after.saved16 % HALF
    case Bits32 => Combine(after.w, after.z)
  }

  function Run(s: State, calls: seq<Kind>): State {
    if calls == [] then s
    else Next(Run(s, calls[..|calls| - 1]), calls[|calls| - 1])
  }

  // ---------- the reference: numbered words, cut low end first ----------

  /** Word d of the sequence that the seed (w, z) starts. */
  function Word(w: nat, z: nat, d: nat): nat {
    Combine(After(MULTIPLIER_W, w, d + 1), After(MULTIPLIER_Z, z, d + 1))
  }

  function Piece(word: nat, j: nat, width: nat): nat {
    word / Pow2(width * j) % Pow2(width)
  }

  function Count(calls: seq<Kind>, k: Kind): nat {
    if calls == [] then 0
    else Count(calls[..|calls| - 1], k) + if calls[|calls| - 1] == k then 1 else 0
  }

  /** Words drawn: a call draws when its kind has used up the word it was on. */
  function Draws(calls: seq<Kind>): nat {
    if calls == [] then 0
    else
      var before, k := calls[..|calls| - 1], calls[|calls| - 1];
      Draws(before) + if Count(before, k) % Pieces(k) == 0 then 1 else 0
  }

  /** The number of the word that kind k is on. */
  function Current(calls: seq<Kind>, k: Kind): nat {
    if calls == [] then 0
    else
      var before := calls[..|calls| - 1];
      if calls[|calls| - 1] == k && Count(before, k) % Pieces(k) == 0 then Draws(before)
      else Current(before, k)
  }

  // ---------- every call emits the next piece ----------

  function Left(s: State, k: Kind): nat {
    match k
    case Bits1 => s.n1
    case Bits8 => s.n8
    case Bits16 => s.n16
    case Bits32 => 0
  }

  function Saved(s: State, k: Kind): nat {
    match k
    case Bits1 => s.saved1
    case Bits8 => s.saved8
    case Bits16 => s.saved16
    case Bits32 => Combine(s.w, s.z)
  }

  ghost predicate CacheHolds(s: State, w: nat, z: nat, calls: seq<Kind>, k: Kind) {
    var used := Count(calls, k) % Pieces(k);
    && (used == 0 ==> Left(s, k) == 0)
    && (used > 0 ==> Left(s, k) == Pieces(k) - used)
    && (used > 0 ==> Saved(s, k) == Word(w, z, Current(calls, k)) / Pow2(Width(k) * (used - 1)))
  }

  ghost predicate Follows(s: State, w: nat, z: nat, calls: seq<Kind>) {
    && s.w == After(MULTIPLIER_W, w, Draws(calls))
    && s.z == After(MULTIPLIER_Z, z, Draws(calls))
    && forall k :: CacheHolds(s, w, z, calls, k)
  }

  lemma Snoc(calls: seq<Kind>, k: Kind)
    ensures (calls + [k])[..|calls + [k]| - 1] == calls
    ensures Count(calls + [k], k) == Count(calls, k) + 1
    ensures forall j | j != k :: Count(calls + [k], j) == Count(calls, j)
    ensures forall j | j != k :: Current(calls + [k], j) == Current(calls, j)
    ensures Current(calls + [k], k) == if Count(calls, k) % Pieces(k) == 0 then Draws(calls) else Current(calls, k)
    ensures Draws(calls + [k]) == Draws(calls) + if Count(calls, k) % Pieces(k) == 0 then 1 else 0
  {
    assert (calls + [k])[..|calls + [k]| - 1] == calls;
  }

  lemma PowersOfTwo()
    ensures Pow2(1) == 2 && Pow2(8) == 256 && Pow2(16) == HALF && Pow2(32) == WORD32
  {
    assert Pow2(2) == 4 && Pow2(4) == 16 && Pow2(6) == 64;
    Pow2Add(8, 8);
    Pow2Add(16, 16);
  }

  /** The cache of the kind that is asked moves on by one piece; the others stay. */
  lemma NextCache(s: State, k: Kind)
    ensures var t := Next(s, k);
      && (Left(s, k) > 0 ==> Left(t, k) == Left(s, k) - 1 && Saved(t, k) == Saved(s, k) / Pow2(Width(k)))
      && (Left(s, k) > 0 ==> t.w == s.w && t.z == s.z)
      && (Left(s, k) == 0 ==> Left(t, k) == Pieces(k) - 1 && Saved(t, k) == Combine(t.w, t.z))
      && (Left(s, k) == 0 ==> t.w == Step(MULTIPLIER_W, s.w) && t.z == Step(MULTIPLIER_Z, s.z))
      && (forall j | j != k :: Left(t, j) == Left(s, j))
      && (forall j | j != k && j != Bits32 :: Saved(t, j) == Saved(s, j))
      && Output(t, k) == Saved(t, k) % Pow2(Width(k))
  {
    hide Step, Combine, Pow2;
    PowersOfTwo();
    match k
    case Bits1 =>
    case Bits8 =>
    case Bits16 =>
    case Bits32 => assert s.(w := s.w) == s; CombineIsWord(Draw(s).w, Draw(s).z);
  }

  lemma CombineIsWord(w: nat, z: nat)
    ensures Combine(w, z) % WORD32 == Combine(w, z)
  {
  }

  /** Shifting off one more piece. */
  lemma NextPiece(word: nat, width: nat, used: nat)
    requires used > 0
    ensures word / Pow2(width * (used - 1)) / Pow2(width) == word / Pow2(width * used)
  {
    hide Pow2;
    OneMore(width, used);
    ShiftMore(word, width * (used - 1), width, width * used);
  }

  lemma OneMore(width: nat, used: nat)
    requires used > 0
    ensures 0 <= width * (used - 1) && width * used == width * (used - 1) + width
  {
  }

  lemma ShiftMore(word: nat, a: nat, width: nat, b: nat)
    requires b == a + width
    ensures word / Pow2(a) / Pow2(width) == word / Pow2(b)
  {
    hide Pow2;
    Pow2Add(a, width);
    DivDiv(word, Pow2(a), Pow2(width));
  }

  lemma NextCount(c: nat, p: nat)
    requires p > 0
    ensures (c + 1) % p == if c % p + 1 == p then 0 else c % p + 1
  {
    var q := c / p;
    assert c == p * q + c % p;
    if c % p + 1 == p {
      assert c + 1 == p * (q + 1) + 0;
      DivModUnique(c + 1, q + 1, 0, p);
    } else {
      DivModUnique(c + 1, q, c % p + 1, p);
    }
  }

  lemma NoShift(word: nat, width: nat, used: nat)
    requires used == 0
    ensures word / Pow2(width * used) == word
  {
    assert width * used == 0;
  }

  lemma AskedCache(s: State, w: nat, z: nat, calls: seq<Kind>, k: Kind)
    requires Follows(s, w, z, calls)
    ensures var t, used := Next(s, k), Count(calls, k) % Pieces(k);
      && Left(t, k) == Pieces(k) - 1 - used
      && Saved(t, k) == Word(w, z, Current(calls + [k], k)) / Pow2(Width(k) * used)
      && t.w == After(MULTIPLIER_W, w, Draws(calls + [k]))
      && t.z == After(MULTIPLIER_Z, z, Draws(calls + [k]))
  {
    hide Next, Output, Left, Saved, Count, Draws, Current, Step, Width, Pieces, Pow2;
    var used := Count(calls, k) % Pieces(k);
    var word := Word(w, z, Current(calls + [k], k));
    NextCache(s, k);
    Snoc(calls, k);
    assert CacheHolds(s, w, z, calls, k);
    if used == 0 {
      NoShift(word, Width(k), used);
    } else {
      NextPiece(word, Width(k), used);
    }
  }

  lemma OtherCache(s: State, w: nat, z: nat, calls: seq<Kind>, k: Kind, j: Kind)
    requires Follows(s, w, z, calls) && j != k
    ensures CacheHolds(Next(s, k), w, z, calls + [k], j)
  {
    hide Next, Output, Left, Saved, Count, Draws, Current, Step, Width, Pieces, Pow2, Word;
    NextCache(s, k);
    Snoc(calls, k);
    assert CacheHolds(s, w, z, calls, j);
    NeverPartial(Count(calls, j), j);
  }

  lemma NeverPartial(c: nat, k: Kind)
    ensures k == Bits32 ==> c % Pieces(k) == 0
  {
  }

  lemma EqualMod(a: nat, b: nat, m: nat)
    requires a == b && m > 0
    ensures a % m == b % m
  {
  }

  lemma AskedHolds(s: State, w: nat, z: nat, calls: seq<Kind>, k: Kind)
    requires Follows(s, w, z, calls)
    ensures CacheHolds(Next(s, k), w, z, calls + [k], k)
    ensures Output(Next(s, k), k)
         == Piece(Word(w, z, Current(calls + [k], k)), Count(calls, k) % Pieces(k), Width(k))
  {
    hide Next, Output, Left, Saved, Count, Draws, Current, Step, Pow2, Word, Width, Pieces, Follows;
    var used := Count(calls, k) % Pieces(k);
    var word := Word(w, z, Current(calls + [k], k));
    var offset := Width(k) * used;
    AskedCache(s, w, z, calls, k);
    assert Output(Next(s, k), k) == Saved(Next(s, k), k) % Pow2(Width(k)) by { NextCache(s, k); }
    assert Count(calls + [k], k) == Count(calls, k) + 1 by { Snoc(calls, k); }
    NextCount(Count(calls, k), Pieces(k));
    EqualMod(Saved(Next(s, k), k), word / Pow2(offset), Pow2(Width(k)));
    if Count(calls + [k], k) % Pieces(k) > 0 {
      assert Count(calls + [k], k) % Pieces(k) - 1 == used;
    }
  }

  /** One more call keeps the invariant. */
  lemma NextFollows(s: State, w: nat, z: nat, calls: seq<Kind>, k: Kind)
    requires Follows(s, w, z, calls)
    ensures Follows(Next(s, k), w, z, calls + [k])
  {
    AskedCache(s, w, z, calls, k);
    forall j ensures CacheHolds(Next(s, k), w, z, calls + [k], j) {
      if j == k {
        AskedHolds(s, w, z, calls, k);
      } else {
        OtherCache(s, w, z, calls, k, j);
      }
    }
    hide CacheHolds, Next, Draws, Left, Saved, Count, Current;
  }

  lemma {:induction false} RunFollows(w: nat, z: nat, calls: seq<Kind>)
    ensures Follows(Run(Flushed(w, z), calls), w, z, calls)
    decreases |calls|
  {
    if calls != [] {
      var before, k := calls[..|calls| - 1], calls[|calls| - 1];
      RunFollows(w, z, before);
      NextFollows(Run(Flushed(w, z), before), w, z, before, k);
      assert before + [k] == calls;
    }
  }

  /** After any seeding and any calls, a call emits the next piece, low end first, of the word its kind is on. */
  lemma EveryCallEmitsNextPiece(w: nat, z: nat, calls: seq<Kind>, k: Kind)
    ensures Output(Run(Flushed(w, z), calls + [k]), k)
         == Piece(Word(w, z, Current(calls + [k], k)), Count(calls, k) % Pieces(k), Width(k))
  {
    RunFollows(w, z, calls);
    AskedHolds(Run(Flushed(w, z), calls), w, z, calls, k);
    Snoc(calls, k);
  }

  function CeilDiv(c: nat, p: nat): nat
    requires p > 0
  {
    (c + p - 1) / p
  }

  lemma CeilNext(c: nat, p: nat)
    requires p > 0
    ensures CeilDiv(c + 1, p) == CeilDiv(c, p) + if c % p == 0 then 1 else 0
  {
    var q, r := c / p, c % p;
    assert c == p * q + r;
    if r == 0 {
      DivModUnique(c + p - 1, q, p - 1, p);
      assert p * (q + 1) == p * q + p;
      DivModUnique(c + p, q + 1, 0, p);
    } else {
      assert p * (q + 1) == p * q + p;
      DivModUnique(c + p - 1, q + 1, r - 1, p);
      DivModUnique(c + p, q + 1, r, p);
    }
  }

  /** No word is drawn early, twice or in vain: the draws are the words the four counts need. */
  lemma {:induction false} DrawsAreNeeded(calls: seq<Kind>)
    ensures Draws(calls) == WordsFor(calls, Bits1) + WordsFor(calls, Bits8) + WordsFor(calls, Bits16) + WordsFor(calls, Bits32)
    decreases |calls|
  {
    if calls != [] {
      var before, k := calls[..|calls| - 1], calls[|calls| - 1];
      DrawsAreNeeded(before);
      WordsForNext(before, k);
      assert before + [k] == calls;
      hide WordsFor, Draws, Count, Pieces;
    }
  }

  /** The words that the calls of one kind use up: their number over the pieces of a word, rounded up. */
  function WordsFor(calls: seq<Kind>, k: Kind): nat {
    CeilDiv(Count(calls, k), Pieces(k))
  }

  lemma WordsForNext(calls: seq<Kind>, k: Kind)
    ensures var d := if Count(calls, k) % Pieces(k) == 0 then 1 else 0;
      && WordsFor(calls + [k], k) == WordsFor(calls, k) + d
      && Draws(calls + [k]) == Draws(calls) + d
    ensures forall j | j != k :: WordsFor(calls + [k], j) == WordsFor(calls, j)
  {
    Snoc(calls, k);
    hide CeilDiv, Draws, Count, Pieces;
    CeilNext(Count(calls, k), Pieces(k));
  }
}
