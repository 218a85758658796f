/**
  Which bytes stress_uint8rnd4 writes after a seeding, in terms of the numbered
  words of the generator.
 */
module RandomBytes {
  import opened Arithmetic
  import opened Bits
  import opened Generator
  import opened MultiplyWithCarry
  import opened Mwc

  function Rep(k: Kind, n: nat): seq<Kind> {
    seq(n, _ => k)
  }

  lemma RepMore(calls: seq<Kind>, k: Kind, n: nat)
    ensures calls + Rep(k, 0) == calls
    ensures calls + Rep(k, n + 1) == (calls + Rep(k, n)) + [k]
  {
  }

  lemma RunMore(w: nat, z: nat, calls: seq<Kind>, k: Kind)
    ensures Run(Flushed(w, z), calls + [k]) == Next(Run(Flushed(w, z), calls), k)
  {
    hide Next;
    assert (calls + [k])[..|calls|] == calls;
  }

  // ---------- the fillers, call by call ----------

  /** Byte i of a stretch of bytes is the piece that call is due. */
  lemma {:induction false} BytesArePieces(w: nat, z: nat, calls: seq<Kind>, n: nat)
    ensures var s := Run(Flushed(w, z), calls);
      && AfterBytes(s, n) == Run(Flushed(w, z), calls + Rep(Bits8, n))
      && |Bytes(s, n)| == n
      && forall i | 0 <= i < n :: Bytes(s, n)[i] == ByteDue(w, z, calls, i)
    decreases n
  {
    hide Run, Next, Output, Piece, Word, Current, Count, Draws;
    RepMore(calls, Bits8, if n == 0 then 0 else n - 1);
    if n > 0 {
      BytesArePieces(w, z, calls, n - 1);
      RunMore(w, z, calls + Rep(Bits8, n - 1), Bits8);
      EveryCallEmitsNextPiece(w, z, calls + Rep(Bits8, n - 1), Bits8);
    }
  }

  function ByteDue(w: nat, z: nat, calls: seq<Kind>, i: nat): nat {
    var before := calls + Rep(Bits8, i);
    Piece(Word(w, z, Current(before + [Bits8], Bits8)), Count(before, Bits8) % 4, 8)
  }

  /** n words from word d on, each low byte first. */
  function WordRun(w: nat, z: nat, d: nat, n: nat): seq<Byte> {
    if n == 0 then [] else WordRun(w, z, d, n - 1) + StoredLittle(Word(w, z, d + n - 1))
  }

  /** A stretch of words is the next words there are. */
  lemma {:induction false} WordsAreWords(w: nat, z: nat, calls: seq<Kind>, n: nat)
    ensures var s := Run(Flushed(w, z), calls);
      && AfterWords(s, n) == Run(Flushed(w, z), calls + Rep(Bits32, n))
      && Words(s, n) == WordRun(w, z, Draws(calls), n)
    decreases n
  {
    hide Run, Next, Output, Piece, Word, Current, Count, Draws, StoredLittle;
    RepMore(calls, Bits32, if n == 0 then 0 else n - 1);
    if n > 0 {
      var before := calls + Rep(Bits32, n - 1);
      WordsAreWords(w, z, calls, n - 1);
      RunMore(w, z, before, Bits32);
      EveryCallEmitsNextPiece(w, z, before, Bits32);
      WholePiece(w, z, before);
      WordsDraw(calls, n - 1);
    }
  }

  lemma WholePiece(w: nat, z: nat, calls: seq<Kind>)
    ensures Piece(Word(w, z, Current(calls + [Bits32], Bits32)), Count(calls, Bits32) % 1, 32)
         == Word(w, z, Current(calls + [Bits32], Bits32))
  {
    var word := Word(w, z, Current(calls + [Bits32], Bits32));
    hide Current, Count;
    PowersOfTwo();
    assert Pow2(0) == 1;
  }

  // ---------- which word that is ----------

  lemma {:induction false} RepCounts(calls: seq<Kind>, k: Kind, n: nat)
    ensures Count(calls + Rep(k, n), k) == Count(calls, k) + n
    ensures forall j | j != k :: Count(calls + Rep(k, n), j) == Count(calls, j) && Current(calls + Rep(k, n), j) == Current(calls, j)
    decreases n
  {
    hide Count, Current, Draws;
    RepMore(calls, k, if n == 0 then 0 else n - 1);
    if n > 0 {
      RepCounts(calls, k, n - 1);
      Snoc(calls + Rep(k, n - 1), k);
    }
  }

  /** Every 32-bit call draws its own word. */
  lemma {:induction false} WordsDraw(calls: seq<Kind>, n: nat)
    ensures Draws(calls + Rep(Bits32, n)) == Draws(calls) + n
    ensures Current(calls + Rep(Bits32, n) + [Bits32], Bits32) == Draws(calls) + n
    decreases n
  {
    hide Count, Current, Draws;
    RepMore(calls, Bits32, if n == 0 then 0 else n - 1);
    Snoc(calls + Rep(Bits32, n), Bits32);
    if n > 0 {
      WordsDraw(calls, n - 1);
      Snoc(calls + Rep(Bits32, n - 1), Bits32);
    }
  }

  /** Up to six bytes, some already taken: the word begun serves the first four, one new word the rest. */
  lemma {:induction false} BytesDraw(calls: seq<Kind>, n: nat)
    requires Count(calls, Bits8) <= 3 && n <= 3
    ensures var c := Count(calls, Bits8);
      && Current(calls + Rep(Bits8, n) + [Bits8], Bits8) == (if c > 0 && c + n < 4 then Current(calls, Bits8) else Draws(calls))
      && Draws(calls + Rep(Bits8, n)) == Draws(calls) + (if (c == 0 && n > 0) || c + n > 4 then 1 else 0)
    decreases n
  {
    hide Count, Current, Draws;
    RepMore(calls, Bits8, if n == 0 then 0 else n - 1);
    RepCounts(calls, Bits8, n);
    Snoc(calls + Rep(Bits8, n), Bits8);
    if n > 0 {
      BytesDraw(calls, n - 1);
      RepCounts(calls, Bits8, n - 1);
      Snoc(calls + Rep(Bits8, n - 1), Bits8);
    }
  }

  // ---------- the whole fill ----------

  /** The number of the word that byte c of the odd bytes comes from, when `words` whole words lie between lead and tail. */
  function OddByteWord(lead: nat, words: nat, c: nat): nat {
    if c < lead || (lead > 0 && c < 4) then 0 else words + if lead > 0 then 1 else 0
  }

  /** The first bytes end at the first word boundary, or with the buffer. */
  lemma LeadIs(address: nat, len: nat)
    ensures var lead := Lead(address, len);
      && lead <= len && (address % 4 == 0 ==> lead == 0)
      && ((lead <= 3 && (address + lead) % 4 == 0) || (lead == len && len < 4 - address % 4))
  {
  }

  /** The odd bytes numbered from..to-1. */
  function OddBytes(w: nat, z: nat, lead: nat, words: nat, from: nat, to: nat): seq<int>
    requires from <= to
  {
    seq(to - from, j requires 0 <= j => Piece(Word(w, z, OddByteWord(lead, words, from + j)), (from + j) % 4, 8))
  }

  /**
    After a seeding, a fill writes: the first bytes of word 0 up to the word boundary;
    then the next words whole, low byte first; then the remaining bytes of word 0, and
    when that is used up, or was not begun, those of one more word.
   */
  lemma FillIsPieces(w: nat, z: nat, address: nat, len: nat)
    ensures var lead := Lead(address, len);
      var words, tail := (len - lead) / 4, (len - lead) % 4;
      && lead <= 3
      && Fill(Flushed(w, z), address, len)
         == OddBytes(w, z, lead, words, 0, lead) + WordRun(w, z, if lead > 0 then 1 else 0, words)
            + OddBytes(w, z, lead, words, lead, lead + tail)
  {
    var lead := Lead(address, len);
    assert lead <= 3;
    var words, tail := (len - lead) / 4, (len - lead) % 4;
    FillParts3(w, z, lead, words, tail);
    hide Bytes, Words, AfterBytes, AfterWords, OddBytes, WordRun, Flushed, Lead, Run, Rep;
  }

  lemma FillParts3(w: nat, z: nat, lead: nat, words: nat, tail: nat)
    requires lead <= 3 && tail <= 3
    ensures var s := Flushed(w, z);
      var s1 := AfterBytes(s, lead);
      && Bytes(s, lead) == OddBytes(w, z, lead, words, 0, lead)
      && Words(s1, words) == WordRun(w, z, if lead > 0 then 1 else 0, words)
      && Bytes(AfterWords(s1, words), tail) == OddBytes(w, z, lead, words, lead, lead + tail)
  {
    hide Bytes, Words, AfterBytes, AfterWords, Piece, Word, StoredLittle, Flushed, WordRun, Run, Draws, Count, Current, ByteDue, OddByteWord;
    var first := Rep(Bits8, lead);
    assert [] + first == first;
    EmptyCalls(w, z);
    AfterLead(lead);
    BytesArePieces(w, z, [], lead);
    WordsAreWords(w, z, first, words);
    BytesArePieces(w, z, first + Rep(Bits32, words), tail);
    LeadBytes(w, z, lead, words);
    TailBytes(w, z, lead, words);
  }

  lemma EmptyCalls(w: nat, z: nat)
    ensures Run(Flushed(w, z), []) == Flushed(w, z)
  {
  }

  lemma LeadBytes(w: nat, z: nat, lead: nat, words: nat)
    requires lead <= 3
    ensures forall c: nat | c < lead :: ByteDue(w, z, [], c) == Piece(Word(w, z, OddByteWord(lead, words, c)), c, 8)
  {
    hide Piece, Word;
    forall c: nat | c < lead ensures ByteDue(w, z, [], c) == Piece(Word(w, z, OddByteWord(lead, words, c)), c, 8) {
      assert Count([], Bits8) == 0 && Draws([]) == 0;
      BytesDraw([], c);
      RepCounts([], Bits8, c);
    }
  }

  lemma AfterLead(lead: nat)
    requires lead <= 3
    ensures Count(Rep(Bits8, lead), Bits8) == lead
    ensures Draws(Rep(Bits8, lead)) == if lead > 0 then 1 else 0
    ensures lead > 0 ==> Current(Rep(Bits8, lead), Bits8) == 0
  {
    assert [] + Rep(Bits8, lead) == Rep(Bits8, lead);
    assert Count([], Bits8) == 0 && Draws([]) == 0;
    BytesDraw([], lead);
    RepCounts([], Bits8, lead);
    if lead > 0 {
      BytesDraw([], lead - 1);
      RepMore([], Bits8, lead - 1);
    }
  }

  lemma TailBytes(w: nat, z: nat, lead: nat, words: nat)
    requires lead <= 3
    ensures forall j: nat | j <= 3 ::
      ByteDue(w, z, Rep(Bits8, lead) + Rep(Bits32, words), j) == Piece(Word(w, z, OddByteWord(lead, words, lead + j)), (lead + j) % 4, 8)
  {
    hide Piece, Word, Count, Current, Draws;
    var calls := Rep(Bits8, lead) + Rep(Bits32, words);
    AfterLead(lead);
    RepCounts(Rep(Bits8, lead), Bits32, words);
    WordsDraw(Rep(Bits8, lead), words);
    forall j: nat | j <= 3
      ensures ByteDue(w, z, calls, j) == Piece(Word(w, z, OddByteWord(lead, words, lead + j)), (lead + j) % 4, 8)
    {
      BytesDraw(calls, j);
      RepCounts(calls, Bits8, j);
    }
  }
}
