/** The mwc object itself, and the buffer fillers that draw from it. */
module Generator {
  import opened Arithmetic
  import opened MultiplyWithCarry
  import opened Mwc
  import opened Reduction

  function Upper(): (s: string)
    ensures |s| == 26
  {
    "ABCDEFGHIJKLMNOPQRSTUVWXYZ"
  }

  function Lower(): (s: string)
    ensures |s| == 26
  {
    "abcdefghijklmnopqrstuvwxyz"
  }

  function Rest(): (s: string)
    ensures |s| == 12
  {
    "0123456789-_"
  }

  function Alphabet(): (s: string)
    ensures |s| == 64
  {
    Upper() + Lower() + Rest()
  }

  function Letter(k: nat): (c: char)
    requires k < 64
    ensures c in Alphabet()
  {
    Alphabet()[k]
  }

  /** The place of a character in the base64url alphabet. */
  function Index(c: char): int {
    if 'A' <= c <= 'Z' then (c - 'A') as int
    else if 'a' <= c <= 'z' then 26 + (c - 'a') as int
    else if '0' <= c <= '9' then 52 + (c - '0') as int
    else if c == '-' then 62 else if c == '_' then 63 else -1
  }

  /** Each of the 64 values has its own character, the one base64url gives it. */
  lemma LetterIndex(k: nat)
    requires k < 64
    ensures Index(Letter(k)) == k
  {
    hide Upper, Lower, Rest;
    if k < 26 { UpperAt(k); } else if k < 52 { LowerAt(k - 26); } else { RestAt(k - 52); }
  }

  lemma UpperAt(k: nat)
    requires k < 26
    ensures Upper()[k] == 'A' + k as char
  {
  }

  lemma LowerAt(k: nat)
    requires k < 26
    ensures Lower()[k] == 'a' + k as char
  {
  }

  lemma RestAt(k: nat)
    requires k < 12
    ensures Rest()[k] == if k < 10 then '0' + k as char else if k == 10 then '-' else '_'
  {
  }

  // ---------- strings: five characters a word ----------

  function Pow64(j: nat): (p: nat)
    requires j <= 5
    ensures p > 0
  {
    match j
    case 0 => 1
    case 1 => 64
    case 2 => 4096
    case 3 => 262144
    case 4 => 16777216
    case 5 => 1073741824
  }

  /** r | 0xc0000000: the two top bits become the sentinel. */
  function Sentinel(r: nat): nat {
    r % 0x4000_0000 + 0xc000_0000
  }

  lemma QuotientAdd(m: nat, p: nat, k: nat)
    requires p > 0
    ensures (m + p * k) / p == m / p + k
  {
    assert m == p * (m / p) + m % p;
    assert p * (m / p + k) == p * (m / p) + p * k;
    DivModUnique(m + p * k, m / p + k, m % p, p);
  }

  lemma SentinelSplit(word: nat, p: nat, q: nat)
    requires p > 0 && q > 0 && p * (64 * q) == 0x4000_0000
    ensures Sentinel(word) / p / 64 >= 3 * q && (q == 1 ==> Sentinel(word) / p / 64 == 3)
    ensures Sentinel(word) / p % 64 == word / p % 64
  {
    var m, t := word % 0x4000_0000, word / 0x4000_0000;
    assert Sentinel(word) == m + p * ((64 * q) * 3) by {
      assert p * ((64 * q) * 3) == (p * (64 * q)) * 3;
    }
    assert word == m + p * ((64 * q) * t) by {
      assert p * ((64 * q) * t) == (p * (64 * q)) * t;
    }
    hide Sentinel;
    QuotientAdd(m, p, (64 * q) * 3);
    QuotientAdd(m, p, (64 * q) * t);
    assert (64 * q) * t == 64 * (q * t);
    ModShift(m / p, q * t, 64);
    ModShift(m / p, q * 3, 64);
    QuotientAdd(m / p, 64, q * 3);
    if q == 1 {
      QuotientBelow(m, p, 64);
    }
  }

  /** The sentinel surfaces after exactly five characters, and never shows in one. */
  lemma SentinelCountsFive(word: nat, j: nat)
    requires j < 5
    ensures Sentinel(word) / Pow64(j) / 64 == 3 <==> j == 4
    ensures j < 4 ==> Sentinel(word) / Pow64(j) / 64 == Sentinel(word) / Pow64(j + 1)
    ensures Sentinel(word) / Pow64(j) % 64 == word / Pow64(j) % 64
  {
    SentinelSplit(word, Pow64(j), Pow64(4 - j));
    DivDiv(Sentinel(word), Pow64(j), 64);
    hide Sentinel;
    assert Pow64(j) * 64 == Pow64(j + 1);
  }

  /** The register r of stress_rndstr after j characters of a word. */
  function Shifted(word: nat, j: nat): nat
    requires j <= 5
  {
    Sentinel(word) / Pow64(j)
  }

  function CharOf(word: nat, j: nat): (c: char)
    requires j < 5
    ensures c in Alphabet()
  {
    Letter(word / Pow64(j) % 64)
  }

  /** The first n characters drawn from the seed (w, z), five to a word. */
  function Characters(w: nat, z: nat, n: nat): string {
    if n == 0 then [] else Characters(w, z, n - 1) + [CharOf(Word(w, z, (n - 1) / 5), (n - 1) % 5)]
  }

  lemma {:induction false} CharactersAt(w: nat, z: nat, n: nat, i: nat)
    requires i < n
    ensures |Characters(w, z, n)| == n
    ensures Characters(w, z, n)[i] == CharOf(Word(w, z, i / 5), i % 5) && Characters(w, z, n)[i] in Alphabet()
    decreases n
  {
    hide CharOf, Alphabet;
    if n > 1 {
      CharactersAt(w, z, n - 1, if i < n - 1 then i else 0);
    }
  }

  /** Character n = 5 q + j is the next six bits of word q; the register shows 3 exactly when that was the fifth. */
  lemma CharacterDrawn(w: nat, z: nat, n: nat, q: nat, j: nat)
    requires n == 5 * q + j && j < 5
    ensures var r := Shifted(Word(w, z, q), j);
      && Characters(w, z, n + 1) == Characters(w, z, n) + [Letter(r % 64)]
      && (r / 64 == 3 <==> j == 4)
      && (j < 4 ==> r / 64 == Shifted(Word(w, z, q), j + 1))
  {
    hide Sentinel, Pow64, Word, Letter, Alphabet;
    SentinelCountsFive(Word(w, z, q), j);
    assert n / 5 == q && n % 5 == j;
  }

  /** The state n words later, with the caches as they were. */
  function Drawn(s: State, n: nat): State {
    s.(w := After(MULTIPLIER_W, s.w, n), z := After(MULTIPLIER_Z, s.z, n))
  }

  lemma DrawNext(s: State, n: nat)
    ensures Drawn(s, 0) == s
    ensures Next(Drawn(s, n), Bits32) == Drawn(s, n + 1)
    ensures Output(Drawn(s, n + 1), Bits32) == Word(s.w, s.z, n)
  {
    hide Step;
  }

  // ---------- byte buffers ----------

  /** Bytes in address order of a word stored on a little-endian host. */
  function StoredLittle(v: nat): (bytes: seq<Byte>)
    ensures |bytes| == 4
  {
    [v % 256, v / 256 % 256, v / 65536 % 256, v / 16777216 % 256]
  }

  /** The lowest address holds the low byte. */
  lemma LittleIsLowFirst(v: nat)
    ensures var b := StoredLittle(v);
      b[0] as int + 0x100 * b[1] as int + 0x1_0000 * b[2] as int + 0x100_0000 * b[3] as int == v % 0x1_0000_0000
  {
    var q1, q2, q3, q4 := v / 256, v / 65536, v / 16777216, v / 16777216 / 256;
    DivDiv(v, 256, 256);
    DivDiv(v, 65536, 256);
    assert v == 256 * q1 + v % 256 && q1 == 256 * q2 + q1 % 256;
    assert q2 == 256 * q3 + q2 % 256 && q3 == 256 * q4 + q3 % 256;
    DivModUnique(v, q4, v % 256 + 0x100 * (q1 % 256) + 0x1_0000 * (q2 % 256) + 0x100_0000 * (q3 % 256), 0x1_0000_0000);
  }

  function StoredBig(v: nat): seq<Byte> {
    [v / 16777216 % 256, v / 65536 % 256, v / 256 % 256, v % 256]
  }

  /** stress_bitops_swap32 */
  function Swap32(v: nat): nat {
    v / 16777216 % 256 + v / 65536 % 256 * 256 + v / 256 % 256 * 65536 + v % 256 * 16777216
  }

  lemma FourBytes(a: nat, b: nat, c: nat, d: nat)
    requires a < 256 && b < 256 && c < 256 && d < 256
    ensures var x := a + b * 256 + c * 65536 + d * 16777216;
      && x / 16777216 % 256 == d && x / 65536 % 256 == c && x / 256 % 256 == b && x % 256 == a
  {
    var x := a + b * 256 + c * 65536 + d * 16777216;
    DivModUnique(x, b + c * 256 + d * 65536, a, 256);
    DivModUnique(b + c * 256 + d * 65536, c + d * 256, b, 256);
    DivModUnique(x, c + d * 256, a + b * 256, 65536);
    DivModUnique(c + d * 256, d, c, 256);
    DivModUnique(x, d, a + b * 256 + c * 65536, 16777216);
  }

  lemma SwappedBigIsLittle(v: nat)
    ensures StoredBig(Swap32(v)) == StoredLittle(v)
  {
    FourBytes(v / 16777216 % 256, v / 65536 % 256, v / 256 % 256, v % 256);
  }

  function Bytes(s: State, n: nat): seq<Byte> {
    if n == 0 then [] else Bytes(s, n - 1) + [Output(AfterBytes(s, n), Bits8)]
  }

  function AfterBytes(s: State, n: nat): State {
    if n == 0 then s else Next(AfterBytes(s, n - 1), Bits8)
  }

  function Words(s: State, n: nat): seq<Byte> {
    if n == 0 then [] else Words(s, n - 1) + StoredLittle(Output(AfterWords(s, n), Bits32))
  }

  function AfterWords(s: State, n: nat): State {
    if n == 0 then s else Next(AfterWords(s, n - 1), Bits32)
  }

  function Lead(address: nat, len: nat): (lead: nat)
    ensures lead <= len
  {
    var gap := (4 - address % 4) % 4;
    if len < gap then len else gap
  }

  /** Up to the lead, only its end is at a boundary or at the end. */
  lemma LeadOpen(address: nat, len: nat, ptr: nat)
    requires ptr <= Lead(address, len)
    ensures (address + ptr) % 4 != 0 && ptr < len <==> ptr < Lead(address, len)
  {
  }

  lemma BytesNext(s: State, n: nat)
    ensures Bytes(s, 0) == [] && AfterBytes(s, 0) == s
    ensures AfterBytes(s, n + 1) == Next(AfterBytes(s, n), Bits8)
    ensures Bytes(s, n + 1) == Bytes(s, n) + [Output(AfterBytes(s, n + 1), Bits8)]
  {
    hide Next, Output;
  }

  lemma WordsNext(s: State, n: nat)
    ensures Words(s, 0) == [] && AfterWords(s, 0) == s
    ensures AfterWords(s, n + 1) == Next(AfterWords(s, n), Bits32)
    ensures Words(s, n + 1) == Words(s, n) + StoredLittle(Output(AfterWords(s, n + 1), Bits32))
  {
    hide Next, Output, StoredLittle;
  }

  /** What a fill of len bytes at an address writes; no host byte order enters. */
  function Fill(s: State, address: nat, len: nat): seq<Byte> {
    var lead := Lead(address, len);
    var words := (len - lead) / 4;
    var s1 := AfterBytes(s, lead);
    Bytes(s, lead) + Words(s1, words) + Bytes(AfterWords(s1, words), (len - lead) % 4)
  }

  function AfterFill(s: State, address: nat, len: nat): State {
    var lead := Lead(address, len);
    AfterBytes(AfterWords(AfterBytes(s, lead), (len - lead) / 4), (len - lead) % 4)
  }

  /** Where the last word boundary falls, and how many whole words and odd bytes that leaves. */
  lemma Boundaries(address: nat, len: nat, lead: nat, to: int)
    requires lead == Lead(address, len) && to == (address + len) / 4 * 4 - address
    ensures lead <= len && to <= len
    ensures to < lead ==> (len - lead) / 4 == 0 && (len - lead) % 4 == len - lead
    ensures to >= lead ==> (to - lead) % 4 == 0 && (len - lead) / 4 == (to - lead) / 4
    ensures to >= lead ==> (len - lead) % 4 == len - lead - 4 * ((to - lead) / 4)
  {
    var q, e := (address + len) / 4, (address + len) % 4;
    if to >= lead {
      if lead < len {
        var g := (address + lead) / 4;
        assert address + lead == 4 * g;
        assert to - lead == 4 * (q - g);
        DivModUnique(to - lead, q - g, 0, 4);
        DivModUnique(len - lead, q - g, e, 4);
      }
    }
  }

  lemma FillParts(s: State, address: nat, len: nat)
    ensures var lead := Lead(address, len);
      var to := (address + len) / 4 * 4 - address;
      var words := if to < lead then 0 else (to - lead) / 4;
      var s1 := AfterBytes(s, lead);
      var tail := len - lead - 4 * words;
      && lead <= len && to <= len && (to < lead || (to - lead) % 4 == 0) && tail >= 0
      && Fill(s, address, len) == Bytes(s, lead) + Words(s1, words) + Bytes(AfterWords(s1, words), tail)
      && AfterFill(s, address, len) == AfterBytes(AfterWords(s1, words), tail)
  {
    hide Bytes, Words, AfterBytes, AfterWords, Lead;
    Boundaries(address, len, Lead(address, len), (address + len) / 4 * 4 - address);
  }

  class Generator {
    var w: nat
    var z: nat
    var n16: nat
    var saved16: nat
    var n8: nat
    var saved8: nat
    var n1: nat
    var saved1: nat

    ghost function State(): State
      reads this
    {
      Mwc.State(w, z, n16, saved16, n8, saved8, n1, saved1)
    }

    constructor ()
      ensures State() == Flushed(SEED_W, SEED_Z)
    {
      w, z, n16, saved16, n8, saved8, n1, saved1 := SEED_W, SEED_Z, 0, 0, 0, 0, 0, 0;
    }

    method Flush()
      modifies this
      ensures State() == Flushed(old(w), old(z))
    {
      n16, n8, n1, saved16, saved8, saved1 := 0, 0, 0, 0, 0, 0;
    }

    method SeedSet(w: nat, z: nat)
      modifies this
      ensures State() == Flushed(w, z)
    {
      this.w := w;
      this.z := z;
      Flush();
    }

    method Mwc32() returns (r: nat)
      modifies this
      ensures State() == Next(old(State()), Bits32) && r == Output(State(), Bits32)
      ensures r % 65536 == w % 65536 && r / 65536 == (z + w / 65536) % 65536
    {
      z := (MULTIPLIER_Z * (z % HALF) + z / HALF) % WORD32;
      w := (MULTIPLIER_W * (w % HALF) + w / HALF) % WORD32;
      r := (z * HALF + w) % WORD32;
      CombineHalves(w, z);
    }

    method Mwc16() returns (r: nat)
      modifies this
      ensures State() == Next(old(State()), Bits16) && r == Output(State(), Bits16)
    {
      if n16 > 0 {
        n16 := n16 - 1;
        saved16 := saved16 / HALF;
      } else {
        n16 := 1;
        saved16 := Mwc32();
      }
      r := saved16 % HALF;
    }

    method Mwc8() returns (r: nat)
      modifies this
      ensures State() == Next(old(State()), Bits8) && r == Output(State(), Bits8)
      ensures r < 256
    {
      if n8 > 0 {
        n8 := n8 - 1;
        saved8 := saved8 / 256;
      } else {
        n8 := 3;
        saved8 := Mwc32();
      }
      r := saved8 % 256;
    }

    method Mwc1() returns (r: nat)
      modifies this
      ensures State() == Next(old(State()), Bits1) && r == Output(State(), Bits1)
    {
      if n1 > 0 {
        n1 := n1 - 1;
        saved1 := saved1 / 2;
      } else {
        n1 := 31;
        saved1 := Mwc32();
      }
      r := saved1 % 2;
    }

    method Mwc8Modn(max: nat) returns (r: nat)
      requires max < 256
      modifies this
      ensures State() == Next(old(State()), Bits8) && r == Reduce(256, Output(State(), Bits8), max)
      ensures max > 0 ==> r < max
    {
      var x := Mwc8();
      r := (x * max) % 65536 / 256 % 256;
      ReduceInRange(256, x, max);
    }

    method Mwc16Modn(max: nat) returns (r: nat)
      requires max < HALF
      modifies this
      ensures State() == Next(old(State()), Bits16) && r == Reduce(HALF, Output(State(), Bits16), max)
      ensures max > 0 ==> r < max
    {
      var x := Mwc16();
      r := (x * max) % WORD32 / HALF % HALF;
      ReduceInRange(HALF, x, max);
    }

    method Mwc32Modn(max: nat) returns (r: nat)
      requires max < WORD32
      modifies this
      ensures State() == Next(old(State()), Bits32) && r == Reduce(WORD32, Output(State(), Bits32), max)
      ensures max > 0 ==> r < max
    {
      var x := Mwc32();
      r := (x * max) % WORD64 / WORD32 % WORD32;
      ReduceInRange(WORD32, x, max);
    }

    /** r = stress_mwc32() | mask, the n-th draw after state s. */
    method DrawSentinel(ghost s: State, ghost n: nat) returns (r: nat)
      requires State() == Drawn(s, n)
      modifies this
      ensures State() == Drawn(s, n + 1) && r == Shifted(Word(s.w, s.z, n), 0)
    {
      DrawNext(s, n);
      r := Mwc32();
      r := Sentinel(r);
    }

    /** The loop of stress_rndstr: `end` characters, one word more after every fifth. */
    method PutCharacters(str: array<char>, end: nat)
      requires end <= str.Length
      modifies this, str
      ensures State() == Drawn(old(State()), 1 + end / 5)
      ensures str[..end] == Characters(old(w), old(z), end)
      ensures forall i | end <= i < str.Length :: str[i] == old(str[i])
    {
      hide Shifted, Word, CharOf, Letter, Alphabet, Drawn, Next, Output;
      ghost var s0 := State();
      DrawNext(s0, 0);
      var ptr := 0;
      var r := DrawSentinel(s0, 0);
      ghost var q, j := 0, 0;
      while ptr < end
        invariant 0 <= ptr <= end && ptr == 5 * q + j && 0 <= j < 5 && q >= 0
        invariant State() == Drawn(s0, q + 1)
        invariant r == Shifted(Word(s0.w, s0.z, q), j)
        invariant str[..ptr] == Characters(s0.w, s0.z, ptr)
        invariant forall i | end <= i < str.Length :: str[i] == old(str[i])
      {
        CharacterDrawn(s0.w, s0.z, ptr, q, j);
        str[ptr] := Letter(r % 64);
        ptr := ptr + 1;
        r := r / 64;
        j := j + 1;
        if r == 3 {
          r := DrawSentinel(s0, q + 1);
          q, j := q + 1, 0;
        }
      }
    }

    /** Fills str[..len] with characters and a NUL; 1 + (len - 1) / 5 words are drawn, none for an empty buffer. */
    method RndStr(str: array<char>, len: nat)
      requires len <= str.Length
      modifies this, str
      ensures State() == Drawn(old(State()), if len == 0 then 0 else 1 + (len - 1) / 5)
      ensures str[..] == if len == 0 then old(str[..])
                         else Characters(old(w), old(z), len - 1) + ['\0'] + old(str[len..])
    {
      hide Characters, Drawn;
      if len == 0 {
        DrawNext(State(), 0);
        return;
      }
      PutCharacters(str, len - 1);
      str[len - 1] := '\0';
      assert str[..] == str[..len - 1] + [str[len - 1]] + str[len..];
    }

    /** First loop: bytes up to a word boundary or the end. */
    method FillLead(data: array<Byte>, address: nat, len: nat) returns (ptr8: nat)
      requires len <= data.Length
      modifies this, data
      ensures ptr8 == Lead(address, len)
      ensures State() == AfterBytes(old(State()), ptr8)
      ensures data[..] == Bytes(old(State()), ptr8) + old(data[ptr8..])
    {
      hide Next, Output, Lead, Bytes, AfterBytes;
      ptr8 := 0;
      BytesNext(State(), 0);
      while (address + ptr8) % 4 != 0 && ptr8 < len
        invariant 0 <= ptr8 <= Lead(address, len)
        invariant State() == AfterBytes(old(State()), ptr8)
        invariant data[..ptr8] == Bytes(old(State()), ptr8)
        invariant forall i | ptr8 <= i < data.Length :: data[i] == old(data[i])
        decreases len - ptr8
      {
        LeadOpen(address, len, ptr8);
        BytesNext(old(State()), ptr8);
        var b := Mwc8();
        data[ptr8] := b;
        ptr8 := ptr8 + 1;
      }
      LeadOpen(address, len, ptr8);
      assert data[..] == data[..ptr8] + data[ptr8..];
    }

    /** Second loop: whole words up to the last boundary, byte-swapped first on a big-endian host. */
    method FillWords(data: array<Byte>, from: nat, to: int, littleEndian: bool) returns (ptr: nat)
      requires from <= data.Length && to <= data.Length && (to < from || (to - from) % 4 == 0)
      modifies this, data
      ensures var words := if to < from then 0 else (to - from) / 4;
        && ptr == from + 4 * words
        && State() == AfterWords(old(State()), words)
        && data[..] == old(data[..from]) + Words(old(State()), words) + old(data[ptr..])
    {
      hide Next, Output, StoredLittle, StoredBig, Swap32, Words, AfterWords;
      ptr := from;
      WordsNext(State(), 0);
      ghost var words := 0;
      while ptr < to
        invariant ptr == from + 4 * words && (ptr <= to || words == 0) && ptr <= data.Length
        invariant State() == AfterWords(old(State()), words)
        invariant data[..from] == old(data[..from])
        invariant data[from..ptr] == Words(old(State()), words)
        invariant data[ptr..] == old(data[ptr..])
      {
        WordsNext(old(State()), words);
        var r := Mwc32();
        SwappedBigIsLittle(r);
        ghost var before, done, rest := data[..ptr], data[from..ptr], data[ptr + 4..];
        assert done == before[from..];
        StoreWord(data, ptr, if littleEndian then r else Swap32(r), littleEndian);
        assert data[ptr + 4..] == rest && data[..ptr] == before;
        assert data[..from] == before[..from] && data[from..ptr] == before[from..];
        assert data[from..ptr + 4] == data[from..ptr] + data[ptr..ptr + 4];
        ptr := ptr + 4;
        words := words + 1;
      }
      assert data[..] == data[..from] + data[from..ptr] + data[ptr..];
    }

    /** Third loop: the bytes after the last boundary. */
    method FillTail(data: array<Byte>, from: nat, len: nat)
      requires from <= len <= data.Length
      modifies this, data
      ensures State() == AfterBytes(old(State()), len - from)
      ensures data[..] == old(data[..from]) + Bytes(old(State()), len - from) + old(data[len..])
    {
      hide Next, Output, Bytes, AfterBytes;
      var ptr8 := from;
      BytesNext(State(), 0);
      while ptr8 < len
        invariant from <= ptr8 <= len
        invariant State() == AfterBytes(old(State()), ptr8 - from)
        invariant data[..from] == old(data[..from])
        invariant data[from..ptr8] == Bytes(old(State()), ptr8 - from)
        invariant data[ptr8..] == old(data[ptr8..])
      {
        BytesNext(old(State()), ptr8 - from);
        var b := Mwc8();
        data[ptr8] := b;
        ptr8 := ptr8 + 1;
      }
      assert data[..] == data[..from] + data[from..len] + data[len..];
    }

    /** Fills data[..len], which starts at the given address, on a host of either byte order. */
    method Uint8Rnd4(data: array<Byte>, address: nat, len: nat, littleEndian: bool)
      requires len <= data.Length
      modifies this, data
      ensures data[..] == Fill(old(State()), address, len) + old(data[len..])
      ensures State() == AfterFill(old(State()), address, len)
    {
      hide Next, Output, Fill, AfterFill, Lead, Bytes, Words, AfterBytes, AfterWords;
      FillParts(State(), address, len);
      var ptr8 := FillLead(data, address, len);
      ptr8 := FillWords(data, ptr8, (address + len) / 4 * 4 - address, littleEndian);
      FillTail(data, ptr8, len);
    }

    /** A 32-bit store by a host of the given byte order. */
    static method StoreWord(data: array<Byte>, at: nat, v: nat, littleEndian: bool)
      requires at + 4 <= data.Length
      modifies data
      ensures data[at..at + 4] == if littleEndian then StoredLittle(v) else StoredBig(v)
      ensures data[..at] == old(data[..at]) && data[at + 4..] == old(data[at + 4..])
    {
      var bytes := if littleEndian then StoredLittle(v) else StoredBig(v);
      data[at], data[at + 1], data[at + 2], data[at + 3] := bytes[0], bytes[1], bytes[2], bytes[3];
    }
  }
}
