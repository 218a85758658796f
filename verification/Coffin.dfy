/**
  stress_hash_coffin and its two word-at-a-time forms, which load the next four
  bytes before the current four are finished and so read past the end of the string.
 */
module Coffin {
  import opened CStrings

  const SEED: bv32 := 0x55555555

  /** One byte: exclusive or, then rotate left by five. */
  function Mix(result: bv32, byte: bv32): bv32 {
    ((result ^ byte) << 5) | ((result ^ byte) >> 27)
  }

  function Hash(text: seq<Byte>): bv32 {
    if text == [] then SEED
    else Mix(Hash(text[..|text| - 1]), text[|text| - 1] as bv32)
  }

  // ---------- what one byte does ----------

  function Bit(x: bv32, i: bv32): bv32
    requires i < 32
  {
    (x >> i) & 1
  }

  lemma MixBit(result: bv32, byte: bv32, i: bv32, j: bv32)
    requires i < 32 && j == (i + 5) & 31
    ensures j < 32 && Bit(Mix(result, byte), j) == Bit(result, i) ^ Bit(byte, i)
  {
  }

  /** Bit by bit: one more byte is combined with the hash by exclusive or, and every bit moves up five places, round the end. */
  lemma HashBit(text: seq<Byte>, byte: Byte, i: bv32, j: bv32)
    requires i < 32 && j == (i + 5) & 31
    ensures Hash([]) == 0x55555555
    ensures j < 32 && Bit(Hash(text + [byte]), j) == Bit(Hash(text), i) ^ Bit(byte as bv32, i)
  {
    hide *;
    HashOfNone();
    HashOneMore(text, byte);
    MixBit(Hash(text), byte as bv32, i, j);
  }

  lemma HashOfNone()
    ensures Hash([]) == 0x55555555
  {
  }

  lemma HashOneMore(text: seq<Byte>, byte: Byte)
    ensures Hash(text + [byte]) == Mix(Hash(text), byte as bv32)
  {
    hide Mix;
    assert (text + [byte])[..|text|] == text;
  }

  lemma MixResultInjective(r: bv32, q: bv32, byte: bv32)
    requires Mix(r, byte) == Mix(q, byte)
    ensures r == q
  {
  }

  lemma MixByteInjective(r: bv32, x: Byte, y: Byte)
    requires Mix(r, x as bv32) == Mix(r, y as bv32)
    ensures x == y
  {
  }

  /** Strings that differ in exactly one byte never share a hash. */
  lemma {:induction false} OneByteMatters(before: seq<Byte>, x: Byte, y: Byte, after: seq<Byte>)
    requires x != y
    ensures Hash(before + [x] + after) != Hash(before + [y] + after)
    decreases |after|
  {
    hide Mix;
    var s, t := before + [x] + after, before + [y] + after;
    if after == [] {
      assert s[..|before|] == before && t[..|before|] == before;
      if Hash(s) == Hash(t) { MixByteInjective(Hash(before), x, y); }
    } else {
      var n := |after| - 1;
      assert s[..|s| - 1] == before + [x] + after[..n] && t[..|t| - 1] == before + [y] + after[..n];
      OneByteMatters(before, x, y, after[..n]);
      if Hash(s) == Hash(t) { MixResultInjective(Hash(s[..|s| - 1]), Hash(t[..|t| - 1]), after[n] as bv32); }
    }
  }

  lemma HashNext(memory: seq<Byte>, n: nat)
    requires n < |memory|
    ensures Hash(memory[..n + 1]) == Mix(Hash(memory[..n]), memory[n] as bv32)
  {
    hide Mix;
    assert memory[..n + 1][..n] == memory[..n];
  }

  // ---------- byte at a time ----------

  method HashCoffin(str: seq<Byte>) returns (result: bv32)
    requires Terminated(str)
    ensures result == Hash(Text(str))
  {
    hide Mix;
    result := SEED;
    var ptr := 0;
    while str[ptr] != 0
      invariant 0 <= ptr <= Length(str)
      invariant result == Hash(str[..ptr])
      decreases |str| - ptr
    {
      HashNext(str, ptr);
      result := Mix(result, str[ptr] as bv32);
      ptr := ptr + 1;
    }
    LengthIsUnique(str, ptr);
  }

  // ---------- word at a time ----------

  /** A four-byte load on a little-endian host, lowest address in the low byte. */
  function LoadLittle(b0: Byte, b1: Byte, b2: Byte, b3: Byte): bv32 {
    b0 as bv32 | (b1 as bv32 << 8) | (b2 as bv32 << 16) | (b3 as bv32 << 24)
  }

  /** The same load on a big-endian host. */
  function LoadBig(b0: Byte, b1: Byte, b2: Byte, b3: Byte): bv32 {
    b3 as bv32 | (b2 as bv32 << 8) | (b1 as bv32 << 16) | (b0 as bv32 << 24)
  }

  lemma Byte0(b0: Byte, b1: Byte, b2: Byte, b3: Byte)
    ensures LoadLittle(b0, b1, b2, b3) & 0xff == b0 as bv32
  {
  }

  lemma Byte1(b0: Byte, b1: Byte, b2: Byte, b3: Byte)
    ensures (LoadLittle(b0, b1, b2, b3) >> 8) & 0xff == b1 as bv32
  {
  }

  lemma Byte2(b0: Byte, b1: Byte, b2: Byte, b3: Byte)
    ensures (LoadLittle(b0, b1, b2, b3) >> 16) & 0xff == b2 as bv32
  {
  }

  lemma Byte3(b0: Byte, b1: Byte, b2: Byte, b3: Byte)
    ensures (LoadLittle(b0, b1, b2, b3) >> 24) & 0xff == b3 as bv32
  {
  }

  lemma BigIsReversedLittle(b0: Byte, b1: Byte, b2: Byte, b3: Byte)
    ensures LoadBig(b0, b1, b2, b3) == LoadLittle(b3, b2, b1, b0)
  {
  }

  /** Mixing the four bytes of a loaded word advances the hash by four bytes. */
  lemma HashNextFour(memory: seq<Byte>, n: nat, t0: bv32, t1: bv32, t2: bv32, t3: bv32)
    requires n + 4 <= |memory|
    requires t0 == memory[n] as bv32 && t1 == memory[n + 1] as bv32
    requires t2 == memory[n + 2] as bv32 && t3 == memory[n + 3] as bv32
    ensures Hash(memory[..n + 4]) == Mix(Mix(Mix(Mix(Hash(memory[..n]), t0), t1), t2), t3)
  {
    hide *;
    HashNext(memory, n);
    HashNext(memory, n + 1);
    HashNext(memory, n + 2);
    HashNext(memory, n + 3);
  }

  function LittleAt(memory: seq<Byte>, at: nat): bv32
    requires at + 4 <= |memory|
  {
    LoadLittle(memory[at], memory[at + 1], memory[at + 2], memory[at + 3])
  }

  function BigAt(memory: seq<Byte>, at: nat): bv32
    requires at + 4 <= |memory|
  {
    LoadBig(memory[at], memory[at + 1], memory[at + 2], memory[at + 3])
  }

  lemma LittleBytes(memory: seq<Byte>, at: nat)
    requires at + 4 <= |memory|
    ensures LittleAt(memory, at) & 0xff == memory[at] as bv32
    ensures (LittleAt(memory, at) >> 8) & 0xff == memory[at + 1] as bv32
    ensures (LittleAt(memory, at) >> 16) & 0xff == memory[at + 2] as bv32
    ensures (LittleAt(memory, at) >> 24) & 0xff == memory[at + 3] as bv32
  {
    hide LoadLittle;
    Byte0(memory[at], memory[at + 1], memory[at + 2], memory[at + 3]);
    Byte1(memory[at], memory[at + 1], memory[at + 2], memory[at + 3]);
    Byte2(memory[at], memory[at + 1], memory[at + 2], memory[at + 3]);
    Byte3(memory[at], memory[at + 1], memory[at + 2], memory[at + 3]);
  }

  lemma BigBytes(memory: seq<Byte>, at: nat)
    requires at + 4 <= |memory|
    ensures (BigAt(memory, at) >> 24) & 0xff == memory[at] as bv32
    ensures (BigAt(memory, at) >> 16) & 0xff == memory[at + 1] as bv32
    ensures (BigAt(memory, at) >> 8) & 0xff == memory[at + 2] as bv32
    ensures BigAt(memory, at) & 0xff == memory[at + 3] as bv32
  {
    hide LoadLittle, LoadBig;
    BigIsReversedLittle(memory[at], memory[at + 1], memory[at + 2], memory[at + 3]);
    Byte0(memory[at + 3], memory[at + 2], memory[at + 1], memory[at]);
    Byte1(memory[at + 3], memory[at + 2], memory[at + 1], memory[at]);
    Byte2(memory[at + 3], memory[at + 2], memory[at + 1], memory[at]);
    Byte3(memory[at + 3], memory[at + 2], memory[at + 1], memory[at]);
  }

  /** How far the word loads reach: the end of the last word that holds a byte of the string. */
  function Touched(len: nat): (bytes: nat)
    ensures len <= bytes && (len > 0 ==> bytes < len + 4)
  {
    if len == 0 then 4 else 4 * ((len - 1) / 4) + 4
  }

  /** The last, byte-at-a-time loop of both forms. */
  method MixTail(memory: seq<Byte>, len: nat, start: nat, init: bv32) returns (result: bv32)
    requires start <= len <= |memory| && init == Hash(memory[..start])
    ensures result == Hash(memory[..len])
  {
    hide Mix;
    result := init;
    var str, n := start, len - start;
    while n > 0
      invariant 0 <= n && str + n == len
      invariant result == Hash(memory[..str])
    {
      n := n - 1;
      HashNext(memory, str);
      result := Mix(result, memory[str] as bv32);
      str := str + 1;
    }
  }

  /** Little-endian form: equal to the byte-at-a-time hash of the first len bytes, whatever follows them. */
  method HashCoffin32Le(memory: seq<Byte>, len: nat) returns (result: bv32)
    requires Touched(len) <= |memory|
    ensures result == Hash(memory[..len])
  {
    hide Mix, LittleAt;
    result := SEED;
    var str, n := 0, len;
    var val := LittleAt(memory, str);
    while n > 4
      invariant 0 <= n && str + n == len && str % 4 == 0
      invariant str == 0 || n > 0
      invariant result == Hash(memory[..str])
      invariant val == LittleAt(memory, str)
    {
      LittleBytes(memory, str);
      ghost var t0, t1 := val & 0xff, (val >> 8) & 0xff;
      ghost var t2, t3 := (val >> 16) & 0xff, (val >> 24) & 0xff;
      HashNextFour(memory, str, t0, t1, t2, t3);
      str := str + 4;
      var tmp := val & 0xff;
      n := n - 4;
      result := Mix(result, tmp);
      tmp := (val >> 8) & 0xff;
      result := Mix(result, tmp);
      tmp := (val >> 16) & 0xff;
      result := Mix(result, tmp);
      tmp := (val >> 24) & 0xff;
      val := LittleAt(memory, str);
      result := Mix(result, tmp);
    }
    result := MixTail(memory, len, str, result);
  }

  /** Big-endian form. */
  method HashCoffin32Be(memory: seq<Byte>, len: nat) returns (result: bv32)
    requires Touched(len) <= |memory|
    ensures result == Hash(memory[..len])
  {
    hide Mix, BigAt;
    result := SEED;
    var str, n := 0, len;
    var val := BigAt(memory, str);
    while n > 4
      invariant 0 <= n && str + n == len && str % 4 == 0
      invariant str == 0 || n > 0
      invariant result == Hash(memory[..str])
      invariant val == BigAt(memory, str)
    {
      BigBytes(memory, str);
      ghost var t0, t1 := (val >> 24) & 0xff, (val >> 16) & 0xff;
      ghost var t2, t3 := (val >> 8) & 0xff, val & 0xff;
      HashNextFour(memory, str, t0, t1, t2, t3);
      str := str + 4;
      var tmp := (val >> 24) & 0xff;
      n := n - 4;
      result := Mix(result, tmp);
      tmp := (val >> 16) & 0xff;
      result := Mix(result, tmp);
      tmp := (val >> 8) & 0xff;
      result := Mix(result, tmp);
      tmp := val & 0xff;
      val := BigAt(memory, str);
      result := Mix(result, tmp);
    }
    result := MixTail(memory, len, str, result);
  }
}
