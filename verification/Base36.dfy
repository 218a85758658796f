/** stress_fs_base36_encode_uint64: file names from 64-bit hashes, low digit first. */
module Base36 {
  import opened Arithmetic

  const DIGITS: string := "abcdefghijklmnopqrstuvwxyz0123456789"

  function Digit(d: nat): char
    requires d < 36
  {
    DIGITS[d]
  }

  /** The value of a digit, by searching the alphabet. */
  function DigitValue(c: char): nat {
    if 'a' <= c <= 'z' then (c - 'a') as nat else if '0' <= c <= '9' then 26 + (c - '0') as nat else 36
  }

  lemma DigitRoundTrip(d: nat)
    requires d < 36
    ensures DigitValue(Digit(d)) == d
  {
  }

  /** The letters, then the digits: lower-case file names. */
  lemma DigitIs(d: nat)
    requires d < 36
    ensures Digit(d) == if d < 26 then 'a' + d as char else '0' + (d - 26) as char
  {
  }

  function Encode(v: nat): string {
    if v == 0 then "" else [Digit(v % 36)] + Encode(v / 36)
  }

  function Decode(s: string): nat {
    if s == "" then 0 else DigitValue(s[0]) + 36 * Decode(s[1..])
  }

  lemma {:induction false} DecodeEncode(v: nat)
    ensures Decode(Encode(v)) == v
  {
    if v > 0 {
      DigitRoundTrip(v % 36);
      DecodeEncode(v / 36);
    }
  }

  lemma EncodeInjective(v: nat, w: nat)
    requires v != w
    ensures Encode(v) != Encode(w)
  {
    DecodeEncode(v);
    DecodeEncode(w);
  }

  function Pow36(n: nat): (p: nat)
    ensures p > 0
  {
    if n == 0 then 1 else 36 * Pow36(n - 1)
  }

  /** Character i is the digit of weight 36^i. */
  lemma {:induction false} EncodeAt(v: nat, i: nat)
    requires i < |Encode(v)|
    ensures Encode(v)[i] == Digit(v / Pow36(i) % 36)
    decreases i
  {
    hide Digit;
    if i > 0 {
      EncodeAt(v / 36, i - 1);
      DivDiv(v, 36, Pow36(i - 1));
    }
  }

  lemma {:induction false} EncodeLength(v: nat, n: nat)
    ensures |Encode(v)| <= n <==> v < Pow36(n)
    decreases n
  {
    if v > 0 && n > 0 {
      EncodeLength(v / 36, n - 1);
    }
  }

  /** A 64-bit value takes at most 13 digits; only 0 takes none. */
  lemma FitsThirteen(v: nat)
    requires v < WORD64
    ensures |Encode(v)| <= 13
    ensures Encode(v) == "" <==> v == 0
  {
    assert Pow36(4) == 1679616;
    assert Pow36(8) == 2821109907456;
    assert Pow36(12) == 4738381338321616896;
    assert Pow36(13) == 170581728179578208256;
    EncodeLength(v, 13);
  }

  lemma {:induction false} NoNul(v: nat)
    ensures forall i | 0 <= i < |Encode(v)| :: Encode(v)[i] != '\0'
  {
    if v > 0 {
      NoNul(v / 36);
    }
  }

  /** The string an array of chars holds: up to the first NUL. */
  function CString(a: seq<char>): string {
    if a == [] || a[0] == '\0' then "" else [a[0]] + CString(a[1..])
  }

  lemma {:induction false} CStringOf(s: string, rest: seq<char>)
    requires rest != [] && rest[0] == '\0' && forall i | 0 <= i < |s| :: s[i] != '\0'
    ensures CString(s + rest) == s
    decreases |s|
  {
    if s == "" {
      assert s + rest == rest;
    } else {
      assert (s + rest)[1..] == s[1..] + rest;
      CStringOf(s[1..], rest);
    }
  }

  /** Fourteen bytes are room enough for the digits and the NUL. */
  method EncodeUint64(dst: array<char>, val: nat)
    requires dst.Length == 14 && val < WORD64
    modifies dst
    ensures CString(dst[..]) == Encode(val)
  {
    hide Encode, CString, Digit;
    FitsThirteen(val);
    var ptr: nat, v: nat := 0, val;
    while v > 0
      invariant ptr + |Encode(v)| == |Encode(val)|
      invariant dst[..ptr] + Encode(v) == Encode(val)
      decreases v
    {
      EncodeStep(v);
      ghost var done := dst[..ptr];
      dst[ptr] := Digit(v % 36);
      ptr := ptr + 1;
      assert dst[..ptr] == done + [Digit(v % 36)];
      assert done + ([Digit(v % 36)] + Encode(v / 36)) == done + [Digit(v % 36)] + Encode(v / 36);
      v := v / 36;
    }
    EncodeStep(0);
    dst[ptr] := '\0';
    assert dst[..] == Encode(val) + dst[ptr..];
    NoNul(val);
    CStringOf(Encode(val), dst[ptr..]);
  }

  lemma EncodeStep(v: nat)
    ensures Encode(0) == ""
    ensures v > 0 ==> Encode(v) == [Digit(v % 36)] + Encode(v / 36)
  {
  }
}
