/**
  The chained string table of core-hash.c: heap-allocated entries linked into
  buckets chosen by the sdbm hash.
 */
module HashTable {
  import Arithmetic
  import opened CStrings

  type String = seq<Byte>

  // ---------- stress_hash_sdbm ----------

  /** The value of a char once widened; plain char may be signed. */
  function Widened(c: Byte, signedChar: bool): int {
    if signedChar && c >= 128 then c as int - 256 else c as int
  }

  /** The same eight bits, read as the host's char. */
  lemma WidenedIs(c: Byte)
    ensures Widened(c, false) == c as int
    ensures -128 <= Widened(c, true) < 128 && (Widened(c, true) - c as int) % 256 == 0
  {
  }

  function SdbmStep(hash: int, c: Byte, signedChar: bool): int {
    (Widened(c, signedChar) + hash * 64 + hash * 65536 - hash) % Arithmetic.WORD32
  }

  function Sdbm(text: String, signedChar: bool): (h: int)
    ensures 0 <= h < Arithmetic.WORD32
  {
    if text == [] then 0 else SdbmStep(Sdbm(text[..|text| - 1], signedChar), text[|text| - 1], signedChar)
  }

  function Power(b: int, n: nat): int {
    if n == 0 then 1 else b * Power(b, n - 1)
  }

  /** The sum of the chars, each weighted by 65599 to the number of chars after it. */
  function Polynomial(text: String, signedChar: bool): int {
    if text == [] then 0
    else Widened(text[0], signedChar) * Power(65599, |text| - 1) + Polynomial(text[1..], signedChar)
  }

  lemma {:induction false} PolynomialSnoc(text: String, c: Byte, signedChar: bool)
    ensures Polynomial(text + [c], signedChar) == 65599 * Polynomial(text, signedChar) + Widened(c, signedChar)
    decreases |text|
  {
    hide Widened;
    if text == [] {
      assert ([] + [c])[1..] == [];
      assert Power(65599, 0) == 1;
    } else {
      assert (text + [c])[1..] == text[1..] + [c];
      PolynomialSnoc(text[1..], c, signedChar);
      var x, p := Widened(text[0], signedChar), Power(65599, |text| - 1);
      assert Power(65599, |text|) == 65599 * p;
      assert x * (65599 * p) == 65599 * (x * p);
    }
  }

  /** The hash is that polynomial in 65599, modulo 2^32. */
  lemma {:induction false} SdbmIsPolynomial(text: String, signedChar: bool)
    ensures Sdbm(text, signedChar) == Polynomial(text, signedChar) % 0x1_0000_0000
    decreases |text|
  {
    if text != [] {
      var n := |text| - 1;
      var p, c := Polynomial(text[..n], signedChar), Widened(text[n], signedChar);
      SdbmIsPolynomial(text[..n], signedChar);
      PolynomialSnoc(text[..n], text[n], signedChar);
      assert text[..n] + [text[n]] == text;
      hide Polynomial, Widened, Sdbm;
      SdbmStepIs(text[..n], text[n], signedChar);
      ScaledMod(p, c);
    }
  }

  lemma SdbmStepIs(text: String, c: Byte, signedChar: bool)
    ensures Sdbm(text + [c], signedChar) == (Widened(c, signedChar) + 65599 * Sdbm(text, signedChar)) % 0x1_0000_0000
  {
    assert (text + [c])[..|text|] == text;
  }

  lemma ScaledMod(p: int, c: int)
    ensures (c + 65599 * (p % 0x1_0000_0000)) % 0x1_0000_0000 == (65599 * p + c) % 0x1_0000_0000
  {
    var q := p / 0x1_0000_0000;
    assert p == 0x1_0000_0000 * q + p % 0x1_0000_0000;
    Arithmetic.ModShift(c + 65599 * (p % 0x1_0000_0000), 65599 * q, 0x1_0000_0000);
  }

  method HashSdbm(str: String, signedChar: bool) returns (hash: int)
    requires Terminated(str)
    ensures hash == Sdbm(Text(str), signedChar)
  {
    hash := 0;
    var ptr := 0;
    while str[ptr] != 0
      invariant 0 <= ptr <= Length(str)
      invariant hash == Sdbm(str[..ptr], signedChar)
      decreases |str| - ptr
    {
      assert str[..ptr + 1][..ptr] == str[..ptr];
      hash := SdbmStep(hash, str[ptr], signedChar);
      ptr := ptr + 1;
    }
    LengthIsUnique(str, ptr);
  }

  // ---------- the table as buckets of strings ----------

  type Buckets = seq<seq<String>>

  function BucketOf(text: String, n: nat, signedChar: bool): (b: nat)
    requires n > 0
    ensures b < n
  {
    Sdbm(text, signedChar) % n
  }

  /** Each string is stored once, in its own bucket. */
  ghost predicate WellFormed(b: Buckets, signedChar: bool) {
    && |b| > 0
    && (forall h, i | 0 <= h < |b| && 0 <= i < |b[h]| :: BucketOf(b[h][i], |b|, signedChar) == h)
    && (forall h, i, j | 0 <= h < |b| && 0 <= i < j < |b[h]| :: b[h][i] != b[h][j])
  }

  predicate Has(b: Buckets, text: String, signedChar: bool)
    requires |b| > 0
  {
    text in b[BucketOf(text, |b|, signedChar)]
  }

  function Insert(b: Buckets, text: String, allocates: bool, signedChar: bool): Buckets
    requires |b| > 0
  {
    var h := BucketOf(text, |b|, signedChar);
    if text in b[h] || !allocates then b else b[h := [text] + b[h]]
  }

  lemma InsertIs(b: Buckets, text: String, allocates: bool, signedChar: bool)
    requires WellFormed(b, signedChar)
    ensures var c := Insert(b, text, allocates, signedChar);
      && |c| == |b| && WellFormed(c, signedChar)
      && forall s :: Has(c, s, signedChar) <==> Has(b, s, signedChar) || (s == text && allocates)
  {
  }

  datatype Request = Request(text: String, allocates: bool)

  function Run(n: nat, adds: seq<Request>, signedChar: bool): (b: Buckets)
    requires n > 0
    ensures |b| == n
  {
    if adds == [] then seq(n, _ => [])
    else
      var last := adds[|adds| - 1];
      Insert(Run(n, adds[..|adds| - 1], signedChar), last.text, last.allocates, signedChar)
  }

  /** Over every run of adds the table is the set of strings that some add could allocate, each once and in its bucket. */
  lemma {:induction false} TableIsSet(n: nat, adds: seq<Request>, signedChar: bool)
    requires n > 0
    ensures WellFormed(Run(n, adds, signedChar), signedChar)
    ensures forall s :: Has(Run(n, adds, signedChar), s, signedChar) <==> Request(s, true) in adds
    decreases |adds|
  {
    if adds != [] {
      var before, last := adds[..|adds| - 1], adds[|adds| - 1];
      TableIsSet(n, before, signedChar);
      InsertIs(Run(n, before, signedChar), last.text, last.allocates, signedChar);
      assert adds == before + [last];
    }
  }

  /** One call of stress_hash_add: its argument, and whether malloc would succeed. */
  datatype Addition = Addition(str: String, allocates: bool)

  function Requests(adds: seq<Addition>): seq<Request>
    requires forall i | 0 <= i < |adds| :: Terminated(adds[i].str)
  {
    seq(|adds|, i requires 0 <= i < |adds| => Request(Text(adds[i].str), adds[i].allocates))
  }

  lemma RequestsNone()
    ensures Requests([]) == []
  {
  }

  lemma RequestsNext(adds: seq<Addition>, k: nat, n: nat, signedChar: bool)
    requires forall i | 0 <= i < |adds| :: Terminated(adds[i].str)
    requires k < |adds| && n > 0
    ensures Run(n, Requests(adds[..k + 1]), signedChar)
         == Insert(Run(n, Requests(adds[..k]), signedChar), Text(adds[k].str), adds[k].allocates, signedChar)
  {
    hide Text, Insert;
    var before, more := Requests(adds[..k]), Requests(adds[..k + 1]);
    assert more[..|more| - 1] == before;
  }

  /** Wherever a string is stored, the bucket is its polynomial modulo 2^32, modulo the number of buckets. */
  lemma StoredInItsBucket(n: nat, adds: seq<Request>, signedChar: bool, h: nat, i: nat)
    requires n > 0 && h < n && i < |Run(n, adds, signedChar)[h]|
    ensures Polynomial(Run(n, adds, signedChar)[h][i], signedChar) % 0x1_0000_0000 % n == h
  {
    TableIsSet(n, adds, signedChar);
    var b := Run(n, adds, signedChar);
    assert BucketOf(b[h][i], |b|, signedChar) == h;
    hide WellFormed, Run;
    SdbmIsPolynomial(b[h][i], signedChar);
  }

  // ---------- the heap ----------

  class Entry {
    const text: String
    var next: Entry?

    constructor (text: String, next: Entry?)
      ensures this.text == text && this.next == next
    {
      this.text, this.next := text, next;
    }
  }

  function First(chain: seq<Entry>, i: nat): Entry? {
    if i < |chain| then chain[i] else null
  }

  ghost function ChainTexts(chain: seq<Entry>): seq<String> {
    seq(|chain|, i requires 0 <= i < |chain| => chain[i].text)
  }

  ghost function AllTexts(chains: seq<seq<Entry>>): Buckets {
    seq(|chains|, h requires 0 <= h < |chains| => ChainTexts(chains[h]))
  }

  /** strcmp(str, HASH_STR(e)) == 0 */
  predicate Matches(e: Entry, str: String) {
    e.text == str
  }

  lemma MatchInTexts(chain: seq<Entry>, str: String)
    ensures str in ChainTexts(chain) <==> exists i :: 0 <= i < |chain| && Matches(chain[i], str)
  {
    if i :| 0 <= i < |chain| && Matches(chain[i], str) {
      assert ChainTexts(chain)[i] == str;
    }
  }

  lemma TextsWithFirst(chains: seq<seq<Entry>>, h: nat, e: Entry)
    requires h < |chains|
    ensures AllTexts(chains[h := [e] + chains[h]]) == AllTexts(chains)[h := [e.text] + ChainTexts(chains[h])]
  {
    assert ChainTexts([e] + chains[h]) == [e.text] + ChainTexts(chains[h]);
  }

  ghost function Concat(chains: seq<seq<Entry>>): seq<Entry> {
    if chains == [] then [] else Concat(chains[..|chains| - 1]) + chains[|chains| - 1]
  }

  lemma ConcatNone(chains: seq<seq<Entry>>)
    ensures Concat(chains[..0]) == []
  {
  }

  lemma ConcatNext(chains: seq<seq<Entry>>, i: nat)
    requires i < |chains|
    ensures Concat(chains[..i + 1]) == Concat(chains[..i]) + chains[i]
  {
    assert chains[..i + 1][..i] == chains[..i];
  }

  ghost predicate Distinct(s: seq<Entry>) {
    forall i, j | 0 <= i < j < |s| :: s[i] != s[j]
  }

  lemma NotYet(before: seq<Entry>, chain: seq<Entry>, k: nat)
    requires Distinct(before + chain) && k < |chain|
    ensures chain[k] !in before + chain[..k]
  {
    var all := before + chain;
    assert forall i | 0 <= i < |before| + k :: (before + chain[..k])[i] == all[i];
    assert chain[k] == all[|before| + k];
  }

  ghost predicate BucketsIn(s: seq<Entry>, lo: nat, hi: nat, n: nat, signedChar: bool)
    requires n > 0
  {
    forall i | 0 <= i < |s| :: lo <= BucketOf(s[i].text, n, signedChar) < hi
  }

  lemma ChainFacts(chains: seq<seq<Entry>>, h: nat, signedChar: bool)
    requires WellFormed(AllTexts(chains), signedChar) && h < |chains|
    ensures Distinct(chains[h]) && BucketsIn(chains[h], h, h + 1, |chains|, signedChar)
  {
    hide BucketOf;
    var b, chain := AllTexts(chains), chains[h];
    assert b[h] == ChainTexts(chain);
    forall i, j | 0 <= i < j < |chain| ensures chain[i] != chain[j] {
      assert b[h][i] != b[h][j];
    }
    forall i | 0 <= i < |chain| ensures BucketOf(chain[i].text, |chains|, signedChar) == h {
      assert BucketOf(b[h][i], |b|, signedChar) == h;
    }
  }

  lemma Joined(s: seq<Entry>, t: seq<Entry>, h: nat, n: nat, signedChar: bool)
    requires n > 0 && Distinct(s) && Distinct(t)
    requires BucketsIn(s, 0, h, n, signedChar) && BucketsIn(t, h, h + 1, n, signedChar)
    ensures Distinct(s + t) && BucketsIn(s + t, 0, h + 1, n, signedChar)
  {
    hide BucketOf;
  }

  lemma {:induction false} ConcatDistinct(chains: seq<seq<Entry>>, k: nat, signedChar: bool)
    requires WellFormed(AllTexts(chains), signedChar) && k <= |chains|
    ensures Distinct(Concat(chains[..k]))
    ensures BucketsIn(Concat(chains[..k]), 0, k, |chains|, signedChar)
    decreases k
  {
    if k > 0 {
      ConcatDistinct(chains, k - 1, signedChar);
      assert chains[..k][..k - 1] == chains[..k - 1];
      ChainFacts(chains, k - 1, signedChar);
      Joined(Concat(chains[..k - 1]), chains[k - 1], k - 1, |chains|, signedChar);
    }
  }

  ghost predicate Listed(chains: seq<seq<Entry>>, e: Entry) {
    exists h, i :: 0 <= h < |chains| && 0 <= i < |chains[h]| && chains[h][i] == e
  }

  lemma ListedMore(chains: seq<seq<Entry>>, h: nat, r: Entry, e: Entry)
    requires h < |chains|
    ensures Listed(chains[h := [r] + chains[h]], e) <==> Listed(chains, e) || e == r
  {
    var more := chains[h := [r] + chains[h]];
    if g, i :| 0 <= g < |chains| && 0 <= i < |chains[g]| && chains[g][i] == e {
      assert more[g][if g == h then i + 1 else i] == e;
    }
    assert more[h][0] == r;
    if g, i :| 0 <= g < |more| && 0 <= i < |more[g]| && more[g][i] == e && e != r {
      assert chains[g][if g == h then i - 1 else i] == e;
    }
  }

  /** A well-formed table has one entry for a text at most. */
  lemma OneEntryPerText(chains: seq<seq<Entry>>, signedChar: bool, d: Entry, e: Entry)
    requires WellFormed(AllTexts(chains), signedChar)
    requires Listed(chains, d) && Listed(chains, e) && d.text == e.text
    ensures d == e
  {
    hide BucketOf;
    var b := AllTexts(chains);
    var g, i :| 0 <= g < |chains| && 0 <= i < |chains[g]| && chains[g][i] == d;
    var h, j :| 0 <= h < |chains| && 0 <= j < |chains[h]| && chains[h][j] == e;
    assert BucketOf(b[g][i], |b|, signedChar) == g && BucketOf(b[h][j], |b|, signedChar) == h;
    assert g == h && b[g][i] == b[g][j];
  }

  lemma {:induction false} ConcatLists(chains: seq<seq<Entry>>, e: Entry)
    ensures e in Concat(chains) <==> Listed(chains, e)
    decreases |chains|
  {
    if chains != [] {
      var n := |chains| - 1;
      ConcatLists(chains[..n], e);
      if e in chains[n] {
        var i :| 0 <= i < |chains[n]| && chains[n][i] == e;
        assert Listed(chains, e);
      }
      if h, i :| 0 <= h < n && 0 <= i < |chains[..n][h]| && chains[..n][h][i] == e {
        assert chains[h][i] == e;
      }
      if h, i :| 0 <= h < |chains| && 0 <= i < |chains[h]| && chains[h][i] == e && h < n {
        assert chains[..n][h][i] == e;
      }
    }
  }

  class Table {
    const n: nat
    const signedChar: bool
    var table: array<Entry?>
    ghost var chains: seq<seq<Entry>>
    ghost var entries: set<Entry>

    ghost predicate Linked()
      reads this, table, entries
    {
      && n > 0 && table.Length == n == |chains|
      && (forall h, i | 0 <= h < n && 0 <= i < |chains[h]| :: chains[h][i] in entries)
      && (forall e | e in entries :: Listed(chains, e))
      && (forall h | 0 <= h < n :: table[h] == First(chains[h], 0))
      && (forall h, i | 0 <= h < n && 0 <= i < |chains[h]| :: chains[h][i].next == First(chains[h], i + 1))
    }

    ghost function Texts(): Buckets
      reads this
    {
      AllTexts(chains)
    }

    ghost predicate Valid()
      reads this, table, entries
    {
      Linked() && WellFormed(Texts(), signedChar)
    }

    /** The entry stored for a text is unique, so it is the one first linked for it. */
    lemma SameEntry(d: Entry, e: Entry)
      requires Valid() && d in entries && e in entries && d.text == e.text
      ensures d == e
    {
      hide Listed;
      OneEntryPerText(chains, signedChar, d, e);
    }

    constructor (n: nat, signedChar: bool)
      requires n > 0
      ensures Valid() && this.n == n && this.signedChar == signedChar && fresh(table)
      ensures Texts() == Run(n, [], signedChar) && entries == {}
    {
      this.n, this.signedChar := n, signedChar;
      table := new Entry?[n](_ => null);
      chains := seq(n, _ => []);
      entries := {};
      new;
      assert forall h | 0 <= h < n :: ChainTexts(chains[h]) == [];
      assert Texts() == Run(n, [], signedChar);
    }

    /** stress_hash_find on one bucket. */
    method Find(h: nat, str: String) returns (r: Entry?)
      requires Valid() && h < n
      ensures r == null <==> str !in Texts()[h]
      ensures r != null ==> r in chains[h] && r in entries && r.text == str
    {
      hide WellFormed, Matches, Listed;
      ghost var chain, i := chains[h], 0;
      assert Texts()[h] == ChainTexts(chain);
      MatchInTexts(chain, str);
      r := table[h];
      while r != null
        invariant 0 <= i <= |chain| && r == First(chain, i)
        invariant forall j | 0 <= j < i :: !Matches(chain[j], str)
        decreases |chain| - i
      {
        if Matches(r, str) {
          Matched(r, str);
          return;
        }
        r := r.next;
        i := i + 1;
      }
    }

    lemma Matched(e: Entry, str: String)
      requires Matches(e, str)
      ensures e.text == str
    {
    }

    method Get(str: String) returns (r: Entry?)
      requires Valid() && Terminated(str)
      ensures r != null <==> Has(Texts(), Text(str), signedChar)
      ensures r != null ==> r in entries && r.text == Text(str)
      ensures forall e | e in entries && e.text == Text(str) :: r == e
    {
      hide Listed, WellFormed;
      var hash := HashSdbm(str, signedChar);
      r := Find(hash % n, Text(str));
      FoundIsStored(r, Text(str));
    }

    /** What a search of the right bucket returns is the stored entry, if there is one. */
    lemma FoundIsStored(r: Entry?, text: String)
      requires Valid()
      requires r == null <==> !Has(Texts(), text, signedChar)
      requires r != null ==> r in entries && r.text == text
      ensures forall e | e in entries && e.text == text :: r == e
    {
      hide Listed, WellFormed, BucketOf;
      forall e | e in entries && e.text == text ensures r == e {
        StoredIsHad(e);
        SameEntry(r, e);
      }
    }

    lemma StoredIsHad(e: Entry)
      requires Valid() && e in entries
      ensures Has(Texts(), e.text, signedChar)
    {
      hide BucketOf;
      var h, i :| 0 <= h < |chains| && 0 <= i < |chains[h]| && chains[h][i] == e;
      assert Texts()[h][i] == e.text;
    }

    /** A new entry at the head of bucket h. */
    method Link(h: nat, text: String) returns (r: Entry)
      requires Linked() && h < n
      modifies this`chains, this`entries, table
      ensures Linked() && fresh(r) && r.text == text
      ensures chains == old(chains)[h := [r] + old(chains)[h]] && entries == old(entries) + {r}
      ensures forall e | e in old(entries) :: e.next == old(e.next)
    {
      hide Listed;
      ghost var was := chains;
      r := new Entry(text, table[h]);
      table[h] := r;
      chains := chains[h := [r] + chains[h]];
      entries := entries + {r};
      forall e | e in entries ensures Listed(chains, e) {
        ListedMore(was, h, r, e);
      }
      assert forall g | 0 <= g < n && g != h :: chains[g] == was[g];
      assert chains[h][0] == r && forall i | 0 < i < |chains[h]| :: chains[h][i] == was[h][i - 1];
    }

    /** Adds a string unless it is there; null only when the entry cannot be allocated. */
    method Add(str: String, allocates: bool) returns (r: Entry?)
      requires Valid() && Terminated(str)
      modifies this, table
      ensures Valid() && table == old(table)
      ensures Texts() == Insert(old(Texts()), Text(str), allocates, signedChar)
      ensures r != null ==> r in entries && r.text == Text(str)
      ensures r == null <==> !allocates && !Has(old(Texts()), Text(str), signedChar)
      ensures forall e | e in old(entries) && e.text == Text(str) :: r == e
      ensures !Has(old(Texts()), Text(str), signedChar) && r != null ==> fresh(r)
      ensures entries == if r == null || r in old(entries) then old(entries) else old(entries) + {r}
      ensures forall e | e in old(entries) :: e.next == old(e.next)
    {
      hide WellFormed, Listed;
      var text := Text(str);
      var hash := HashSdbm(str, signedChar);
      var h := hash % n;
      InsertIs(Texts(), text, allocates, signedChar);
      r := Find(h, text);
      FoundIsStored(r, text);
      if r != null || !allocates {
        return;
      }
      ghost var was := chains;
      r := Link(h, text);
      TextsWithFirst(was, h, r);
    }

    /** Any run of adds: the table becomes that of the model, and adds of one string that do not fail return one entry. */
    method AddAll(adds: seq<Addition>) returns (rs: seq<Entry?>)
      requires Valid() && Texts() == Run(n, [], signedChar)
      requires forall i | 0 <= i < |adds| :: Terminated(adds[i].str)
      modifies this, table
      ensures Valid() && Texts() == Run(n, Requests(adds), signedChar) && |rs| == |adds|
      ensures forall i | 0 <= i < |adds| && rs[i] != null :: rs[i] in entries && rs[i].text == Text(adds[i].str)
      ensures forall i, j | 0 <= i < |adds| && 0 <= j < |adds| && rs[i] != null && rs[j] != null ::
        Text(adds[i].str) == Text(adds[j].str) <==> rs[i] == rs[j]
    {
      hide Listed, WellFormed, Text, AllTexts, Run, Insert, Requests, Has;
      rs := [];
      ghost var own := table;
      var k := 0;
      RequestsNone();
      while k < |adds|
        invariant 0 <= k <= |adds| && |rs| == k && Valid() && table == own
        invariant Texts() == Run(n, Requests(adds[..k]), signedChar)
        invariant forall i | 0 <= i < k && rs[i] != null :: rs[i] in entries && rs[i].text == Text(adds[i].str)
      {
        RequestsNext(adds, k, n, signedChar);
        ghost var had, before := entries, rs;
        var r := Add(adds[k].str, adds[k].allocates);
        assert had <= entries && (r != null ==> r in entries && r.text == Text(adds[k].str));
        rs := rs + [r];
        forall i | 0 <= i <= k && rs[i] != null ensures rs[i] in entries && rs[i].text == Text(adds[i].str) {
          assert i < k ==> rs[i] == before[i];
        }
        k := k + 1;
      }
      assert adds[..k] == adds;
      forall i, j | 0 <= i < |adds| && 0 <= j < |adds| && rs[i] != null && rs[j] != null
        && Text(adds[i].str) == Text(adds[j].str) ensures rs[i] == rs[j]
      {
        SameEntry(rs[i], rs[j]);
      }
    }

    /** Frees every entry ever linked, once each: bucket by bucket, each chain from its head. */
    method Delete() returns (freed: seq<Entry>)
      requires Valid()
      ensures freed == Concat(chains)
      ensures Distinct(freed)
      ensures forall e :: e in freed <==> e in entries
    {
      hide WellFormed, Distinct, Concat, BucketsIn, Listed;
      ConcatNone(chains);
      freed := [];
      var i := 0;
      while i < n
        invariant 0 <= i <= n && freed == Concat(chains[..i])
      {
        ghost var chain, k := chains[i], 0;
        ghost var before := freed;
        ConcatNext(chains, i);
        ConcatDistinct(chains, i + 1, signedChar);
        var hash := table[i];
        while hash != null
          invariant 0 <= k <= |chain| && hash == First(chain, k)
          invariant freed == before + chain[..k]
          decreases |chain| - k
        {
          NotYet(before, chain, k);
          assert hash !in freed;      // an entry is read before it is freed, and freed once
          var next := hash.next;
          freed := freed + [hash];
          hash := next;
          k := k + 1;
        }
        assert chain[..k] == chain;
        i := i + 1;
      }
      assert chains[..n] == chains;
      ConcatDistinct(chains, n, signedChar);
      forall e ensures e in freed <==> e in entries {
        ConcatLists(chains, e);
        ChainedIsEntry(e);
      }
    }

    lemma ChainedIsEntry(e: Entry)
      requires Valid()
      ensures Listed(chains, e) <==> e in entries
    {
    }
  }

  /** stress_hash_create: null for no buckets or when either allocation fails. */
  method Create(n: nat, signedChar: bool, allocatesTable: bool, allocatesBuckets: bool) returns (t: Table?)
    ensures t != null <==> n > 0 && allocatesTable && allocatesBuckets
    ensures t != null ==> fresh(t) && t.Valid() && t.n == n && t.Texts() == Run(n, [], t.signedChar) && t.signedChar == signedChar
  {
    if n == 0 || !allocatesTable || !allocatesBuckets {
      return null;
    }
    t := new Table(n, signedChar);
  }
}
