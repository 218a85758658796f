/**
  The page patterns of core-mmap.c: a full pattern checked by 32-word exclusive
  ors, and a light one that touches the first word of each page.  A size may end
  inside a page: `words` is the number of 64-bit words that start below it, and the
  buffer has room for what the loops touch past that.  A page is a multiple of
  256 bytes.
 */
module MemoryPattern {
  import opened Arithmetic
  import opened Bits

  const GROUP: nat := 32
  const BLOCK: nat := 16

  type Word = w: nat | w < WORD64

  // ---------- the full pattern ----------

  function Xors(words: seq<nat>): nat {
    if words == [] then 0 else Xor(Xors(words[..|words| - 1]), words[|words| - 1])
  }

  function PageOf(i: nat, pageWords: nat): nat
    requires pageWords > 0
  {
    i / pageWords
  }

  /** Pages that a size begins; the last may be partial. */
  function PageCount(words: nat, pageWords: nat): nat
    requires pageWords > 0
  {
    (words + pageWords - 1) / pageWords
  }

  lemma PageCountIs(words: nat, pageWords: nat, n: nat)
    requires pageWords > 0
    ensures n < PageCount(words, pageWords) <==> n * pageWords < words
  {
    var q := PageCount(words, pageWords);
    assert words + pageWords - 1 == pageWords * q + (words + pageWords - 1) % pageWords;
    if n < q {
      MulLe(pageWords, n, q - 1);
    } else {
      MulLe(pageWords, q, n);
    }
  }

  /** Where the writing for a size stops: the set loop writes whole blocks of 16 words. */
  function Reach(words: nat): (n: nat)
    ensures words <= n < words + 16 && n % 16 == 0
  {
    (words + BLOCK - 1) / BLOCK * BLOCK
  }

  lemma ReachIs(words: nat, n: nat)
    requires n % BLOCK == 0
    ensures words <= n ==> Reach(words) <= n
    ensures words <= n < words + BLOCK ==> Reach(words) == n
  {
  }

  /** The word every address of a page is given: the page's number added to val. */
  function Pattern(val: Word, page: nat): Word {
    (val + page) % WORD64
  }

  lemma PageIs(page: nat, pageWords: nat, i: nat)
    requires pageWords > 0
    ensures page * pageWords <= i < page * pageWords + pageWords ==> PageOf(i, pageWords) == page
    ensures i < page * pageWords <==> PageOf(i, pageWords) < page
  {
    var q := i / pageWords;
    assert i == pageWords * q + i % pageWords;
    if page <= q {
      MulLe(pageWords, page, q);
    } else {
      MulLe(pageWords, q + 1, page);
    }
    if page * pageWords <= i < page * pageWords + pageWords {
      DivModUnique(i, page, i - page * pageWords, pageWords);
    }
  }

  /** The first n words hold the pattern. */
  ghost predicate Written(data: seq<nat>, val: Word, pageWords: nat, n: nat)
    requires pageWords > 0
  {
    n <= |data| && forall i | 0 <= i < n :: data[i] == Pattern(val, PageOf(i, pageWords))
  }

  /** Writes page after page; only a stop leaves pages out. */
  method MmapSet(buf: array<Word>, pageWords: nat, words: nat, val: Word, goes: nat -> bool) returns (pages: nat)
    requires pageWords > 0 && pageWords % BLOCK == 0 && Reach(words) <= buf.Length
    modifies buf
    ensures pages <= PageCount(words, pageWords) && (pages < PageCount(words, pageWords) ==> !goes(pages))
    ensures forall i | 0 <= i < buf.Length ::
      buf[i] == if i < Reach(words) && PageOf(i, pageWords) < pages then Pattern(val, PageOf(i, pageWords)) else old(buf[i])
    ensures pages == PageCount(words, pageWords) ==> Written(buf[..], val, pageWords, Reach(words))
  {
    hide PageOf, Pattern, PageCount, Reach;
    pages := 0;
    PatternStart(val);
    StartOfSet(words, pageWords);
    var ptr := 0;
    var v: Word := val;
    while ptr < words
      invariant ptr <= Reach(words) && Position(ptr, words, pageWords, pages)
      invariant v == Pattern(val, pages)
      invariant forall i | 0 <= i < buf.Length :: buf[i] == if i < ptr then Pattern(val, PageOf(i, pageWords)) else old(buf[i])
      decreases words - ptr
    {
      if !goes(pages) {
        break;
      }
      var pageEnd := if words < ptr + pageWords then words else ptr + pageWords;
      NextPosition(ptr, words, pageWords, pages, pageEnd);
      ptr := FillPage(buf, ptr, pageEnd, v);
      PatternNext(val, pages);
      v := (v + 1) % WORD64;
      pages := pages + 1;
    }
    SetStopped(ptr, words, pageWords, pages);
  }

  /** Every word of page k is given val + k, modulo 2^64. */
  lemma WordOfPage(val: Word, page: nat, offset: nat, pageWords: nat)
    requires offset < pageWords
    ensures Pattern(val, PageOf(page * pageWords + offset, pageWords)) == (val + page) % 0x1_0000_0000_0000_0000
  {
    PageIs(page, pageWords, page * pageWords + offset);
  }

  /** No two pages of a buffer are given the same word. */
  lemma PagesDiffer(val: Word, page: nat, other: nat)
    requires page < other < WORD64
    ensures Pattern(val, page) != Pattern(val, other)
  {
  }

  /** Between pages: at the start of page `pages`, or past the size, with only whole pages behind. */
  ghost predicate Position(ptr: nat, words: nat, pageWords: nat, pages: nat)
    requires pageWords > 0
  {
    && ptr % BLOCK == 0
    && (ptr < words ==> ptr == pages * pageWords)
    && (ptr >= words ==> ptr == Reach(words) <= pages * pageWords)
    && (pages == 0 || (pages - 1) * pageWords < words)
  }

  lemma StartOfSet(words: nat, pageWords: nat)
    requires pageWords > 0
    ensures Position(0, words, pageWords, 0)
  {
  }

  lemma NextStop(ptr: nat, words: nat, pageWords: nat, pageEnd: nat)
    requires pageWords % BLOCK == 0 && ptr % BLOCK == 0 && ptr < words
    requires pageEnd == if words < ptr + pageWords then words else ptr + pageWords
    ensures var next := ptr + Reach(pageEnd - ptr);
      && next % BLOCK == 0 && next <= ptr + pageWords && next <= Reach(words)
      && (next < words ==> next == ptr + pageWords) && (next >= words ==> next == Reach(words))
  {
    hide Reach;
    var a, b := ptr / BLOCK, pageWords / BLOCK;
    assert ptr == BLOCK * a && pageWords == BLOCK * b && ptr + pageWords == BLOCK * (a + b);
    ModShift(Reach(pageEnd - ptr), a, BLOCK);
    DivModUnique(ptr + pageWords, a + b, 0, BLOCK);
    ReachIs(pageEnd - ptr, pageWords);
    ReachIs(words, ptr + Reach(pageEnd - ptr));
    ReachIs(words, ptr + pageWords);
  }

  lemma NextPosition(ptr: nat, words: nat, pageWords: nat, pages: nat, pageEnd: nat)
    requires pageWords > 0 && pageWords % BLOCK == 0 && Position(ptr, words, pageWords, pages) && ptr < words
    requires pageEnd == if words < ptr + pageWords then words else ptr + pageWords
    ensures var next := ptr + Reach(pageEnd - ptr);
      && Position(next, words, pageWords, pages + 1) && next <= Reach(words)
      && forall i | ptr <= i < next :: PageOf(i, pageWords) == pages
  {
    hide PageOf, Reach;
    var next := ptr + Reach(pageEnd - ptr);
    NextStop(ptr, words, pageWords, pageEnd);
    assert (pages + 1) * pageWords == pages * pageWords + pageWords;
    forall i | ptr <= i < next ensures PageOf(i, pageWords) == pages {
      PageIs(pages, pageWords, i);
    }
  }

  /** What lies before ptr is what lies in the pages done. */
  lemma SetStopped(ptr: nat, words: nat, pageWords: nat, pages: nat)
    requires pageWords > 0 && Position(ptr, words, pageWords, pages)
    ensures ptr < words ==> pages < PageCount(words, pageWords)
    ensures ptr >= words ==> pages == PageCount(words, pageWords) && ptr == Reach(words)
    ensures forall i: nat :: i < ptr <==> i < Reach(words) && PageOf(i, pageWords) < pages
  {
    hide PageOf, Reach, PageCount;
    PageCountIs(words, pageWords, pages);
    if pages > 0 {
      PageCountIs(words, pageWords, pages - 1);
    }
    forall i: nat ensures i < ptr <==> i < Reach(words) && PageOf(i, pageWords) < pages {
      PageIs(pages, pageWords, i);
    }
  }

  /** The inner loop: sixteen words at a time until the end of the page or the size. */
  method FillPage(buf: array<Word>, start: nat, pageEnd: nat, v: Word) returns (ptr: nat)
    requires start <= pageEnd && start + Reach(pageEnd - start) <= buf.Length
    modifies buf
    ensures ptr == start + Reach(pageEnd - start)
    ensures forall i | 0 <= i < buf.Length :: buf[i] == if start <= i < ptr then v else old(buf[i])
  {
    ptr := start;
    while ptr < pageEnd
      invariant start <= ptr <= start + Reach(pageEnd - start) && (ptr - start) % BLOCK == 0
      invariant forall i | 0 <= i < buf.Length :: buf[i] == if start <= i < ptr then v else old(buf[i])
    {
      forall k | 0 <= k < BLOCK {
        buf[ptr + k] := v;
      }
      ptr := ptr + BLOCK;
    }
  }

  function Group(data: seq<nat>, g: nat): seq<nat>
    requires GROUP * g + GROUP <= |data|
  {
    data[GROUP * g..GROUP * g + GROUP]
  }

  /** Every 32-word group cancels out. */
  ghost predicate Passes(data: seq<nat>) {
    forall g: nat | GROUP * g + GROUP <= |data| :: Xors(Group(data, g)) == 0
  }

  /** 0 when every group of the checked pages cancels out, -1 at the first that does not; only a stop leaves pages unchecked.  A partial last page is read to its end. */
  method MmapCheck(buf: array<Word>, pageWords: nat, words: nat, goes: nat -> bool) returns (r: int, page: nat)
    requires pageWords > 0 && pageWords % GROUP == 0 && 0 <= PageCount(words, pageWords) * pageWords <= buf.Length
    ensures r == 0 || r == -1
    ensures page <= PageCount(words, pageWords) && 0 <= page * pageWords <= PageCount(words, pageWords) * pageWords
    ensures r == -1 ==> !Passes(buf[..PageCount(words, pageWords) * pageWords])
    ensures r == 0 ==> Passes(buf[..page * pageWords])
    ensures r == 0 && page < PageCount(words, pageWords) ==> !goes(page)
  {
    hide Xors, Passes, Group, PageCount;
    ghost var total, end := PageCount(words, pageWords), PageCount(words, pageWords) * pageWords;
    PassesNone();
    assert buf[..0] == [];
    r, page := 0, 0;
    var ptr := 0;
    PageCountIs(words, pageWords, page);
    while ptr < words && goes(page)
      invariant 0 <= ptr <= end && ptr == page * pageWords && page <= total
      invariant ptr % GROUP == 0
      invariant page < total <==> ptr < words
      invariant Passes(buf[..ptr])
    {
      NextPageFits(page, total, pageWords);
      var ok := CheckPage(buf, ptr, pageWords);
      if !ok {
        PassesLess(buf[..end], ptr + pageWords);
        assert buf[..end][..ptr + pageWords] == buf[..ptr + pageWords];
        return -1, page;
      }
      WholeGroups(ptr, pageWords);
      ptr := ptr + pageWords;
      page := page + 1;
      PageCountIs(words, pageWords, page);
    }
  }

  lemma NextPageFits(page: nat, total: nat, pageWords: nat)
    requires page < total
    ensures (page + 1) * pageWords == page * pageWords + pageWords <= total * pageWords
  {
    MulLe(pageWords, page + 1, total);
  }

  lemma WholeGroups(ptr: nat, pageWords: nat)
    requires ptr % GROUP == 0 && pageWords % GROUP == 0
    ensures (ptr + pageWords) % GROUP == 0
  {
    ModShift(ptr, pageWords / GROUP, GROUP);
  }

  lemma PassesLess(data: seq<nat>, n: nat)
    requires n <= |data|
    ensures Passes(data) ==> Passes(data[..n])
  {
    hide Xors;
    forall g: nat | GROUP * g + GROUP <= n ensures Group(data[..n], g) == Group(data, g) {
    }
  }

  lemma PassesNone()
    ensures Passes([])
  {
  }

  lemma PassesMore(data: seq<nat>, ptr: nat)
    requires ptr % GROUP == 0 && ptr + GROUP <= |data|
    ensures Xors(data[ptr..ptr + GROUP]) == 0 && Passes(data[..ptr]) ==> Passes(data[..ptr + GROUP])
    ensures Xors(data[ptr..ptr + GROUP]) != 0 ==> !Passes(data)
  {
    hide Xors;
    var g := ptr / GROUP;
    assert Group(data, g) == data[ptr..ptr + GROUP];
    if Xors(data[ptr..ptr + GROUP]) == 0 && Passes(data[..ptr]) {
      forall h: nat | GROUP * h + GROUP <= ptr + GROUP ensures Xors(Group(data[..ptr + GROUP], h)) == 0 {
        assert Group(data[..ptr + GROUP], h) == Group(data, h);
        if h < g {
          assert Group(data[..ptr], h) == Group(data, h);
        }
      }
    }
  }

  /** The groups of one page. */
  method CheckPage(buf: array<Word>, start: nat, pageWords: nat) returns (ok: bool)
    requires start % GROUP == 0 && pageWords % GROUP == 0 && start + pageWords <= buf.Length && Passes(buf[..start])
    ensures ok <==> Passes(buf[..start + pageWords])
  {
    hide Xors, Passes;
    ghost var data := buf[..start + pageWords];
    var ptr, pageEnd := start, start + pageWords;
    while ptr < pageEnd
      invariant start <= ptr <= pageEnd && ptr % GROUP == 0 && Passes(buf[..ptr])
    {
      PassesMore(data, ptr);
      assert data[..ptr] == buf[..ptr] && data[..ptr + GROUP] == buf[..ptr + GROUP];
      assert data[ptr..ptr + GROUP] == buf[ptr..ptr + GROUP];
      var sum := XorGroup(buf, ptr);
      WholeGroups(ptr, GROUP);
      ptr := ptr + GROUP;
      if sum != 0 {
        return false;
      }
    }
    return true;
  }

  /** The exclusive or of the 32 words at ptr; the source unrolls this. */
  method XorGroup(buf: array<Word>, ptr: nat) returns (sum: nat)
    requires ptr + GROUP <= buf.Length
    ensures sum == Xors(buf[ptr..ptr + GROUP])
  {
    hide Xors, Xor;
    ghost var words: seq<nat> := buf[ptr..ptr + GROUP];
    sum := buf[ptr];
    XorsFirst(words);
    var k := 1;
    while k < GROUP
      invariant 1 <= k <= GROUP && sum == Xors(words[..k])
    {
      XorsNext(words, k);
      sum := Xor(sum, buf[ptr + k]);
      k := k + 1;
    }
    assert words[..GROUP] == words;
  }

  lemma XorsFirst(words: seq<nat>)
    requires words != []
    ensures Xors(words[..1]) == words[0]
  {
    assert words[..1][..0] == [];
    assert Xors([]) == 0;
    hide Xor;
    XorZero(words[0]);
  }

  lemma XorsNext(words: seq<nat>, k: nat)
    requires k < |words|
    ensures Xors(words[..k + 1]) == Xor(Xors(words[..k]), words[k])
  {
    hide Xor;
    assert words[..k + 1][..k] == words[..k];
  }

  // ---------- which corruptions are caught ----------

  /** How many of the words have bit k set. */
  function Ones(words: seq<nat>, k: nat): nat {
    if words == [] then 0 else Ones(words[..|words| - 1], k) + Bit(words[|words| - 1], k)
  }

  lemma {:induction false} XorsBit(words: seq<nat>, k: nat)
    ensures Bit(Xors(words), k) == Ones(words, k) % 2
    decreases |words|
  {
    hide Bit, Xor;
    if words == [] {
      ZeroBit(k);
    } else {
      var n := |words| - 1;
      XorsBit(words[..n], k);
      XorBit(Xors(words[..n]), words[n], k);
    }
  }

  /** How many of the words differ from v in bit k. */
  function Flips(words: seq<nat>, v: nat, k: nat): nat {
    if words == [] then 0
    else Flips(words[..|words| - 1], v, k) + if Bit(words[|words| - 1], k) == Bit(v, k) then 0 else 1
  }

  lemma {:induction false} OnesAndFlips(words: seq<nat>, v: nat, k: nat)
    ensures Ones(words, k) % 2 == (Flips(words, v, k) + |words| * Bit(v, k)) % 2
    decreases |words|
  {
    if words != [] {
      var n := |words| - 1;
      OnesAndFlips(words[..n], v, k);
      assert |words| * Bit(v, k) == n * Bit(v, k) + Bit(v, k);
      hide Bit;
    }
  }

  /** Every bit column of the words was flipped an even number of times from v. */
  ghost predicate EvenColumns(words: seq<nat>, v: nat) {
    forall k: nat :: Flips(words, v, k) % 2 == 0
  }

  lemma ColumnParity(words: seq<nat>, v: nat, k: nat)
    requires |words| == GROUP
    ensures Bit(Xors(words), k) == Flips(words, v, k) % 2
  {
    XorsBit(words, k);
    OnesAndFlips(words, v, k);
    assert |words| * Bit(v, k) == 2 * (16 * Bit(v, k));
  }

  /** A group that should hold v throughout cancels out exactly when its columns are even. */
  lemma GroupCancelsIff(words: seq<nat>, v: nat)
    requires |words| == GROUP
    ensures Xors(words) == 0 <==> EvenColumns(words, v)
  {
    hide Xors, Flips, Bit;
    if Xors(words) == 0 {
      forall k: nat ensures Flips(words, v, k) % 2 == 0 {
        ColumnParity(words, v, k);
        ZeroBit(k);
      }
    }
    if EvenColumns(words, v) {
      forall k: nat ensures Bit(Xors(words), k) == Bit(0, k) {
        ColumnParity(words, v, k);
        ZeroBit(k);
      }
      BitsDetermine(Xors(words), 0);
    }
  }

  lemma GroupInPage(pageWords: nat, g: nat, i: nat)
    requires pageWords > 0 && pageWords % GROUP == 0 && GROUP * g <= i < GROUP * g + GROUP
    ensures PageOf(i, pageWords) == PageOf(GROUP * g, pageWords)
  {
    var q, m := PageOf(GROUP * g, pageWords), pageWords / GROUP;
    assert GROUP * g == pageWords * q + (GROUP * g) % pageWords;
    assert pageWords == GROUP * m && pageWords * q == GROUP * (m * q);
    assert g - m * q < m;
    DivModUnique(i, q, i - pageWords * q, pageWords);
  }

  /** After corruption the check passes exactly when, in every group, every bit column was flipped an even number of times. */
  lemma PassesIff(data: seq<nat>, val: Word, pageWords: nat)
    requires pageWords > 0 && pageWords % GROUP == 0
    ensures Passes(data) <==>
      forall g: nat | GROUP * g + GROUP <= |data| :: EvenColumns(Group(data, g), Pattern(val, PageOf(GROUP * g, pageWords)))
  {
    hide Xors, EvenColumns, Pattern, PageOf;
    forall g: nat | GROUP * g + GROUP <= |data|
      ensures Xors(Group(data, g)) == 0 <==> EvenColumns(Group(data, g), Pattern(val, PageOf(GROUP * g, pageWords)))
    {
      GroupCancelsIff(Group(data, g), Pattern(val, PageOf(GROUP * g, pageWords)));
    }
  }

  /** A check after a complete set passes: what was written cancels out, and so does a partial page whose rest holds one value, as fresh memory does. */
  lemma CheckAfterSet(data: seq<nat>, val: Word, pageWords: nat, written: nat, rest: nat)
    requires pageWords > 0 && pageWords % GROUP == 0 && Written(data, val, pageWords, written) && written % BLOCK == 0
    requires forall i | written <= i < |data| :: data[i] == rest
    ensures Passes(data)
  {
    hide Pattern, PageOf, EvenColumns, Passes;
    forall g: nat | GROUP * g + GROUP <= |data|
      ensures EvenColumns(Group(data, g), Pattern(val, PageOf(GROUP * g, pageWords)))
    {
      WrittenGroup(data, val, pageWords, written, rest, g);
    }
    PassesIff(data, val, pageWords);
  }

  lemma WrittenGroup(data: seq<nat>, val: Word, pageWords: nat, written: nat, rest: nat, g: nat)
    requires pageWords > 0 && pageWords % GROUP == 0 && Written(data, val, pageWords, written) && written % BLOCK == 0
    requires forall i | written <= i < |data| :: data[i] == rest
    requires GROUP * g + GROUP <= |data|
    ensures EvenColumns(Group(data, g), Pattern(val, PageOf(GROUP * g, pageWords)))
  {
    hide Pattern, PageOf, Group, Written, EvenColumns;
    var h := SplitPoint(written, g);
    GroupParts(data, val, pageWords, written, rest, g, h);
    TwoPartsEven(Group(data, g), Pattern(val, PageOf(GROUP * g, pageWords)), rest, h);
  }

  /** Where in a group the writing ends: writing stops at whole blocks. */
  lemma SplitPoint(written: nat, g: nat) returns (h: nat)
    requires written % BLOCK == 0
    ensures h <= GROUP && h % 2 == 0
    ensures h > 0 ==> GROUP * g + h <= written
    ensures h < GROUP ==> written <= GROUP * g + h
  {
    if written <= GROUP * g {
      h := 0;
    } else if written >= GROUP * g + GROUP {
      h := GROUP;
    } else {
      h := written - GROUP * g;
      var b := written / BLOCK;
      assert written == BLOCK * b;
      DivModUnique(h, 8 * (b - 2 * g), 0, 2);
    }
  }

  lemma TwoPartsEven(words: seq<nat>, v: nat, rest: nat, h: nat)
    requires |words| == GROUP && h <= GROUP && h % 2 == 0
    requires forall i | 0 <= i < h :: words[i] == v
    requires forall i | h <= i < GROUP :: words[i] == rest
    ensures EvenColumns(words, v)
  {
    hide Flips, Bit;
    forall k: nat ensures Flips(words, v, k) % 2 == 0 {
      FlipsOfRest(words, v, rest, h, k);
    }
  }

  /** The first h words of a group were written, the others not. */
  lemma GroupParts(data: seq<nat>, val: Word, pageWords: nat, written: nat, rest: nat, g: nat, h: nat)
    requires pageWords > 0 && pageWords % GROUP == 0 && Written(data, val, pageWords, written)
    requires forall i | written <= i < |data| :: data[i] == rest
    requires GROUP * g + GROUP <= |data| && h <= GROUP
    requires h > 0 ==> GROUP * g + h <= written
    requires h < GROUP ==> written <= GROUP * g + h
    ensures |Group(data, g)| == GROUP
    ensures forall i | 0 <= i < h :: Group(data, g)[i] == Pattern(val, PageOf(GROUP * g, pageWords))
    ensures forall i | h <= i < GROUP :: Group(data, g)[i] == rest
  {
    hide Pattern, PageOf;
    forall i | 0 <= i < h ensures Group(data, g)[i] == Pattern(val, PageOf(GROUP * g, pageWords)) {
      GroupInPage(pageWords, g, GROUP * g + i);
    }
  }

  /** The words from h on hold one value: in a column all of them are flipped, or none is. */
  lemma {:induction false} FlipsOfRest(words: seq<nat>, v: nat, rest: nat, h: nat, k: nat)
    requires h <= |words|
    requires forall i | 0 <= i < h :: words[i] == v
    requires forall i | h <= i < |words| :: words[i] == rest
    ensures Flips(words, v, k) == if Bit(rest, k) == Bit(v, k) then 0 else |words| - h
    decreases |words|
  {
    hide Bit;
    if words != [] {
      var n := |words| - 1;
      FlipsOfRest(words[..n], v, rest, if h <= n then h else n, k);
    }
  }

  /** Changing a single word of data that passes is always caught. */
  lemma SingleWordCaught(data: seq<nat>, at: nat, w: nat)
    requires Passes(data) && |data| % 32 == 0 && at < |data| && w != data[at]
    ensures !Passes(data[at := w])
  {
    hide Xors;
    var g := at / GROUP;
    var words, now := Group(data, g), Group(data[at := w], g);
    assert now == words[at - GROUP * g := w];
    OneWordChanges(words, at - GROUP * g, w);
  }

  lemma OneWordChanges(words: seq<nat>, at: nat, w: nat)
    requires at < |words| && Xors(words) == 0 && w != words[at]
    ensures Xors(words[at := w]) != 0
  {
    hide Xors, Bit, Ones;
    var k := DifferentBit(w, words[at]);
    OnesChange(words, at, w, k);
    XorsBit(words, k);
    XorsBit(words[at := w], k);
    ZeroBit(k);
  }

  /** The same bits flipped in two words are caught if and only if the words lie in different groups of 32. */
  lemma SameFlipsCaughtIff(data: seq<nat>, a: nat, b: nat, flips: nat)
    requires Passes(data) && |data| % 32 == 0 && a < |data| && b < |data| && a != b && flips != 0
    ensures !Passes(data[a := Xor(data[a], flips)][b := Xor(data[b], flips)]) <==> a / 32 != b / 32
  {
    hide Xors, Xor, Passes, Group;
    var once := data[a := Xor(data[a], flips)];
    var now := once[b := Xor(data[b], flips)];
    if a / 32 != b / 32 {
      XorDiffers(data[a], flips);
      DifferentGroups(data, a, Xor(data[a], flips), b, Xor(data[b], flips));
    } else {
      forall g: nat | GROUP * g + GROUP <= |data| ensures Xors(Group(now, g)) == 0 {
        GroupOfTwo(data, a, Xor(data[a], flips), b, Xor(data[b], flips), g);
        if g == a / 32 {
          TwoWordsCancel(Group(data, g), a - 32 * g, b - 32 * g, flips);
        }
      }
      PassesIfAll(now);
    }
  }

  lemma PassesIfAll(data: seq<nat>)
    ensures Passes(data) <==> forall g: nat | GROUP * g + GROUP <= |data| :: Xors(Group(data, g)) == 0
  {
  }

  lemma XorDiffers(x: nat, flips: nat)
    requires flips != 0
    ensures Xor(x, flips) != x
  {
    hide Xor, Bit;
    var k := DifferentBit(flips, 0);
    ZeroBit(k);
    XorBit(x, flips, k);
  }

  /** The group holding a has one changed word, since b is in another. */
  lemma DifferentGroups(data: seq<nat>, a: nat, x: nat, b: nat, y: nat)
    requires Passes(data) && |data| % 32 == 0 && a < |data| && b < |data| && a / 32 != b / 32 && x != data[a]
    ensures !Passes(data[a := x][b := y])
  {
    hide Xors;
    var g := a / 32;
    assert GROUP * g + GROUP <= |data|;
    var words, now := Group(data, g), Group(data[a := x][b := y], g);
    assert now == words[a - 32 * g := x];
    OneWordChanges(words, a - 32 * g, x);
  }

  lemma GroupOfTwo(data: seq<nat>, a: nat, x: nat, b: nat, y: nat, g: nat)
    requires Passes(data) && a < |data| && b < |data| && a / 32 == b / 32 && a != b && GROUP * g + GROUP <= |data|
    ensures Xors(Group(data, g)) == 0 && |Group(data, g)| == 32
    ensures 0 <= a - 32 * (a / 32) < 32 && 0 <= b - 32 * (a / 32) < 32
    ensures Group(data[a := x][b := y], g) ==
            if g == a / 32 then Group(data, g)[a - 32 * g := x][b - 32 * g := y] else Group(data, g)
    ensures g == a / 32 ==> Group(data, g)[a - 32 * g] == data[a] && Group(data, g)[b - 32 * g] == data[b]
  {
    hide Xors;
  }

  lemma TwoWordsCancel(words: seq<nat>, a: nat, b: nat, flips: nat)
    requires a < |words| && b < |words| && a != b && Xors(words) == 0
    ensures Xors(words[a := Xor(words[a], flips)][b := Xor(words[b], flips)]) == 0
  {
    hide Xors, Xor, Bit, Ones;
    var x, y := Xor(words[a], flips), Xor(words[b], flips);
    var once := words[a := x];
    var now := once[b := y];
    forall k: nat ensures Bit(Xors(now), k) == Bit(0, k) {
      OnesChange(words, a, x, k);
      OnesChange(once, b, y, k);
      XorBit(words[a], flips, k);
      XorBit(words[b], flips, k);
      XorsBit(words, k);
      XorsBit(now, k);
      ZeroBit(k);
    }
    BitsDetermine(Xors(now), 0);
  }

  lemma {:induction false} OnesChange(words: seq<nat>, at: nat, w: nat, k: nat)
    requires at < |words|
    ensures Ones(words[at := w], k) + Bit(words[at], k) == Ones(words, k) + Bit(w, k)
    decreases |words|
  {
    hide Bit;
    var n := |words| - 1;
    if at == n {
      assert words[at := w][..n] == words[..n];
    } else {
      assert words[at := w][..n] == words[..n][at := w];
      OnesChange(words[..n], at, w, k);
    }
  }

  lemma {:induction false} DifferentBit(a: nat, b: nat) returns (k: nat)
    requires a != b
    ensures Bit(a, k) != Bit(b, k)
  {
    if forall k: nat :: Bit(a, k) == Bit(b, k) {
      BitsDetermine(a, b);
    }
    k :| Bit(a, k) != Bit(b, k);
  }

  // ---------- the light pattern ----------

  predicate IsStart(i: nat, pageWords: nat)
    requires pageWords > 0
  {
    i % pageWords == 0
  }

  /** Touches the first word of each page and nothing else. */
  method MmapSetLight(buf: array<Word>, pageWords: nat, words: nat, val: Word)
    requires pageWords > 0 && words <= buf.Length
    modifies buf
    ensures forall i | 0 <= i < buf.Length ::
      buf[i] == if i < words && IsStart(i, pageWords) then Pattern(val, PageOf(i, pageWords)) else old(buf[i])
    ensures LightPasses(buf[..words], val, pageWords)
  {
    hide IsStart, PageOf, Pattern;
    PatternStart(val);
    var ptr := 0;
    var v: Word := val;
    ghost var pages := 0;
    while ptr < words
      invariant pages >= 0 && ptr == pages * pageWords && v == Pattern(val, pages)
      invariant forall i | 0 <= i < buf.Length ::
        buf[i] == if i < ptr && i < words && IsStart(i, pageWords) then Pattern(val, PageOf(i, pageWords)) else old(buf[i])
      decreases words - ptr
    {
      StartsBetween(pages, pageWords);
      PatternNext(val, pages);
      buf[ptr] := v;
      ptr := ptr + pageWords;
      v := (v + 1) % WORD64;
      pages := pages + 1;
    }
  }

  /** A page has one start, at its first word. */
  lemma StartsBetween(page: nat, pageWords: nat)
    requires pageWords > 0
    ensures (page + 1) * pageWords == page * pageWords + pageWords
    ensures IsStart(page * pageWords, pageWords) && PageOf(page * pageWords, pageWords) == page
    ensures forall i | page * pageWords < i < page * pageWords + pageWords :: !IsStart(i, pageWords)
  {
    hide PageOf;
    PageIs(page, pageWords, page * pageWords);
    DivModUnique(page * pageWords, page, 0, pageWords);
    forall i | page * pageWords < i < page * pageWords + pageWords ensures !IsStart(i, pageWords) {
      DivModUnique(i, page, i - page * pageWords, pageWords);
    }
  }

  /** The page starts count up from `first`. */
  ghost predicate LightPasses(data: seq<Word>, first: Word, pageWords: nat)
    requires pageWords > 0
  {
    forall i | 0 <= i < |data| && IsStart(i, pageWords) :: data[i] == Pattern(first, PageOf(i, pageWords))
  }

  /** 0 exactly when the page starts count up from the first word. */
  method MmapCheckLight(buf: array<Word>, pageWords: nat, words: nat) returns (r: int)
    requires pageWords > 0 && 0 < buf.Length && words <= buf.Length
    ensures r == 0 || r == -1
    ensures r == 0 <==> LightPasses(buf[..words], buf[0], pageWords)
  {
    hide IsStart, PageOf, Pattern;
    var ptr := 0;
    var val: Word := buf[0];
    PatternStart(val);
    ghost var pages := 0;
    while ptr < words
      invariant pages >= 0 && ptr == pages * pageWords && val == Pattern(buf[0], pages)
      invariant forall i | 0 <= i < words && i < ptr && IsStart(i, pageWords) :: buf[i] == Pattern(buf[0], PageOf(i, pageWords))
      decreases words - ptr
    {
      StartsBetween(pages, pageWords);
      PatternNext(buf[0], pages);
      if buf[ptr] != val {
        assert buf[..words][ptr] != Pattern(buf[0], PageOf(ptr, pageWords));
        return -1;
      }
      ptr := ptr + pageWords;
      val := (val + 1) % WORD64;
      pages := pages + 1;
    }
    return 0;
  }

  lemma PatternStart(val: Word)
    ensures Pattern(val, 0) == val
  {
  }

  lemma PatternNext(val: Word, page: nat)
    ensures Pattern(val, page + 1) == (Pattern(val, page) + 1) % WORD64
  {
  }

  lemma PatternInjective(a: Word, b: Word)
    requires a != b
    ensures Pattern(a, 1) != Pattern(b, 1)
  {
  }

  lemma FirstStarts(pageWords: nat)
    requires pageWords > 0
    ensures IsStart(0, pageWords) && PageOf(0, pageWords) == 0
    ensures IsStart(pageWords, pageWords) && PageOf(pageWords, pageWords) == 1
    ensures forall i | 0 < i < pageWords :: !IsStart(i, pageWords)
  {
    hide IsStart, PageOf;
    StartsBetween(0, pageWords);
    StartsBetween(1, pageWords);
  }

  /** After a light set, a change to exactly one page start is caught if and only if there is a second page; a change anywhere else never is. */
  lemma OneChangeCaughtIff(data: seq<Word>, val: Word, pageWords: nat, at: nat, w: Word)
    requires pageWords > 0 && LightPasses(data, val, pageWords) && at < |data| && w != data[at]
    ensures var now := data[at := w];
      !LightPasses(now, now[0], pageWords) <==> IsStart(at, pageWords) && |data| > pageWords
  {
    hide IsStart, PageOf, Pattern;
    var now := data[at := w];
    FirstStarts(pageWords);
    PatternStart(val);
    PatternStart(now[0]);
    if IsStart(at, pageWords) && |data| > pageWords {
      if at == 0 {
        PatternInjective(w, val);
        assert now[pageWords] == Pattern(val, 1) != Pattern(now[0], 1);
      } else {
        assert now[at] != Pattern(val, PageOf(at, pageWords));
      }
    }
  }
}
