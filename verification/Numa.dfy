/**
  NUMA page distribution of core-numa.c: the cyclic search for the next available
  node, and the loop that binds a buffer run by run under a cap on the chunks.
  Pointers into the buffer are offsets from its start.
 */
module Numa {
  import opened Arithmetic
  import opened Bits

  // ---------- the next available node ----------

  /** Where the search starts: past the last node it wraps, and further out it restarts at node 0. */
  function Origin(node: nat, maxNodes: nat): nat
    requires maxNodes > 0
  {
    if node > maxNodes then 0 else if node == maxNodes then maxNodes - 1 else node
  }

  /** The node `steps` after `node` in cyclic order. */
  function Around(node: nat, maxNodes: nat, steps: nat): (n: nat)
    requires maxNodes > 0
    ensures n < maxNodes
  {
    (Origin(node, maxNodes) + steps) % maxNodes
  }

  ghost predicate Available(mask: seq<bool>, maxNodes: nat, node: nat) {
    node < maxNodes <= |mask| && mask[node]
  }

  /** r is the first available node after `node`, going round at most once; `node` itself when there is none. */
  ghost predicate IsNext(mask: seq<bool>, maxNodes: nat, node: nat, r: nat) {
    (exists d :: FoundAt(mask, maxNodes, node, r, d)) || (r == node && forall n: nat :: !Available(mask, maxNodes, n))
  }

  ghost predicate FoundAt(mask: seq<bool>, maxNodes: nat, node: nat, r: nat, d: nat) {
    && 1 <= d <= maxNodes && r == Around(node, maxNodes, d) && Available(mask, maxNodes, r)
    && forall e | 1 <= e < d :: !Available(mask, maxNodes, Around(node, maxNodes, e))
  }

  lemma AroundNext(node: nat, maxNodes: nat, i: nat)
    requires maxNodes > 0
    ensures Around(node, maxNodes, i + 1) ==
      if Around(node, maxNodes, i) + 1 >= maxNodes then 0 else Around(node, maxNodes, i) + 1
  {
    var x := Origin(node, maxNodes) + i;
    var q := x / maxNodes;
    if x % maxNodes + 1 >= maxNodes {
      assert x + 1 == maxNodes * (q + 1) + 0;
      DivModUnique(x + 1, q + 1, 0, maxNodes);
    } else {
      DivModUnique(x + 1, q, x % maxNodes + 1, maxNodes);
    }
  }

  lemma AroundStart(node: nat, maxNodes: nat)
    requires maxNodes > 0
    ensures Around(node, maxNodes, 0) == Origin(node, maxNodes)
  {
    DivModUnique(Origin(node, maxNodes), 0, Origin(node, maxNodes), maxNodes);
  }

  /** maxNodes steps visit every node. */
  lemma AroundReaches(node: nat, maxNodes: nat, n: nat) returns (d: nat)
    requires n < maxNodes
    ensures 1 <= d <= maxNodes && Around(node, maxNodes, d) == n
  {
    var o := Origin(node, maxNodes);
    if n > o {
      d := n - o;
      DivModUnique(o + d, 0, n, maxNodes);
    } else {
      d := n - o + maxNodes;
      DivModUnique(o + d, 1, n, maxNodes);
    }
  }

  /** The search has one result: IsNext is the function it computes. */
  lemma NextIsUnique(mask: seq<bool>, maxNodes: nat, node: nat, r: nat, t: nat)
    requires IsNext(mask, maxNodes, node, r) && IsNext(mask, maxNodes, node, t)
    ensures r == t
  {
    hide Around;
    if d :| FoundAt(mask, maxNodes, node, r, d) {
      if e :| FoundAt(mask, maxNodes, node, t, e) {
        assert d == e by {
          assert Available(mask, maxNodes, Around(node, maxNodes, d));
          assert Available(mask, maxNodes, Around(node, maxNodes, e));
        }
      }
    }
  }

  /** From a node of the range: the least available node above it, or else the least of all. */
  lemma NextInOrder(mask: seq<bool>, maxNodes: nat, node: nat, r: nat)
    requires IsNext(mask, maxNodes, node, r) && node < maxNodes <= |mask|
    ensures node < r ==> r < maxNodes && mask[r] && forall n | node < n < r :: !mask[n]
    ensures r < node ==> mask[r] && (forall n | node < n < maxNodes :: !mask[n]) && forall n | 0 <= n < r :: !mask[n]
    ensures r == node ==> forall n | 0 <= n < maxNodes && n != node :: !mask[n]
  {
    if d :| FoundAt(mask, maxNodes, node, r, d) {
      forall n: nat | n < maxNodes && mask[n] && n != r ensures !Before(node, n, r) {
        var e := AroundReaches(node, maxNodes, n);
        StepsTo(node, maxNodes, n, e);
        StepsTo(node, maxNodes, r, d);
      }
    } else {
      forall n: nat | n < maxNodes ensures !mask[n] {
        assert !Available(mask, maxNodes, n);
      }
    }
  }

  /** Going up from node and round the end, a comes before b. */
  predicate Before(node: nat, a: nat, b: nat) {
    if a > node then b <= node || a < b else b <= node && a < b
  }

  lemma StepsTo(node: nat, maxNodes: nat, n: nat, d: nat)
    requires node < maxNodes && 1 <= d <= maxNodes && n == Around(node, maxNodes, d)
    ensures d == if n > node then n - node else n - node + maxNodes
  {
    if node + d < maxNodes {
      DivModUnique(node + d, 0, node + d, maxNodes);
    } else {
      DivModUnique(node + d, 1, node + d - maxNodes, maxNodes);
    }
  }

  /** A node one past the range, or further out, is followed by the range from its start: further out, node 0 comes last. */
  lemma PastTheEnd(node: nat, maxNodes: nat, d: nat)
    requires 1 <= d <= maxNodes <= node
    ensures node == maxNodes ==> Around(node, maxNodes, d) == d - 1
    ensures node > maxNodes ==> Around(node, maxNodes, d) == if d == maxNodes then 0 else d
  {
    if node == maxNodes {
      DivModUnique(maxNodes - 1 + d, 1, d - 1, maxNodes);
    } else if d == maxNodes {
      DivModUnique(d, 1, 0, maxNodes);
    } else {
      DivModUnique(d, 0, d, maxNodes);
    }
  }

  method NextNode(node: nat, mask: seq<bool>, maxNodes: nat) returns (r: nat)
    requires maxNodes <= |mask|
    ensures IsNext(mask, maxNodes, node, r)
  {
    var newNode := if node > maxNodes then 0 else node;
    var i := 0;
    if maxNodes > 0 {
      AroundStart(node, maxNodes);
    }
    while i < maxNodes
      invariant 0 <= i <= maxNodes
      invariant maxNodes > 0 ==> newNode == Around(node, maxNodes, i) || (i == 0 && newNode == node == maxNodes)
      invariant forall e | 1 <= e <= i :: !Available(mask, maxNodes, Around(node, maxNodes, e))
    {
      AroundNext(node, maxNodes, i);
      newNode := newNode + 1;
      if newNode >= maxNodes {
        newNode := 0;
      }
      if mask[newNode] {
        assert FoundAt(mask, maxNodes, node, newNode, i + 1);
        return newNode;
      }
      i := i + 1;
    }
    forall n: nat ensures !Available(mask, maxNodes, n) {
      if n < maxNodes {
        var d := AroundReaches(node, maxNodes, n);
      }
    }
    return node;
  }

  // ---------- the plan of bind calls ----------

  /** One mbind call: the bytes [start, start + size) and the node mask passed. */
  datatype Call = Call(start: nat, size: int, mask: seq<bool>)

  function OneHot(len: nat, node: nat): seq<bool> {
    seq(len, i => i == node)
  }

  /** Start of the run that is open after i chunks; nodes[0] is drawn before the loop, nodes[i] for chunk i. */
  function RunStart(nodes: seq<nat>, chunkSize: nat, i: nat): nat
    requires i < |nodes|
  {
    if i == 0 then 0
    else if nodes[i] == nodes[i - 1] then RunStart(nodes, chunkSize, i - 1)
    else (i - 1) * chunkSize
  }

  /** The calls made in the first i passes of the loop. */
  function Calls(nodes: seq<nat>, chunkSize: nat, len: nat, i: nat): seq<Call>
    requires i < |nodes|
  {
    if i == 0 then []
    else if nodes[i] == nodes[i - 1] then Calls(nodes, chunkSize, len, i - 1)
    else
      var from := RunStart(nodes, chunkSize, i - 1);
      Calls(nodes, chunkSize, len, i - 1) + [Call(from, (i - 1) * chunkSize - from, OneHot(len, nodes[i]))]
  }

  /** All the calls: those of the loop, and one for what is left at the end. */
  function Plan(nodes: seq<nat>, chunkSize: nat, bufferSize: nat, len: nat): seq<Call>
    requires nodes != []
  {
    var m := |nodes| - 1;
    var from := RunStart(nodes, chunkSize, m);
    Calls(nodes, chunkSize, len, m) + [Call(from, bufferSize - from, OneHot(len, nodes[m]))]
  }

  /** Calls cover [0, upto) in order, without gap or overlap. */
  ghost predicate Tiles(calls: seq<Call>, upto: int) {
    && (forall k | 0 <= k < |calls| :: calls[k].size >= 0)
    && (forall k | 0 <= k < |calls| - 1 :: calls[k].start + calls[k].size == calls[k + 1].start)
    && (if calls == [] then upto == 0
        else calls[0].start == 0 && calls[|calls| - 1].start + calls[|calls| - 1].size == upto)
  }

  lemma {:induction false} RunStartBelow(nodes: seq<nat>, chunkSize: nat, i: nat)
    requires i < |nodes|
    ensures RunStart(nodes, chunkSize, i) <= i * chunkSize
    ensures i > 0 ==> RunStart(nodes, chunkSize, i) <= (i - 1) * chunkSize
  {
    if i > 0 {
      RunStartBelow(nodes, chunkSize, i - 1);
      assert i * chunkSize == (i - 1) * chunkSize + chunkSize;
    }
  }

  lemma {:induction false} CallsTile(nodes: seq<nat>, chunkSize: nat, len: nat, i: nat)
    requires i < |nodes|
    ensures Tiles(Calls(nodes, chunkSize, len, i), RunStart(nodes, chunkSize, i))
    ensures |Calls(nodes, chunkSize, len, i)| <= i
  {
    if i > 0 {
      CallsTile(nodes, chunkSize, len, i - 1);
      RunStartBelow(nodes, chunkSize, i - 1);
    }
  }

  predicate Spans(c: Call, x: nat) {
    c.start <= x < c.start + c.size
  }

  lemma {:induction false} TilesEnd(calls: seq<Call>, upto: int, k: nat)
    requires Tiles(calls, upto) && k < |calls|
    ensures calls[k].start + calls[k].size <= upto
    decreases |calls|
  {
    var n := |calls| - 1;
    if k < n {
      TilesEnd(calls[..n], calls[n].start, k);
    }
  }

  /** Byte x lies in exactly one of the calls. */
  ghost predicate CoveredOnce(calls: seq<Call>, x: nat) {
    && (exists k :: 0 <= k < |calls| && Spans(calls[k], x))
    && (forall j, k | 0 <= j < k < |calls| && Spans(calls[j], x) :: !Spans(calls[k], x))
  }

  /** Calls that tile cover every byte once. */
  lemma {:induction false} TilesOnce(calls: seq<Call>, upto: int, x: nat)
    requires Tiles(calls, upto) && x < upto
    ensures CoveredOnce(calls, x)
    decreases |calls|
  {
    var n := |calls| - 1;
    var before, last := calls[..n], calls[n];
    assert Tiles(before, last.start);
    forall j: nat | j < n && Spans(calls[j], x) ensures x < last.start {
      TilesEnd(before, last.start, j);
      assert before[j] == calls[j];
    }
    if x < last.start {
      TilesOnce(before, last.start, x);
      var k :| 0 <= k < |before| && Spans(before[k], x);
      assert Spans(calls[k], x);
      assert forall j | 0 <= j < n :: before[j] == calls[j];
    } else {
      assert Spans(calls[n], x);
    }
  }

  /** The calls tile the whole buffer, and each of its bytes is in exactly one of them. */
  lemma PlanTiles(nodes: seq<nat>, chunkSize: nat, bufferSize: nat, len: nat)
    requires |nodes| > 1 && (|nodes| - 2) * chunkSize < bufferSize
    ensures Tiles(Plan(nodes, chunkSize, bufferSize, len), bufferSize)
    ensures |Plan(nodes, chunkSize, bufferSize, len)| <= |nodes|
    ensures forall x: nat | x < bufferSize :: CoveredOnce(Plan(nodes, chunkSize, bufferSize, len), x)
  {
    hide Calls, RunStart, Tiles, CoveredOnce, OneHot;
    var m := |nodes| - 1;
    CallsTile(nodes, chunkSize, len, m);
    RunStartBelow(nodes, chunkSize, m);
    var from := RunStart(nodes, chunkSize, m);
    TilesMore(Calls(nodes, chunkSize, len, m), from, Call(from, bufferSize - from, OneHot(len, nodes[m])));
    TilesAllOnce(Plan(nodes, chunkSize, bufferSize, len), bufferSize);
  }

  lemma TilesMore(calls: seq<Call>, upto: int, c: Call)
    requires Tiles(calls, upto) && c.start == upto && c.size >= 0
    ensures Tiles(calls + [c], upto + c.size)
  {
  }

  lemma TilesAllOnce(calls: seq<Call>, upto: nat)
    requires Tiles(calls, upto)
    ensures forall x: nat | x < upto :: CoveredOnce(calls, x)
  {
    hide Tiles, CoveredOnce;
    forall x: nat | x < upto ensures CoveredOnce(calls, x) {
      TilesOnce(calls, upto, x);
    }
  }

  /** The mask has exactly one bit set, that of a drawn node. */
  ghost predicate NamesDraw(c: Call, nodes: seq<nat>, len: nat) {
    && |c.mask| == len
    && exists j :: 1 <= j < |nodes| && nodes[j] < len && forall b | 0 <= b < len :: c.mask[b] <==> b == nodes[j]
  }

  lemma OneHotNames(c: Call, nodes: seq<nat>, len: nat, j: nat)
    requires 1 <= j < |nodes| && nodes[j] < len && c.mask == OneHot(len, nodes[j])
    ensures NamesDraw(c, nodes, len)
  {
  }

  lemma {:induction false} CallsNameDraws(nodes: seq<nat>, chunkSize: nat, len: nat, i: nat)
    requires i < |nodes| && chunkSize > 0 && forall j | 0 <= j < |nodes| :: nodes[j] < len
    ensures forall k | 0 <= k < |Calls(nodes, chunkSize, len, i)| :: NamesDraw(Calls(nodes, chunkSize, len, i)[k], nodes, len)
    ensures forall k | 0 <= k < |Calls(nodes, chunkSize, len, i)| ::
      Calls(nodes, chunkSize, len, i)[k].size == 0 <==> k == 0 && nodes[1] != nodes[0]
    ensures i > 0 && nodes[1] != nodes[0] ==> Calls(nodes, chunkSize, len, i) != []
  {
    hide OneHot, NamesDraw;
    if i > 0 {
      CallsNameDraws(nodes, chunkSize, len, i - 1);
      RunStartBelow(nodes, chunkSize, i - 1);
      assert i > 1 ==> (i - 1) * chunkSize == (i - 2) * chunkSize + chunkSize;
      if nodes[i] != nodes[i - 1] {
        var calls := Calls(nodes, chunkSize, len, i);
        OneHotNames(calls[|calls| - 1], nodes, len, i);
      }
    }
  }

  /** Every call sets exactly one mask bit, that of a drawn node; only the first can be empty, when the first two draws differ. */
  lemma EachCallOneNode(nodes: seq<nat>, chunkSize: nat, bufferSize: nat, len: nat, k: nat)
    requires |nodes| > 1 && chunkSize > 0 && (|nodes| - 2) * chunkSize < bufferSize
    requires forall j | 0 <= j < |nodes| :: nodes[j] < len
    requires k < |Plan(nodes, chunkSize, bufferSize, len)|
    ensures NamesDraw(Plan(nodes, chunkSize, bufferSize, len)[k], nodes, len)
    ensures Plan(nodes, chunkSize, bufferSize, len)[k].size == 0 <==> k == 0 && nodes[1] != nodes[0]
  {
    hide OneHot, NamesDraw;
    var m := |nodes| - 1;
    CallsNameDraws(nodes, chunkSize, len, m);
    RunStartBelow(nodes, chunkSize, m);
    var from := RunStart(nodes, chunkSize, m);
    OneHotNames(Call(from, bufferSize - from, OneHot(len, nodes[m])), nodes, len, m);
  }

  // ---------- which node a chunk ends up on ----------

  /** The node the call that covers chunk i names: that of the next different draw, or its own when none follows. */
  function BoundTo(nodes: seq<nat>, i: nat): nat
    requires i < |nodes|
    decreases |nodes| - i
  {
    if i + 1 == |nodes| then nodes[i]
    else if nodes[i + 1] != nodes[i] then nodes[i + 1]
    else BoundTo(nodes, i + 1)
  }

  ghost predicate CoversChunk(c: Call, chunkSize: nat, bufferSize: nat, i: nat)
    requires i > 0
  {
    c.start <= (i - 1) * chunkSize && (i * chunkSize <= c.start + c.size || c.start + c.size == bufferSize)
  }

  /** While chunk i's run is open it will be bound to BoundTo(i). */
  lemma {:induction false} OpenRun(nodes: seq<nat>, i: nat, j: nat)
    requires i <= j < |nodes| && forall k | i < k <= j :: nodes[k] == nodes[k - 1]
    ensures BoundTo(nodes, i) == BoundTo(nodes, j)
    decreases j - i
  {
    if i < j {
      assert nodes[i + 1] == nodes[i];
      OpenRun(nodes, i + 1, j);
    }
  }

  ghost predicate Open(nodes: seq<nat>, chunkSize: nat, c: nat, i: nat)
    requires 1 <= c <= i < |nodes|
  {
    RunStart(nodes, chunkSize, i) <= (c - 1) * chunkSize && forall k | c < k <= i :: nodes[k] == nodes[k - 1]
  }

  ghost predicate Covered(nodes: seq<nat>, chunkSize: nat, bufferSize: nat, len: nat, calls: seq<Call>, c: nat)
    requires 1 <= c < |nodes|
  {
    exists k :: 0 <= k < |calls| && CoversChunk(calls[k], chunkSize, bufferSize, c)
             && calls[k].mask == OneHot(len, BoundTo(nodes, c))
  }

  lemma CoveredByMore(nodes: seq<nat>, chunkSize: nat, bufferSize: nat, len: nat, calls: seq<Call>, more: seq<Call>, c: nat)
    requires 1 <= c < |nodes|
    requires Covered(nodes, chunkSize, bufferSize, len, calls, c)
    ensures Covered(nodes, chunkSize, bufferSize, len, calls + more, c)
  {
    var k :| 0 <= k < |calls| && CoversChunk(calls[k], chunkSize, bufferSize, c)
           && calls[k].mask == OneHot(len, BoundTo(nodes, c));
    assert (calls + more)[k] == calls[k];
  }

  /** After i passes every earlier chunk is in the open run or covered by a call. */
  lemma {:induction false} ChunkPlaced(nodes: seq<nat>, chunkSize: nat, bufferSize: nat, len: nat, c: nat, i: nat)
    requires 1 <= c <= i < |nodes|
    ensures Open(nodes, chunkSize, c, i)
         || Covered(nodes, chunkSize, bufferSize, len, Calls(nodes, chunkSize, len, i), c)
    decreases i
  {
    if c == i {
      RunStartBelow(nodes, chunkSize, i);
    } else {
      ChunkPlaced(nodes, chunkSize, bufferSize, len, c, i - 1);
      if nodes[i] != nodes[i - 1] {
        var before, from := Calls(nodes, chunkSize, len, i - 1), RunStart(nodes, chunkSize, i - 1);
        var call := Call(from, (i - 1) * chunkSize - from, OneHot(len, nodes[i]));
        if Open(nodes, chunkSize, c, i - 1) {
          OpenRun(nodes, c, i - 1);
          MulLe(chunkSize, c, i - 1);
          assert (before + [call])[|before|] == call;
        } else {
          CoveredByMore(nodes, chunkSize, bufferSize, len, before, [call], c);
        }
      }
    }
  }

  /** Every chunk is covered by a call that binds it to BoundTo. */
  lemma ChunkBound(nodes: seq<nat>, chunkSize: nat, bufferSize: nat, len: nat, c: nat)
    requires 1 <= c < |nodes|
    ensures Covered(nodes, chunkSize, bufferSize, len, Plan(nodes, chunkSize, bufferSize, len), c)
  {
    var m := |nodes| - 1;
    var before, from := Calls(nodes, chunkSize, len, m), RunStart(nodes, chunkSize, m);
    var call := Call(from, bufferSize - from, OneHot(len, nodes[m]));
    ChunkPlaced(nodes, chunkSize, bufferSize, len, c, m);
    if Open(nodes, chunkSize, c, m) {
      OpenRun(nodes, c, m);
      assert (before + [call])[|before|] == call;
    } else {
      CoveredByMore(nodes, chunkSize, bufferSize, len, before, [call], c);
    }
  }

  /** A chunk is bound to the node drawn for it exactly when every later draw is that node too: all runs but the last go to the next run's node. */
  lemma {:induction false} BoundToOwnDrawIff(nodes: seq<nat>, i: nat)
    requires i < |nodes|
    ensures BoundTo(nodes, i) == nodes[i] <==> forall k | i <= k < |nodes| :: nodes[k] == nodes[i]
    decreases |nodes| - i
  {
    if i + 1 < |nodes| {
      assert nodes[i + 1] != nodes[i] ==> !(forall k | i <= k < |nodes| :: nodes[k] == nodes[i]);
      BoundToOwnDrawIff(nodes, i + 1);
    }
  }

  /**
    Two available nodes, draws 1, 1 and 0, and a buffer of two chunks: chunk 1 is
    drawn on node 0 and chunk 2 on node 1, but both are bound to node 1.
   */
  lemma ChunkOnTheWrongNode(draw: nat -> nat, nodes: seq<nat>, len: nat)
    requires draw(0) == 1 && draw(1) == 1 && draw(2) == 0
    requires Drawn([true, true], 2, draw, nodes) && (|nodes| - 2) * 4096 < 8192 <= (|nodes| - 1) * 4096
    ensures nodes == [0, 0, 1] && BoundTo(nodes, 1) == 1
    ensures Plan(nodes, 4096, 8192, len) == [Call(0, 4096, OneHot(len, 1)), Call(4096, 4096, OneHot(len, 1))]
  {
    hide OneHot, IsNext, Plan, Calls, RunStart;
    TwoNodes(1, 0);
    TwoNodes(0, 1);
    NextIsUnique([true, true], 2, 1, nodes[0], 0);
    NextIsUnique([true, true], 2, 1, nodes[1], 0);
    NextIsUnique([true, true], 2, 0, nodes[2], 1);
    assert nodes == [0, 0, 1];
    PlanOfThree(len);
  }

  lemma PlanOfThree(len: nat)
    ensures Plan([0, 0, 1], 4096, 8192, len) == [Call(0, 4096, OneHot(len, 1)), Call(4096, 4096, OneHot(len, 1))]
  {
    hide OneHot;
    var nodes := [0, 0, 1];
    assert RunStart(nodes, 4096, 0) == 0 && Calls(nodes, 4096, len, 0) == [];
    assert RunStart(nodes, 4096, 1) == 0 && Calls(nodes, 4096, len, 1) == [];
    assert RunStart(nodes, 4096, 2) == 4096;
    assert Calls(nodes, 4096, len, 2) == [Call(0, 4096, OneHot(len, 1))];
  }

  lemma TwoNodes(node: nat, next: nat)
    requires (node == 1 && next == 0) || (node == 0 && next == 1)
    ensures IsNext([true, true], 2, node, next)
  {
    assert FoundAt([true, true], 2, node, next, 1);
  }

  // ---------- the cap on the number of chunks ----------

  function MaxChunks(parts: nat): nat {
    if parts > 0 then 256 * 1024 / parts else 65536
  }

  /** The cap lets all instances and nodes together make at most 2^18 calls, and no smaller cap is used. */
  lemma CapIs(parts: nat)
    ensures parts == 0 ==> MaxChunks(parts) == 65536
    ensures parts > 0 ==> parts * MaxChunks(parts) <= 262144 < parts * (MaxChunks(parts) + 1)
  {
  }

  /** x & ~(p - 1), for p a power of two. */
  function RoundDown(x: nat, p: nat): nat
    requires p > 0
  {
    x - x % p
  }

  function Chunks(pages: nat, maxChunks: nat): nat
    decreases pages
  {
    if pages > maxChunks then Chunks(pages / 2, maxChunks) else pages
  }

  lemma {:induction false} ChunksIsShift(pages: nat, maxChunks: nat) returns (k: nat)
    ensures var c := Chunks(pages, maxChunks);
      c <= maxChunks && Pow2(k) * c <= pages < Pow2(k) * (c + 1)
    decreases pages
  {
    if pages > maxChunks {
      k := ChunksIsShift(pages / 2, maxChunks);
      ShiftedTwice(pages, Pow2(k), Chunks(pages / 2, maxChunks));
      k := k + 1;
    } else {
      k := 0;
    }
  }

  lemma ShiftedTwice(pages: nat, p: nat, c: nat)
    requires p * c <= pages / 2 < p * (c + 1)
    ensures (2 * p) * c <= pages < (2 * p) * (c + 1)
  {
    assert (2 * p) * c == 2 * (p * c);
    assert (2 * p) * (c + 1) == 2 * (p * (c + 1));
  }

  /** Halving goes no further than the cap asks: what is left is the size itself, or more than half the cap. */
  lemma {:induction false} ChunksNotLess(pages: nat, maxChunks: nat)
    ensures Chunks(pages, maxChunks) == pages || 2 * Chunks(pages, maxChunks) + 1 > maxChunks
    decreases pages
  {
    if pages > maxChunks {
      ChunksNotLess(pages / 2, maxChunks);
    }
  }

  /** A chunk is a whole number of pages, at least one, and no more than its share of the buffer unless it is one page. */
  lemma ChunkSizeIsPages(bufferSize: nat, pageSize: nat, chunks: nat)
    requires pageSize > 0 && chunks > 0
    ensures ChunkSize(bufferSize, pageSize, chunks) % pageSize == 0 && ChunkSize(bufferSize, pageSize, chunks) >= pageSize
    ensures ChunkSize(bufferSize, pageSize, chunks) > pageSize ==>
      ChunkSize(bufferSize, pageSize, chunks) <= bufferSize / chunks < ChunkSize(bufferSize, pageSize, chunks) + pageSize
  {
    var share := bufferSize / chunks;
    assert share == pageSize * (share / pageSize) + share % pageSize;
    DivModUnique(pageSize * (share / pageSize), share / pageSize, 0, pageSize);
    DivModUnique(pageSize, 1, 0, pageSize);
  }

  function ChunkSize(bufferSize: nat, pageSize: nat, chunks: nat): nat
    requires pageSize > 0 && chunks > 0
  {
    var size := RoundDown(bufferSize / chunks, pageSize);
    if size < pageSize then pageSize else size
  }

  lemma QuotientAtLeast(x: nat, m: nat, q: nat)
    requires m > 0 && m * q <= x
    ensures x / m >= q
  {
    if x / m < q {
      MulLe(m, x / m + 1, q);
    }
  }

  lemma RoundDownKeepsMultiple(x: nat, p: nat, k: nat)
    requires p > 0 && p * k <= x
    ensures RoundDown(x, p) >= p * k
  {
    QuotientAtLeast(x, p, k);
    assert RoundDown(x, p) == p * (x / p);
    MulLe(p, k, x / p);
  }

  lemma SizeAtLeast(bufferSize: nat, pageSize: nat, pages: nat, p: nat, chunks: nat)
    requires pageSize > 0 && chunks > 0 && p * chunks <= pages && pageSize * pages <= bufferSize
    ensures ChunkSize(bufferSize, pageSize, chunks) >= pageSize * p
  {
    MulLe(pageSize, p * chunks, pages);
    assert chunks * (pageSize * p) == pageSize * (p * chunks);
    QuotientAtLeast(bufferSize, chunks, pageSize * p);
    RoundDownKeepsMultiple(bufferSize / chunks, pageSize, p);
  }

  lemma CoverBound(bufferSize: nat, pageSize: nat, pages: nat, p: nat, chunks: nat, size: nat)
    requires bufferSize < pageSize * (pages + 1) && pages < p * (chunks + 1) && size >= pageSize * p
    ensures bufferSize <= (chunks + 1) * size
  {
    MulLe(chunks + 1, pageSize * p, size);
    MulLe(pageSize, pages + 1, p * (chunks + 1));
    assert (chunks + 1) * (pageSize * p) == pageSize * (p * (chunks + 1));
  }

  /** Rounding the chunk size down to whole pages costs at most one chunk more than the cap allows. */
  lemma ChunksCover(bufferSize: nat, pageSize: nat, maxChunks: nat)
    requires pageSize > 0
    ensures var chunks := Chunks(bufferSize / pageSize, maxChunks);
      chunks <= maxChunks && (chunks > 0 ==> bufferSize <= (chunks + 1) * ChunkSize(bufferSize, pageSize, chunks))
  {
    hide Chunks, ChunkSize, Pow2;
    var pages := bufferSize / pageSize;
    WholePages(bufferSize, pageSize, pages);
    var chunks := Chunks(pages, maxChunks);
    var k := ChunksIsShift(pages, maxChunks);
    if chunks > 0 {
      SizeAtLeast(bufferSize, pageSize, pages, Pow2(k), chunks);
      CoverBound(bufferSize, pageSize, pages, Pow2(k), chunks, ChunkSize(bufferSize, pageSize, chunks));
    }
  }

  lemma WholePages(bufferSize: nat, pageSize: nat, pages: nat)
    requires pageSize > 0 && pages == bufferSize / pageSize
    ensures pageSize * pages <= bufferSize < pageSize * (pages + 1)
  {
  }

  // ---------- the loop ----------

  class Mask {
    const nodes: nat          // number of nodes, also the bound of each random draw
    const maxNodes: nat
    var mask: array<bool>

    ghost predicate Valid()
      reads this
    {
      1 <= nodes <= maxNodes <= mask.Length
    }

    constructor (nodes: nat, maxNodes: nat, bits: nat)
      requires 1 <= nodes <= maxNodes <= bits
      ensures Valid() && fresh(mask) && this.nodes == nodes && this.maxNodes == maxNodes && mask.Length == bits
      ensures mask[..] == seq(bits, _ => false)
    {
      this.nodes, this.maxNodes := nodes, maxNodes;
      mask := new bool[bits](_ => false);
    }
  }

  /** The node of a draw below `nodes` is an available one as soon as there is one, and always has a bit in the mask. */
  lemma DrawnNode(available: seq<bool>, maxNodes: nat, nodes: nat, draw: nat, r: nat)
    requires draw < nodes && IsNext(available, maxNodes, draw, r)
    ensures r < maxNodes || r < nodes
    ensures (exists n: nat :: Available(available, maxNodes, n)) ==> Available(available, maxNodes, r)
  {
  }

  /** Node i of the list is the next available one after draw i. */
  ghost predicate Drawn(available: seq<bool>, maxNodes: nat, draw: nat -> nat, nodes: seq<nat>) {
    forall i: nat | i < |nodes| :: IsNext(available, maxNodes, draw(i), nodes[i])
  }

  lemma DrawnMore(available: seq<bool>, maxNodes: nat, draw: nat -> nat, nodes: seq<nat>, node: nat)
    requires nodes == [] || Drawn(available, maxNodes, draw, nodes)
    requires IsNext(available, maxNodes, draw(|nodes|), node)
    ensures Drawn(available, maxNodes, draw, nodes + [node])
  {
    hide IsNext;
  }

  /** draw(i) is the i-th stress_mwc32modn(nodes); goes(i) the continue flag at the i-th change of node. */
  method BindRuns(available: seq<bool>, maxNodes: nat, numaMask: Mask, bufferSize: nat, chunkSize: nat,
                  draw: nat -> nat, goes: nat -> bool)
    returns (calls: seq<Call>, ghost nodes: seq<nat>, stopped: bool)
    requires numaMask.Valid() && maxNodes <= |available| && maxNodes <= numaMask.mask.Length
    requires forall i: nat :: draw(i) < numaMask.nodes
    requires bufferSize > 0 && chunkSize > 0
    modifies numaMask.mask
    ensures numaMask.mask[..] == seq(numaMask.mask.Length, _ => false)
    ensures nodes != [] && Drawn(available, maxNodes, draw, nodes)
    ensures forall i | 0 <= i < |nodes| :: nodes[i] < numaMask.mask.Length
    ensures stopped ==> !goes(|calls|) && (|nodes| - 1) * chunkSize < bufferSize
    ensures forall i: nat | i < |calls| - (if stopped then 0 else 1) :: goes(i)
    ensures stopped ==> exists r :: IsNext(available, maxNodes, draw(|nodes|), r) && r != nodes[|nodes| - 1]
    ensures stopped ==> calls == Calls(nodes, chunkSize, numaMask.mask.Length, |nodes| - 1)
    ensures !stopped ==> |nodes| > 1 && (|nodes| - 2) * chunkSize < bufferSize <= (|nodes| - 1) * chunkSize
    ensures !stopped ==> calls == Plan(nodes, chunkSize, bufferSize, numaMask.mask.Length)
  {
    hide Calls, RunStart, IsNext, Drawn, OneHot, Plan;
    var len := numaMask.mask.Length;
    stopped := false;
    var node := NextNode(draw(0), available, maxNodes);
    DrawnNode(available, maxNodes, numaMask.nodes, draw(0), node);
    DrawnMore(available, maxNodes, draw, [], node);
    assert [] + [node] == [node];
    var drawn, asked, prevNode := 1, 0, node;
    nodes, calls := [node], [];
    var ptr, prevPtr := 0, 0;
    forall i | 0 <= i < len {
      numaMask.mask[i] := false;
    }
    NoPasses(nodes, chunkSize, len);
    while ptr < bufferSize
      invariant nodes != [] && ptr == (|nodes| - 1) * chunkSize && prevNode == nodes[|nodes| - 1] == node
      invariant |nodes| > 1 ==> (|nodes| - 2) * chunkSize < bufferSize
      invariant drawn == |nodes| && Drawn(available, maxNodes, draw, nodes)
      invariant asked == |calls| && forall i: nat | i < asked :: goes(i)
      invariant forall i | 0 <= i < |nodes| :: nodes[i] < len
      invariant calls == Calls(nodes, chunkSize, len, |nodes| - 1) && prevPtr == RunStart(nodes, chunkSize, |nodes| - 1)
      invariant numaMask.mask[..] == seq(len, _ => false)
    {
      node := NextNode(draw(drawn), available, maxNodes);
      DrawnNode(available, maxNodes, numaMask.nodes, draw(drawn), node);
      drawn := drawn + 1;
      if node != prevNode {
        if !goes(asked) {
          stopped := true;
          return;
        }
        asked := asked + 1;
        var call := Bind(numaMask, node, prevPtr, ptr - prevPtr);
        calls := calls + [call];
      }
      OnePass(nodes, chunkSize, len, node);
      DrawnMore(available, maxNodes, draw, nodes, node);
      if node != prevNode {
        prevPtr, prevNode := ptr, node;
      }
      nodes := nodes + [node];
      ptr := ptr + chunkSize;
    }
    RunStartBelow(nodes, chunkSize, |nodes| - 1);
    var size := bufferSize - prevPtr;
    if size > 0 {
      var call := Bind(numaMask, node, prevPtr, size);
      calls := calls + [call];
    }
    PlanIs(nodes, chunkSize, bufferSize, len);
  }

  lemma PlanIs(nodes: seq<nat>, chunkSize: nat, bufferSize: nat, len: nat)
    requires nodes != []
    ensures var m := |nodes| - 1;
      var from := RunStart(nodes, chunkSize, m);
      Plan(nodes, chunkSize, bufferSize, len) == Calls(nodes, chunkSize, len, m) + [Call(from, bufferSize - from, OneHot(len, nodes[m]))]
  {
  }

  lemma NoPasses(nodes: seq<nat>, chunkSize: nat, len: nat)
    requires |nodes| == 1
    ensures Calls(nodes, chunkSize, len, 0) == [] && RunStart(nodes, chunkSize, 0) == 0
  {
  }

  lemma {:induction false} SameWithMore(nodes: seq<nat>, chunkSize: nat, len: nat, node: nat, i: nat)
    requires i < |nodes|
    ensures RunStart(nodes + [node], chunkSize, i) == RunStart(nodes, chunkSize, i)
    ensures Calls(nodes + [node], chunkSize, len, i) == Calls(nodes, chunkSize, len, i)
  {
    if i > 0 {
      SameWithMore(nodes, chunkSize, len, node, i - 1);
    }
  }

  /** What one more pass of the loop adds to the plan. */
  lemma OnePass(nodes: seq<nat>, chunkSize: nat, len: nat, node: nat)
    requires nodes != []
    ensures var i := |nodes|;
      var from := RunStart(nodes, chunkSize, i - 1);
      && RunStart(nodes + [node], chunkSize, i) == (if node == nodes[i - 1] then from else (i - 1) * chunkSize)
      && Calls(nodes + [node], chunkSize, len, i) == Calls(nodes, chunkSize, len, i - 1)
         + if node == nodes[i - 1] then [] else [Call(from, (i - 1) * chunkSize - from, OneHot(len, node))]
  {
    SameWithMore(nodes, chunkSize, len, node, |nodes| - 1);
  }

  /** Set the node's bit, call mbind, clear the bit again. */
  method Bind(numaMask: Mask, node: nat, start: nat, size: int) returns (call: Call)
    requires node < numaMask.mask.Length
    requires numaMask.mask[..] == seq(numaMask.mask.Length, _ => false)
    modifies numaMask.mask
    ensures numaMask.mask[..] == old(numaMask.mask[..])
    ensures call == Call(start, size, OneHot(numaMask.mask.Length, node))
  {
    numaMask.mask[node] := true;
    assert numaMask.mask[..] == OneHot(numaMask.mask.Length, node);
    call := Call(start, size, numaMask.mask[..]);
    numaMask.mask[node] := false;
  }

  /** The whole function: nothing at all for an empty plan, otherwise the chunks of ChunkSize bound run by run. */
  method RandomizePages(instances: nat, available: seq<bool>, maxNodes: nat, numaMask: Mask, bufferSize: nat, pageSize: nat,
                        draw: nat -> nat, goes: nat -> bool)
    returns (calls: seq<Call>, ghost nodes: seq<nat>, stopped: bool)
    requires numaMask.Valid() && maxNodes <= |available| && maxNodes <= numaMask.mask.Length
    requires forall i: nat :: draw(i) < numaMask.nodes
    modifies numaMask.mask
    ensures var chunks := if pageSize == 0 then 0 else Chunks(bufferSize / pageSize, MaxChunks(numaMask.nodes * instances));
      if chunks == 0 then calls == [] && numaMask.mask[..] == old(numaMask.mask[..])
      else
        var size, len := ChunkSize(bufferSize, pageSize, chunks), numaMask.mask.Length;
        && numaMask.mask[..] == seq(len, _ => false)
        && 1 <= |nodes| <= chunks + 2
        && Drawn(available, maxNodes, draw, nodes) && (forall i | 0 <= i < |nodes| :: nodes[i] < len)
        && (forall i: nat | i < |calls| - (if stopped then 0 else 1) :: goes(i))
        && (stopped ==> !goes(|calls|) && calls == Calls(nodes, size, len, |nodes| - 1))
        && (!stopped ==> |nodes| > 1 && (|nodes| - 2) * size < bufferSize && calls == Plan(nodes, size, bufferSize, len))
  {
    hide Calls, Plan, Drawn, IsNext, OneHot, Chunks, ChunkSize, MaxChunks, RoundDown;
    calls, nodes, stopped := [], [], false;
    if pageSize == 0 {
      return;
    }
    var chunks := LimitChunks(bufferSize, pageSize, numaMask.nodes * instances);
    if chunks == 0 {
      return;
    }
    var chunkSize := RoundDown(bufferSize / chunks, pageSize);
    chunkSize := if chunkSize < pageSize then pageSize else chunkSize;
    ChunkSizeIs(bufferSize, pageSize, chunks, chunkSize);
    ChunksCover(bufferSize, pageSize, MaxChunks(numaMask.nodes * instances));
    NonEmpty(bufferSize, pageSize, MaxChunks(numaMask.nodes * instances));
    calls, nodes, stopped := BindRuns(available, maxNodes, numaMask, bufferSize, chunkSize, draw, goes);
    PassesBelow(bufferSize, chunkSize, chunks, |nodes| - (if stopped then 1 else 2));
  }

  /** Halves the number of pages until it meets the cap. */
  method LimitChunks(bufferSize: nat, pageSize: nat, parts: nat) returns (chunks: nat)
    requires pageSize > 0
    ensures chunks == Chunks(bufferSize / pageSize, MaxChunks(parts))
  {
    hide Chunks;
    var maxChunks := if parts > 0 then 256 * 1024 / parts else 65536;
    chunks := bufferSize / pageSize;
    while chunks > maxChunks
      invariant Chunks(chunks, maxChunks) == Chunks(bufferSize / pageSize, maxChunks)
    {
      ChunksStep(chunks, maxChunks);
      chunks := chunks / 2;
    }
    ChunksStep(chunks, maxChunks);
  }

  lemma ChunkSizeIs(bufferSize: nat, pageSize: nat, chunks: nat, chunkSize: nat)
    requires pageSize > 0 && chunks > 0
    requires var size := RoundDown(bufferSize / chunks, pageSize); chunkSize == if size < pageSize then pageSize else size
    ensures chunkSize == ChunkSize(bufferSize, pageSize, chunks) >= pageSize
  {
    hide RoundDown;
  }

  /** There are chunks only of a buffer that holds a page. */
  lemma NonEmpty(bufferSize: nat, pageSize: nat, maxChunks: nat)
    requires pageSize > 0 && Chunks(bufferSize / pageSize, maxChunks) > 0
    ensures bufferSize > 0
  {
    if bufferSize == 0 {
      DivModUnique(0, 0, 0, pageSize);
    }
  }

  lemma ChunksStep(pages: nat, maxChunks: nat)
    ensures Chunks(pages, maxChunks) == if pages > maxChunks then Chunks(pages / 2, maxChunks) else pages
  {
  }

  /** Fewer than chunks + 1 whole chunks lie before the last byte. */
  lemma PassesBelow(bufferSize: nat, chunkSize: nat, chunks: nat, before: int)
    requires before * chunkSize < bufferSize <= (chunks + 1) * chunkSize
    ensures before <= chunks
  {
    if before > chunks {
      MulLe(chunkSize, chunks + 1, before);
    }
  }
}
