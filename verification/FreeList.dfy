/** The intrusive free lists of the kernel heap (kernel/src/mm.rs). Free blocks hold their own
    book-keeping: a linked list of nodes, each with an embedded stack that grows downwards. */
module FreeLists {
  import opened MachineInts
  import opened PhysicalMemories

  // ---------------------------------------------------------------------------------------
  // Memory and blocks
  // ---------------------------------------------------------------------------------------

  /** The 8-byte words of the mapped heap, by address. */
  type Words = map<u64, u64>

  /** Amount of memory used by the metadata of a node. */
  const STACK_HEADER_SIZE: u64 := 16

  ghost predicate InBlock(b: u64, size: nat, a: u64) {
    b <= a < b + size
  }

  /** A block that can be on a free list: aligned, not null, and with all its words mapped. */
  ghost predicate Mapped(words: Words, b: u64, size: nat) {
    && b % 8 == 0 && b != 0 && b + size <= TWO_64
    && forall a: u64 :: a % 8 == 0 && InBlock(b, size, a) ==> a in words
  }

  predicate Disjoint(a: u64, b: u64, size: nat) {
    a + size <= b || b + size <= a
  }

  /** The blocks of a list do not overlap. */
  ghost predicate Apart(blocks: seq<u64>, size: nat) {
    forall i, j :: 0 <= i < j < |blocks| ==> Disjoint(blocks[i], blocks[j], size)
  }

  // ---------------------------------------------------------------------------------------
  // Nodes
  // ---------------------------------------------------------------------------------------

  /** A node of the linked list and the addresses on its stack, first pushed first. */
  datatype Node = Node(address: u64, slots: seq<u64>)

  predicate UsesStack(size: u64) { size > STACK_HEADER_SIZE }

  function MaxSlots(size: u64): (n: nat)
    requires UsesStack(size)
  {
    (size - STACK_HEADER_SIZE) / 8
  }

  /** A block of more than 16 bytes is a header of 16 bytes and slots of 8 bytes, and nothing is left over. */
  lemma SlotsFillBlock(size: u64)
    requires size >= 8 && size % 8 == 0
    ensures UsesStack(size) <==> size > 16
    ensures UsesStack(size) ==> 16 + 8 * MaxSlots(size) == size
  {
  }

  function SlotAddress(node: u64, slot: nat): nat {
    node + STACK_HEADER_SIZE + slot * 8
  }

  /** The words of the block of `node` describe it: the next node, the number of free slots, and
      the stack from the last slot downwards. */
  ghost predicate NodeOk(words: Words, size: u64, node: Node, next: u64) {
    && node.address in words && words[node.address] == next
    && if !UsesStack(size) then node.slots == []
       else
         && |node.slots| <= MaxSlots(size)
         && node.address + 8 in words && words[node.address + 8] == MaxSlots(size) - |node.slots|
         && forall i :: 0 <= i < |node.slots| ==> SlotHolds(words, size, node, i)
  }

  ghost predicate SlotHolds(words: Words, size: u64, node: Node, i: nat)
    requires UsesStack(size) && i < |node.slots| <= MaxSlots(size)
  {
    var a := SlotAddress(node.address, MaxSlots(size) - 1 - i);
    a in words && words[a] == node.slots[i]
  }

  function Top(nodes: seq<Node>): u64 {
    if nodes == [] then 0 else nodes[|nodes| - 1].address
  }

  /** The list that starts at `head` consists of `nodes`, the oldest first. */
  ghost predicate Chain(words: Words, size: u64, nodes: seq<Node>) {
    nodes == []
    || (var rest := nodes[..|nodes| - 1];
        NodeOk(words, size, nodes[|nodes| - 1], Top(rest)) && Chain(words, size, rest))
  }

  /** The free blocks of a chain, the one freed first in front. */
  function Blocks(nodes: seq<Node>): seq<u64> {
    if nodes == [] then []
    else
      var node := nodes[|nodes| - 1];
      Blocks(nodes[..|nodes| - 1]) + ([node.address] + node.slots)
  }

  /** Everything a free list promises about its blocks. */
  ghost predicate ListOk(words: Words, size: u64, nodes: seq<Node>) {
    && size >= 8 && size % 8 == 0
    && Chain(words, size, nodes)
    && Apart(Blocks(nodes), size)
    && forall i :: 0 <= i < |Blocks(nodes)| ==> Mapped(words, Blocks(nodes)[i], size)
  }

  /** Only words in the given blocks differ. */
  ghost predicate WritesOnly(before: Words, after: Words, blocks: seq<u64>, size: nat) {
    && after.Keys == before.Keys
    && forall a :: a in before && after[a] != before[a] ==> exists i :: 0 <= i < |blocks| && InBlock(blocks[i], size, a)
  }

  // ---------------------------------------------------------------------------------------
  // Lemmas about chains
  // ---------------------------------------------------------------------------------------

  lemma NodeOfChainIsBlock(nodes: seq<Node>, k: nat)
    requires k < |nodes|
    ensures nodes[k].address in Blocks(nodes)
    decreases |nodes|
  {
    if k < |nodes| - 1 { NodeOfChainIsBlock(nodes[..|nodes| - 1], k); }
  }

  /** A chain depends only on the words in the blocks of its nodes. */
  lemma {:induction false} ChainFrame(words: Words, after: Words, size: u64, nodes: seq<Node>)
    requires size >= 8 && size % 8 == 0 && Chain(words, size, nodes)
    requires forall k, a: u64 :: 0 <= k < |nodes| && InBlock(nodes[k].address, size, a) && a in words ==>
               a in after && after[a] == words[a]
    ensures Chain(after, size, nodes)
  {
    if nodes != [] {
      var n := |nodes| - 1;
      var rest := nodes[..n];
      forall k, a: u64 | 0 <= k < |rest| && InBlock(rest[k].address, size, a) && a in words
        ensures a in after && after[a] == words[a]
      {
        assert rest[k] == nodes[k];
      }
      ChainFrame(words, after, size, rest);
      NodeFrame(words, after, size, nodes[n], Top(rest));
    }
  }

  lemma NodeFrame(words: Words, after: Words, size: u64, node: Node, next: u64)
    requires size >= 8 && size % 8 == 0 && NodeOk(words, size, node, next)
    requires forall a: u64 :: InBlock(node.address, size, a) && a in words ==> a in after && after[a] == words[a]
    ensures NodeOk(after, size, node, next)
  {
    assert InBlock(node.address, size, node.address);
    if UsesStack(size) {
      assert InBlock(node.address, size, node.address + 8);
      forall i | 0 <= i < |node.slots| ensures SlotHolds(after, size, node, i) {
        assert SlotHolds(words, size, node, i);
        SlotInBlock(size, node.address, MaxSlots(size) - 1 - i);
      }
    }
  }

  lemma SlotInBlock(size: u64, node: u64, slot: nat)
    requires UsesStack(size) && size % 8 == 0 && slot < MaxSlots(size)
    ensures node + 16 <= SlotAddress(node, slot) <= node + size - 8
  {
  }

  /** Writing inside a block that is apart from the nodes of a chain does not disturb it. */
  lemma ChainIgnoresBlock(words: Words, after: Words, size: u64, nodes: seq<Node>, c: u64)
    requires size >= 8 && size % 8 == 0 && Chain(words, size, nodes)
    requires forall i :: 0 <= i < |Blocks(nodes)| ==> Disjoint(Blocks(nodes)[i], c, size)
    requires after.Keys == words.Keys
    requires forall a :: a in words && !InBlock(c, size, a) ==> after[a] == words[a]
    ensures Chain(after, size, nodes)
  {
    forall k, a: u64 | 0 <= k < |nodes| && InBlock(nodes[k].address, size, a) && a in words
      ensures a in after.Keys && after[a] == words[a]
    {
      NodeOfChainIsBlock(nodes, k);
    }
    ChainFrame(words, after, size, nodes);
  }

  lemma BlocksOfMore(nodes: seq<Node>, node: Node)
    ensures Blocks(nodes + [node]) == Blocks(nodes) + ([node.address] + node.slots)
    ensures Top(nodes + [node]) == node.address
  {
    assert (nodes + [node])[..|nodes|] == nodes;
  }

  lemma ApartMore(blocks: seq<u64>, b: u64, size: nat)
    requires Apart(blocks, size) && forall i :: 0 <= i < |blocks| ==> Disjoint(blocks[i], b, size)
    ensures Apart(blocks + [b], size)
  {
  }

  lemma MappedStays(words: Words, after: Words, b: u64, size: nat)
    requires Mapped(words, b, size) && after.Keys == words.Keys
    ensures Mapped(after, b, size)
  {
    forall a: u64 | a % 8 == 0 && InBlock(b, size, a) ensures a in after.Keys { }
  }

  lemma AllMappedStay(words: Words, after: Words, blocks: seq<u64>, size: nat)
    requires forall i :: 0 <= i < |blocks| ==> Mapped(words, blocks[i], size)
    requires after.Keys == words.Keys
    ensures forall i :: 0 <= i < |blocks| ==> Mapped(after, blocks[i], size)
  {
    forall i | 0 <= i < |blocks| ensures Mapped(after, blocks[i], size) {
      MappedStays(words, after, blocks[i], size);
    }
  }

  /** A block that may be pushed: mapped and apart from everything on the list. */
  ghost predicate Pushable(words: Words, size: u64, nodes: seq<Node>, b: u64) {
    Mapped(words, b, size) && forall i :: 0 <= i < |Blocks(nodes)| ==> Disjoint(Blocks(nodes)[i], b, size)
  }

  /** Only words in the block of a node were written, and now they describe the node: it can
      stand on top of the rest of the chain. */
  lemma TopRewritten(words: Words, after: Words, size: u64, rest: seq<Node>, node: Node)
    requires size >= 8 && size % 8 == 0 && Chain(words, size, rest) && NodeOk(after, size, node, Top(rest))
    requires forall i :: 0 <= i < |Blocks(rest)| ==> Disjoint(Blocks(rest)[i], node.address, size)
    requires WritesOnly(words, after, [node.address], size)
    ensures Chain(after, size, rest + [node])
    ensures Blocks(rest + [node]) == Blocks(rest) + ([node.address] + node.slots)
  {
    hide NodeOk;
    forall a | a in words && !InBlock(node.address, size, a) ensures after[a] == words[a] { }
    ChainIgnoresBlock(words, after, size, rest, node.address);
    assert (rest + [node])[..|rest|] == rest;
    BlocksOfMore(rest, node);
  }

  lemma BlockOnTop(words: Words, size: u64, nodes: seq<Node>)
    requires ListOk(words, size, nodes) && nodes != []
    ensures var n := |nodes| - 1;
      && Chain(words, size, nodes[..n]) && NodeOk(words, size, nodes[n], Top(nodes[..n]))
      && Mapped(words, nodes[n].address, size)
      && Blocks(nodes) == Blocks(nodes[..n]) + ([nodes[n].address] + nodes[n].slots)
      && forall i :: 0 <= i < |Blocks(nodes[..n])| ==> Disjoint(Blocks(nodes[..n])[i], nodes[n].address, size)
  {
    var n := |nodes| - 1;
    var rest := Blocks(nodes[..n]);
    assert Blocks(nodes)[|rest|] == nodes[n].address;
    forall i | 0 <= i < |rest| ensures Disjoint(rest[i], nodes[n].address, size) {
      assert Blocks(nodes)[i] == rest[i];
    }
  }

  /** Pushing a block as a new node. */
  lemma PushNode(words: Words, after: Words, size: u64, nodes: seq<Node>, b: u64)
    requires ListOk(words, size, nodes) && Pushable(words, size, nodes, b)
    requires after == if UsesStack(size) then words[b + 8 := MaxSlots(size)][b := Top(nodes)] else words[b := Top(nodes)]
    ensures ListOk(after, size, nodes + [Node(b, [])])
    ensures Blocks(nodes + [Node(b, [])]) == Blocks(nodes) + [b]
    ensures WritesOnly(words, after, [b], size)
  {
    hide Chain, Blocks;
    assert InBlock(b, size, b) && b in words;
    if UsesStack(size) { assert InBlock(b, size, b + 8) && b + 8 in words; }
    forall a | a in words && after[a] != words[a] ensures InBlock([b][0], size, a) { }
    TopRewritten(words, after, size, nodes, Node(b, []));
    ApartMore(Blocks(nodes), b, size);
    AllMappedStay(words, after, Blocks(nodes) + [b], size);
  }

  /** Storing a block on the stack of the top node. */
  lemma PushSlot(words: Words, after: Words, size: u64, nodes: seq<Node>, b: u64)
    requires ListOk(words, size, nodes) && Pushable(words, size, nodes, b)
    requires nodes != [] && UsesStack(size)
    requires var top := nodes[|nodes| - 1];
      && |top.slots| < MaxSlots(size)
      && (var free := MaxSlots(size) - |top.slots| - 1;
          SlotAddress(top.address, free) < TWO_64 && after == words[top.address + 8 := free][SlotAddress(top.address, free) := b])
    ensures var top := nodes[|nodes| - 1];
      var more := nodes[..|nodes| - 1] + [Node(top.address, top.slots + [b])];
      ListOk(after, size, more) && Blocks(more) == Blocks(nodes) + [b] && WritesOnly(words, after, [top.address], size)
  {
    hide Chain, Blocks;
    var n := |nodes| - 1;
    var rest, top := nodes[..n], nodes[n];
    var free := MaxSlots(size) - |top.slots| - 1;
    var node := Node(top.address, top.slots + [b]);
    BlockOnTop(words, size, nodes);
    SlotInBlock(size, top.address, free);
    assert InBlock(top.address, size, top.address + 8) && InBlock(top.address, size, SlotAddress(top.address, free));
    forall a | a in words && after[a] != words[a] ensures InBlock([top.address][0], size, a) { }
    forall i | 0 <= i < |node.slots| ensures SlotHolds(after, size, node, i) {
      if i < |top.slots| { assert SlotHolds(words, size, top, i); }
    }
    TopRewritten(words, after, size, rest, node);
    ApartMore(Blocks(nodes), b, size);
    AllMappedStay(words, after, Blocks(nodes) + [b], size);
    assert Blocks(rest + [node]) == Blocks(nodes) + [b];
  }

  /** Taking the top node itself. */
  lemma PopNode(words: Words, size: u64, nodes: seq<Node>)
    requires ListOk(words, size, nodes) && nodes != [] && nodes[|nodes| - 1].slots == []
    ensures var rest := nodes[..|nodes| - 1];
      ListOk(words, size, rest) && Blocks(nodes) == Blocks(rest) + [nodes[|nodes| - 1].address]
  {
    hide Chain, Mapped;
    BlockOnTop(words, size, nodes);
    ShorterIsOk(words, size, nodes, Blocks(nodes[..|nodes| - 1]));
  }

  lemma ShorterIsOk(words: Words, size: u64, nodes: seq<Node>, blocks: seq<u64>)
    requires ListOk(words, size, nodes) && blocks <= Blocks(nodes)
    ensures Apart(blocks, size) && forall i :: 0 <= i < |blocks| ==> Mapped(words, blocks[i], size)
  {
    assert forall i :: 0 <= i < |blocks| ==> blocks[i] == Blocks(nodes)[i];
  }

  /** Taking the last address from the stack of the top node. */
  lemma PopSlot(words: Words, after: Words, size: u64, nodes: seq<Node>)
    requires ListOk(words, size, nodes) && nodes != [] && UsesStack(size)
    requires var top := nodes[|nodes| - 1];
      top.slots != [] && after == words[top.address + 8 := MaxSlots(size) - |top.slots| + 1]
    ensures var top := nodes[|nodes| - 1];
      var k := |top.slots| - 1;
      var less := nodes[..|nodes| - 1] + [Node(top.address, top.slots[..k])];
      && ListOk(after, size, less) && Blocks(nodes) == Blocks(less) + [top.slots[k]]
      && WritesOnly(words, after, [top.address], size)
      && SlotAddress(top.address, MaxSlots(size) - |top.slots|) in words
      && words[SlotAddress(top.address, MaxSlots(size) - |top.slots|)] == top.slots[k]
  {
    hide Chain, Blocks;
    var n := |nodes| - 1;
    var rest, top := nodes[..n], nodes[n];
    var k := |top.slots| - 1;
    var node := Node(top.address, top.slots[..k]);
    BlockOnTop(words, size, nodes);
    assert SlotHolds(words, size, top, k);
    assert InBlock(top.address, size, top.address + 8);
    forall a | a in words && after[a] != words[a] ensures InBlock([top.address][0], size, a) { }
    forall i | 0 <= i < |node.slots| ensures SlotHolds(after, size, node, i) {
      assert SlotHolds(words, size, top, i);
      SlotInBlock(size, top.address, MaxSlots(size) - 1 - i);
    }
    TopRewritten(words, after, size, rest, node);
    assert Blocks(nodes) == Blocks(rest + [node]) + [top.slots[k]];
    ShorterIsOk(words, size, nodes, Blocks(rest + [node]));
    AllMappedStay(words, after, Blocks(rest + [node]), size);
  }
}
