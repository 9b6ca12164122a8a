/**
 * getifaddrs and freeifaddrs over an explicit C heap: which blocks are live, and how the returned
 * list is linked through them. Address and flag contents are not modelled.
 */
module IfAddrs {

  /** A C pointer; 0 is NULL. */
  type Ptr = nat

  /** A block of the heap: a struct ifaddrs, a struct sockaddr, or someone else's. */
  datatype Block = Node(next: Ptr, name: int, addr: Ptr, netmask: Ptr, dstaddr: Ptr) | Sockaddr | Foreign

  type Blocks = map<Ptr, Block>

  const ENOMEM: int := 12

  /** `q` may be passed to free(). */
  ghost predicate Freeable(b: Blocks, q: Ptr) {
    q == 0 || q in b
  }

  /** The heap after free(q). */
  function Freed(b: Blocks, q: Ptr): Blocks {
    if q == 0 then b else b - {q}
  }

  ghost predicate Fresh(b: Blocks, p: Ptr) {
    p != 0 ==> p !in b
  }

  /** The heap after malloc returned `p`. */
  function With(b: Blocks, p: Ptr, init: Block): Blocks {
    if p == 0 then b else b[p := init]
  }

  /** The heap after freeing the three parts of a node. */
  function PartsFreed(b: Blocks, n: Block): Blocks
    requires n.Node?
  {
    Freed(Freed(Freed(b, n.addr), n.netmask), n.dstaddr)
  }

  /** The parts of the node at `p` are separate blocks, none of them the node itself. */
  ghost predicate Separate(b: Blocks, p: Ptr) {
    && p != 0 && p in b && b[p].Node?
    && Freeable(b, b[p].addr)
    && Freeable(Freed(b, b[p].addr), b[p].netmask)
    && Freeable(Freed(Freed(b, b[p].addr), b[p].netmask), b[p].dstaddr)
    && p in PartsFreed(b, b[p])
  }

  ghost predicate Full(n: Block) {
    n.Node? && n.addr != 0 && n.netmask != 0 && n.dstaddr != 0
  }

  /**
   * `p` heads an acyclic list with these names, which together with the blocks of `base` makes up
   * the whole heap: what the list owns is separate from `base` and within itself. `full` lists have
   * all three parts on every node.
   */
  ghost predicate Chain(b: Blocks, base: Blocks, p: Ptr, names: seq<int>, full: bool)
    decreases |names|
  {
    if names == [] then p == 0 && b == base
    else
      && Separate(b, p)
      && b[p].name == names[0] && (full ==> Full(b[p]))
      && Chain(PartsFreed(b, b[p]) - {p}, base, b[p].next, names[1..], full)
  }

  function Reversed(s: seq<int>): (r: seq<int>) {
    if s == [] then [] else [s[|s| - 1]] + Reversed(s[..|s| - 1])
  }

  lemma {:induction false} ReversedAt(s: seq<int>, k: nat)
    ensures |Reversed(s)| == |s|
    ensures k < |s| ==> Reversed(s)[k] == s[|s| - 1 - k]
  {
    if s != [] {
      ReversedAt(s[..|s| - 1], if k == 0 then 0 else k - 1);
    }
  }

  /** The nodes of a list, found in the heap itself: linked from p to NULL, no two the same, with these
      names and all three parts. */
  ghost predicate Listed(b: Blocks, p: Ptr, nodes: seq<Ptr>, names: seq<int>) {
    && |nodes| == |names| && p == (if nodes == [] then 0 else nodes[0])
    && (forall k {:trigger nodes[k]} :: 0 <= k < |nodes| ==>
          && nodes[k] != 0 && nodes[k] in b && Full(b[nodes[k]]) && b[nodes[k]].name == names[k]
          && b[nodes[k]].next == if k + 1 < |nodes| then nodes[k + 1] else 0)
    && forall i, k :: 0 <= i < k < |nodes| ==> nodes[i] != nodes[k]
  }

  lemma ListedCons(b: Blocks, b': Blocks, p: Ptr, rest: seq<Ptr>, names: seq<int>)
    requires p != 0 && p in b && Full(b[p]) && names != [] && b[p].name == names[0]
    requires forall q :: q in b' ==> q != p && q in b && b[q] == b'[q]
    requires Listed(b', b[p].next, rest, names[1..])
    ensures Listed(b, p, [p] + rest, names)
  {
    var nodes := [p] + rest;
    forall k | 0 < k < |nodes|
      ensures nodes[k] == rest[k - 1] && nodes[k] in b' && names[k] == names[1..][k - 1]
      ensures b'[nodes[k]].next == if k + 1 < |nodes| then nodes[k + 1] else 0
    {
      assert rest[k - 1] in b';
    }
  }

  lemma {:induction false} ChainListed(b: Blocks, base: Blocks, p: Ptr, names: seq<int>) returns (nodes: seq<Ptr>)
    requires Chain(b, base, p, names, true)
    ensures Listed(b, p, nodes, names)
    decreases |names|
  {
    if names == [] {
      nodes := [];
    } else {
      var b' := PartsFreed(b, b[p]) - {p};
      var rest := ChainListed(b', base, b[p].next, names[1..]);
      hide Listed;
      ListedCons(b, b', p, rest, names);
      nodes := [p] + rest;
    }
  }

  class Heap {
    var blocks: Blocks
    var errno: int

    /** How many requests have been refused so far. */
    ghost var refused: nat

    constructor (b: Blocks)
      ensures blocks == b
    {
      blocks, errno, refused := b, 0, 0;
    }

    /**
     * malloc. The allocator's choice is an input: the block it hands out if that is usable, and a
     * refusal otherwise, so every pattern of failures and every reuse of addresses is possible.
     */
    method Malloc(choice: Ptr, init: Block) returns (p: Ptr)
      modifies this`blocks, this`refused
      ensures Fresh(old(blocks), p) && blocks == With(old(blocks), p, init)
      ensures refused == old(refused) + if p == 0 then 1 else 0
      ensures p == if choice in old(blocks) then 0 else choice
    {
      if choice == 0 || choice in blocks {
        p := 0;
        refused := refused + 1;
      } else {
        p := choice;
        blocks := blocks[p := init];
      }
    }

    /** free; freeing a block that is not live would be an error of the caller. */
    method Free(p: Ptr)
      requires Freeable(blocks, p)
      modifies this`blocks
      ensures blocks == Freed(old(blocks), p)
    {
      if p != 0 {
        blocks := blocks - {p};
      }
    }

    /** freeifaddrs: exactly the blocks of the list go, each once. */
    method FreeIfAddrs(list: Ptr, ghost base: Blocks, ghost names: seq<int>, ghost full: bool)
      requires Chain(blocks, base, list, names, full)
      modifies this`blocks
      ensures blocks == base
    {
      var p := list;
      ghost var left := names;
      while p != 0
        invariant Chain(blocks, base, p, left, full)
        decreases |left|
      {
        var node := blocks[p];
        var next := node.next;
        Free(node.addr);
        Free(node.netmask);
        Free(node.dstaddr);
        Free(p);
        p := next;
        left := left[1..];
      }
    }

    /** create_ifaddr_from_netif. */
    method CreateFromNetif(name: int, choices: seq<Ptr>) returns (p: Ptr)
      requires |choices| == 4
      modifies this`blocks, this`refused
      ensures p == 0 ==> blocks == old(blocks)
      ensures p != 0 ==> Chain(blocks, old(blocks), p, [name], true)
      ensures p == 0 <==> refused != old(refused)
    {
      p := Malloc(choices[0], Node(0, name, 0, 0, 0));
      if p == 0 {
        return;
      }
      var addr := Malloc(choices[1], Sockaddr);
      var netmask := Malloc(choices[2], Sockaddr);
      var dstaddr := Malloc(choices[3], Sockaddr);
      blocks := blocks[p := Node(0, name, addr, netmask, dstaddr)];
      Built(old(blocks), blocks, p, name, addr, netmask, dstaddr);
      if addr == 0 || netmask == 0 || dstaddr == 0 {
        FreeIfAddrs(p, old(blocks), [name], false);
        p := 0;
      }
    }

    /**
     * getifaddrs over the interfaces in list order; `choices[i]` are the allocator's choices for
     * interface i. All or nothing, whatever the allocator refuses. The nodes of the list are for the
     * interfaces from the last to the first.
     */
    method GetIfAddrs(netifs: seq<int>, choices: seq<seq<Ptr>>) returns (ret: int, list: Ptr, ghost nodes: seq<Ptr>)
      requires |choices| == |netifs| && forall i :: 0 <= i < |choices| ==> |choices[i]| == 4
      modifies this
      ensures ret == 0 || ret == -1
      ensures ret == 0 <==> refused == old(refused)
      ensures ret == -1 ==> list == 0 && blocks == old(blocks) && errno == 12
      ensures ret == 0 ==> Chain(blocks, old(blocks), list, Reversed(netifs), true)
      ensures ret == 0 ==> |nodes| == |netifs| && list == if nodes == [] then 0 else nodes[0]
      ensures ret == 0 ==> forall k {:trigger nodes[k]} :: 0 <= k < |nodes| ==>
                             && nodes[k] in blocks && blocks[nodes[k]].Node?
                             && blocks[nodes[k]].name == netifs[|netifs| - 1 - k]
                             && blocks[nodes[k]].addr != 0 && blocks[nodes[k]].netmask != 0
                             && blocks[nodes[k]].dstaddr != 0
                             && blocks[nodes[k]].next == if k + 1 < |nodes| then nodes[k + 1] else 0
      ensures ret == 0 ==> forall i, k :: 0 <= i < k < |nodes| ==> nodes[i] != nodes[k]
    {
      list, nodes := 0, [];
      ghost var was := old(blocks);
      for i := 0 to |netifs|
        invariant Chain(blocks, was, list, Reversed(netifs[..i]), true)
        invariant refused == old(refused)
      {
        ghost var mid := blocks;
        var p := CreateFromNetif(netifs[i], choices[i]);
        if p == 0 {
          FreeIfAddrs(list, was, Reversed(netifs[..i]), true);
          list := 0;
          errno := ENOMEM;
          return -1, 0, [];
        }
        Prepend(blocks, mid, was, p, netifs[i], list, Reversed(netifs[..i]));
        blocks := blocks[p := blocks[p].(next := list)];
        list := p;
        assert netifs[..i + 1][..i] == netifs[..i];
      }
      assert netifs[..|netifs|] == netifs;
      ret := 0;
      nodes := ChainListed(blocks, was, list, Reversed(netifs));
      forall k | 0 <= k < |netifs|
        ensures |Reversed(netifs)| == |netifs| && Reversed(netifs)[k] == netifs[|netifs| - 1 - k]
      {
        ReversedAt(netifs, k);
      }
      ReversedAt(netifs, 0);
    }
  }

  /** A node and whichever of its parts were granted form a list of one on top of the old heap. */
  lemma Built(was: Blocks, b: Blocks, p: Ptr, name: int, addr: Ptr, netmask: Ptr, dstaddr: Ptr)
    requires p != 0 && p !in was
    requires var b0 := was[p := Node(0, name, 0, 0, 0)];
             var b1 := With(b0, addr, Sockaddr);
             var b2 := With(b1, netmask, Sockaddr);
             && Fresh(b0, addr) && Fresh(b1, netmask) && Fresh(b2, dstaddr)
             && b == With(b2, dstaddr, Sockaddr)[p := Node(0, name, addr, netmask, dstaddr)]
    ensures Chain(b, was, p, [name], addr != 0 && netmask != 0 && dstaddr != 0)
  {
    var full := addr != 0 && netmask != 0 && dstaddr != 0;
    assert PartsFreed(b, b[p]) - {p} == was;
    assert Chain(was, was, 0, [], full);
  }

  /** Hanging a list of `mid` behind a node that was allocated on top of `mid`. */
  lemma Prepend(b: Blocks, mid: Blocks, base: Blocks, p: Ptr, name: int, list: Ptr, names: seq<int>)
    requires Chain(b, mid, p, [name], true)
    requires Chain(mid, base, list, names, true)
    ensures p in b && b[p].Node?
    ensures Chain(b[p := b[p].(next := list)], base, p, [name] + names, true)
  {
    var n := b[p];
    var b' := b[p := n.(next := list)];
    assert PartsFreed(b', b'[p]) - {p} == PartsFreed(b, n) - {p};
    assert PartsFreed(b, n) - {p} == mid by {
      assert [name][1..] == [];
      assert Chain(PartsFreed(b, n) - {p}, mid, n.next, [], true);
    }
    assert ([name] + names)[1..] == names;
  }

  /** What was live before is live and unchanged while the list exists. */
  lemma {:induction false} BaseKept(b: Blocks, base: Blocks, p: Ptr, names: seq<int>, full: bool)
    requires Chain(b, base, p, names, full)
    ensures forall q :: q in base ==> q in b && b[q] == base[q]
    decreases |names|
  {
    if names != [] {
      BaseKept(PartsFreed(b, b[p]) - {p}, base, b[p].next, names[1..], full);
    }
  }

  lemma OneLess(b: Blocks, q: Ptr)
    requires q in b
    ensures |b - {q}| == |b| - 1
  {
    assert (b - {q}).Keys == b.Keys - {q};
  }

  /** A successful getifaddrs holds exactly four blocks for each interface. */
  lemma {:induction false} BlockCount(b: Blocks, base: Blocks, p: Ptr, names: seq<int>)
    requires Chain(b, base, p, names, true)
    ensures |b| == |base| + 4 * |names|
    decreases |names|
  {
    if names != [] {
      var n := b[p];
      var b1 := Freed(b, n.addr);
      var b2 := Freed(b1, n.netmask);
      var b3 := Freed(b2, n.dstaddr);
      OneLess(b, n.addr);
      OneLess(b1, n.netmask);
      OneLess(b2, n.dstaddr);
      OneLess(b3, p);
      BlockCount(b3 - {p}, base, n.next, names[1..]);
    }
  }
}
