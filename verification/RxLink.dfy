/**
 * HAL_ETH_RxLinkCallback: the Ethernet HAL hands over the buffers of a frame one by one, and each
 * call chains one more pbuf and brings every tot_len up to date.
 */
module RxLink {

  const U16: nat := 0x1_0000

  class Pbuf {
    var next: Pbuf?
    var len: nat
    var totLen: nat

    constructor ()
      ensures next == null && len == 0 && totLen == 0
    {
      next, len, totLen := null, 0, 0;
    }
  }

  /** The bytes in the buffers from position `i` on. */
  function Rest(lens: seq<nat>, i: nat): (r: nat)
    requires i <= |lens|
    decreases |lens| - i
  {
    if i == |lens| then 0 else lens[i] + Rest(lens, i + 1)
  }

  lemma {:induction false} RestSnoc(lens: seq<nat>, n: nat, i: nat)
    requires i <= |lens|
    ensures Rest(lens + [n], i) == Rest(lens, i) + n
    ensures Rest(lens, |lens|) == 0
    decreases |lens| - i
  {
    if i == |lens| {
      assert Rest(lens + [n], i + 1) == 0;
    } else {
      RestSnoc(lens, n, i + 1);
    }
  }

  lemma {:induction false} RestShrinks(lens: seq<nat>, i: nat)
    requires i <= |lens|
    ensures Rest(lens, i) <= Rest(lens, 0)
  {
    if i > 0 {
      RestShrinks(lens, i - 1);
    }
  }

  /** Adding to a u16 counter that already holds a truncated sum. */
  lemma Wrap(a: nat, b: nat)
    ensures (a % U16 + b) % U16 == (a + b) % U16
  {
    var q := a / U16;
    assert a == q * U16 + a % U16;
    WrapMultiple(a % U16 + b, q);
  }

  lemma {:induction false} WrapMultiple(x: nat, q: nat)
    ensures (x + q * U16) % U16 == x % U16
  {
    if q > 0 {
      WrapMultiple(x, q - 1);
    }
  }

  /** The frame under assembly: the *pStart and *pEnd of the HAL. */
  class Frame {
    var start: Pbuf?
    var end: Pbuf?

    /** The buffers of the calls so far and the lengths they were given, in call order. */
    ghost var chain: seq<Pbuf>
    ghost var lens: seq<nat>

    ghost predicate Distinct()
      reads this`chain
    {
      forall i, j :: 0 <= i < |chain| && 0 <= j < |chain| && chain[i] == chain[j] ==> i == j
    }

    /** The list from `start` is `chain`, and `end` is its last element. */
    ghost predicate Linked()
      reads this, chain`next, chain`len
    {
      && Distinct()
      && |lens| == |chain|
      && (start == null <==> chain == [])
      && (chain != [] ==> start == chain[0] && end == chain[|chain| - 1] && end.next == null)
      && (forall i :: 0 <= i < |chain| ==> Follows(i))
      && (forall i :: 0 <= i < |chain| ==> chain[i].len == lens[i])
    }

    ghost predicate Follows(i: nat)
      requires i < |chain|
      reads this`chain, chain`next
    {
      chain[i].next == if i == |chain| - 1 then null else chain[i + 1]
    }

    /** tot_len is the length of the rest of the chain, as a u16 can hold it. */
    ghost predicate Totalled()
      requires |lens| == |chain|
      reads this`lens, this`chain, chain`totLen
    {
      forall i :: 0 <= i < |chain| ==> chain[i].totLen == Rest(lens, i) % U16
    }

    ghost predicate Valid()
      reads this, chain
    {
      Linked() && Totalled()
    }

    constructor ()
      ensures Valid() && chain == [] && start == null
    {
      start, end, chain, lens := null, null, [], [];
    }

    /** The chaining half of the callback: a new last pbuf whose tot_len is still 0. */
    method Hang(p: Pbuf, length: nat)
      requires Linked() && p !in chain
      modifies this, p, chain
      ensures Linked() && chain == old(chain) + [p] && lens == old(lens) + [length]
      ensures p.totLen == 0
      ensures forall q :: q in old(chain) ==> q.totLen == old(q.totLen)
    {
      p.next := null;
      p.totLen := 0;
      p.len := length;
      if start == null {
        start := p;
      } else {
        end.next := p;
      }
      end := p;
      ghost var before := chain;
      chain := chain + [p];
      lens := lens + [length];
      forall i | 0 <= i < |before|
        ensures Follows(i)
      {
        assert old(Follows(i)) && chain[i] == before[i];
      }
    }

    /** Where the walk stands after position `i`. */
    ghost function At(i: nat): Pbuf?
      requires i <= |chain|
      reads this`chain
    {
      if i == |chain| then null else chain[i]
    }

    lemma Walk(i: nat)
      requires Linked() && i < |chain|
      ensures chain[i].next == At(i + 1)
      ensures forall k :: 0 <= k < |chain| && k != i ==> chain[k] != chain[i]
    {
      assert Follows(i);
    }

    lemma WalkStarts()
      requires Linked()
      ensures start == At(0)
    {
    }

    /** The counting half of the callback: one more buffer of `length` bytes for every pbuf. */
    method AddToAll(length: nat)
      requires Linked()
      modifies chain`totLen
      ensures forall k :: 0 <= k < |chain| ==>
        chain[k].totLen == (old(chain[k].totLen) + length) % U16
    {
      hide Linked, Follows;
      var q := start;
      ghost var i := 0;
      WalkStarts();
      while q != null
        invariant Linked() && 0 <= i <= |chain| && q == At(i)
        invariant forall k :: 0 <= k < i ==>
          chain[k].totLen == (old(chain[k].totLen) + length) % U16
        invariant forall k :: i <= k < |chain| ==> chain[k].totLen == old(chain[k].totLen)
        decreases |chain| - i
      {
        Walk(i);
        q.totLen := (q.totLen + length) % U16;
        q := q.next;
        i := i + 1;
      }
    }

    /** HAL_ETH_RxLinkCallback. */
    method RxLink(p: Pbuf, length: nat)
      requires Valid() && p !in chain && length < U16
      modifies this, p, chain
      ensures Valid()
      ensures chain == old(chain) + [p] && lens == old(lens) + [length]
      ensures p.totLen == p.len == length
      ensures forall k :: 0 <= k < |old(chain)| ==>
        chain[k].totLen == (old(chain[k].totLen) + length) % 0x1_0000
    {
      hide Linked;
      ghost var was := lens;
      Extend(p, length);
      Sizes();
      forall i | 0 <= i < |chain|
        ensures chain[i].totLen == Rest(lens, i) % U16
      {
        RestSnoc(was, length, i);
        Wrap(Rest(was, i), length);
      }
    }

    /** Both halves, before the totals are compared with the lengths. */
    method Extend(p: Pbuf, length: nat)
      requires Linked() && p !in chain && length < U16
      modifies this, p, chain
      ensures Linked() && chain == old(chain) + [p] && lens == old(lens) + [length]
      ensures p.totLen == p.len == length
      ensures forall k :: 0 <= k < |old(chain)| ==>
        chain[k].totLen == (old(chain[k].totLen) + length) % U16
    {
      ghost var before := chain;
      Hang(p, length);
      assert chain[|before|] == p && p.totLen == 0 && p.len == length;
      AddToAll(length);
      assert p.totLen == (0 + length) % U16;
    }

    lemma Sizes()
      requires Linked()
      ensures |lens| == |chain|
    {
    }
  }

  /**
   * Every tot_len is the true number of bytes from its pbuf on exactly when the frame is at most
   * 65535 bytes long, which is what the u16 in struct pbuf can hold.
   */
  lemma TotalsExact(f: Frame)
    requires f.Valid()
    ensures (forall i :: 0 <= i < |f.chain| ==> f.chain[i].totLen == Rest(f.lens, i))
            <==> Rest(f.lens, 0) < U16
  {
    if Rest(f.lens, 0) < U16 {
      forall i | 0 <= i < |f.chain|
        ensures f.chain[i].totLen == Rest(f.lens, i)
      {
        RestShrinks(f.lens, i);
      }
    } else {
      assert f.chain[0].totLen == Rest(f.lens, 0) % U16 < U16;
    }
  }
}
