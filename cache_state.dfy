/**
 * The state of the buffer cache (kernel/bio.c) as a value, its invariant, and
 * the specifications of the lookups bget performs on it.
 *
 * `bs` is the arena: slots 0 .. nbuf-1 are bcache.buf[], record nbuf + h is
 * the sentinel bcache.heads[h]. `lists[h]` is the ghost content of bucket h:
 * its slots in head.next order.
 */
module CacheState {
  import opened Buf
  import opened BucketRing
  import opened Outcomes

  /** hash(blockno): the bucket of a block. */
  function Hash(blockno: nat, nbucket: nat): (id: nat)
    requires nbucket > 0
    ensures id < nbucket
    ensures blockno < nbucket ==> id == blockno
  {
    blockno % nbucket
  }

  /** The sentinel of bucket h. */
  function Head(nbuf: nat, h: nat): nat
  {
    nbuf + h
  }

  ghost predicate Shaped(bs: seq<Buf>, lists: seq<seq<nat>>, nbuf: nat)
  {
    |lists| > 0 && |bs| == nbuf + |lists|
  }

  /** Every bucket is a circular list through its sentinel. */
  ghost predicate Rings(bs: seq<Buf>, lists: seq<seq<nat>>, nbuf: nat)
  {
    forall h :: 0 <= h < |lists| ==> Ring(bs, Head(nbuf, h), lists[h])
  }

  /** A bucket holds slots only, each in the bucket its block hashes to. */
  ghost predicate Homed(bs: seq<Buf>, lists: seq<seq<nat>>, nbuf: nat)
    requires Shaped(bs, lists, nbuf)
  {
    && (forall h, k :: 0 <= h < |lists| && 0 <= k < |lists[h]| ==> lists[h][k] < nbuf)
    && (forall h, k {:trigger bs[lists[h][k]]} :: 0 <= h < |lists| && 0 <= k < |lists[h]| ==>
          Hash(bs[lists[h][k]].blockno, |lists|) == h)
  }

  /** Every slot is on the list of the bucket its block hashes to. */
  ghost predicate Covered(bs: seq<Buf>, lists: seq<seq<nat>>, nbuf: nat)
    requires Shaped(bs, lists, nbuf)
  {
    forall i :: 0 <= i < nbuf ==> i in lists[Hash(bs[i].blockno, |lists|)]
  }

  /** No slot occurs twice on a list. */
  ghost predicate Distinct(lists: seq<seq<nat>>)
  {
    forall h, a, b :: 0 <= h < |lists| && 0 <= a < b < |lists[h]| ==> lists[h][a] != lists[h][b]
  }

  /**
   * A slot that carries the same block as an earlier slot of its list is
   * never found by a lookup, and it is not live.
   */
  ghost predicate Unshadowed(bs: seq<Buf>, lists: seq<seq<nat>>)
    requires forall h, k :: 0 <= h < |lists| && 0 <= k < |lists[h]| ==> lists[h][k] < |bs|
  {
    forall h, a, b {:trigger bs[lists[h][a]], bs[lists[h][b]]} ::
      0 <= h < |lists| && 0 <= a < b < |lists[h]| && SameBlock(bs[lists[h][a]], bs[lists[h][b]]) ==>
        !Live(bs[lists[h][b]])
  }

  /** Every slot's payload is BSIZE bytes. */
  ghost predicate Sized(bs: seq<Buf>, nbuf: nat)
    requires nbuf <= |bs|
  {
    forall i :: 0 <= i < nbuf ==> |bs[i].data| == BSIZE
  }

  /** Everything in the invariant but the rings: it depends on the records' contents only. */
  ghost predicate Contents(bs: seq<Buf>, lists: seq<seq<nat>>, nbuf: nat)
  {
    && Shaped(bs, lists, nbuf)
    && Homed(bs, lists, nbuf)
    && Covered(bs, lists, nbuf)
    && Distinct(lists)
    && Unshadowed(bs, lists)
    && Sized(bs, nbuf)
  }

  /** The invariant of the cache. */
  ghost predicate Wellformed(bs: seq<Buf>, lists: seq<seq<nat>>, nbuf: nat)
  {
    Contents(bs, lists, nbuf) && Rings(bs, lists, nbuf)
  }

  /** Each slot is on exactly one list, once, and that list is bucket hash(blockno). */
  lemma OnExactlyOneList(bs: seq<Buf>, lists: seq<seq<nat>>, nbuf: nat, i: nat)
    requires Contents(bs, lists, nbuf) && i < nbuf
    ensures i in lists[Hash(bs[i].blockno, |lists|)]
    ensures forall h :: 0 <= h < |lists| && h != Hash(bs[i].blockno, |lists|) ==> i !in lists[h]
    ensures var l := lists[Hash(bs[i].blockno, |lists|)];
      forall a, b :: 0 <= a < |l| && 0 <= b < |l| && l[a] == i && l[b] == i ==> a == b
  {
    var id := Hash(bs[i].blockno, |lists|);
    forall h | 0 <= h < |lists| && h != id
      ensures i !in lists[h]
    {
      forall k | 0 <= k < |lists[h]|
        ensures lists[h][k] != i
      {
        assert Hash(bs[lists[h][k]].blockno, |lists|) == h;
      }
    }
  }

  /** Two distinct live slots never cache the same block. */
  lemma LiveSlotsDistinct(bs: seq<Buf>, lists: seq<seq<nat>>, nbuf: nat, i: nat, j: nat)
    requires Contents(bs, lists, nbuf) && i < nbuf && j < nbuf && i != j
    requires Live(bs[i]) && Live(bs[j])
    ensures !SameBlock(bs[i], bs[j])
  {
    var h := Hash(bs[i].blockno, |lists|);
    if h == Hash(bs[j].blockno, |lists|) {
      var a :| 0 <= a < |lists[h]| && lists[h][a] == i;
      var b :| 0 <= b < |lists[h]| && lists[h][b] == j;
      if a < b {
        assert !SameBlock(bs[lists[h][a]], bs[lists[h][b]]);
      } else {
        assert b < a;
        assert !SameBlock(bs[lists[h][b]], bs[lists[h][a]]);
      }
    }
  }

  /** The sentinel and the slots of a bucket are pairwise distinct records. */
  lemma BucketSimple(bs: seq<Buf>, lists: seq<seq<nat>>, nbuf: nat, h: nat)
    requires Contents(bs, lists, nbuf) && h < |lists|
    ensures Simple(Head(nbuf, h), lists[h])
  {
    forall k | 0 <= k < |lists[h]|
      ensures lists[h][k] != Head(nbuf, h)
    {
      assert lists[h][k] < nbuf;
    }
  }

  /** What a walk over one bucket relies on: a ring of slots that does not pass its sentinel twice. */
  ghost predicate Bucket(bs: seq<Buf>, nbuf: nat, h: nat, l: seq<nat>)
  {
    && Ring(bs, Head(nbuf, h), l) && Head(nbuf, h) !in l
    && (forall k :: 0 <= k < |l| ==> l[k] < nbuf)
  }

  lemma BucketFacts(bs: seq<Buf>, lists: seq<seq<nat>>, nbuf: nat, h: nat)
    requires Wellformed(bs, lists, nbuf) && h < |lists|
    ensures Bucket(bs, nbuf, h, lists[h])
    ensures forall k :: 0 <= k < |lists[h]| ==> Hash(bs[lists[h][k]].blockno, |lists|) == h
  {
    BucketSimple(bs, lists, nbuf, h);
  }

  /** Two different buckets share no record. */
  lemma BucketsDisjoint(bs: seq<Buf>, lists: seq<seq<nat>>, nbuf: nat, g: nat, h: nat, x: nat)
    requires Contents(bs, lists, nbuf) && g < |lists| && h < |lists| && g != h
    requires x == Head(nbuf, g) || x in lists[g]
    ensures x != Head(nbuf, h) && x !in lists[h]
  {
    forall k | 0 <= k < |lists[h]|
      ensures lists[h][k] != x
    {
      assert lists[h][k] < nbuf && Hash(bs[lists[h][k]].blockno, |lists|) == h;
      if x in lists[g] {
        var k' :| 0 <= k' < |lists[g]| && lists[g][k'] == x;
        assert Hash(bs[lists[g][k']].blockno, |lists|) == g;
      }
    }
  }

  /** The rings of two different buckets share no record. */
  lemma BucketsApart(bs: seq<Buf>, lists: seq<seq<nat>>, nbuf: nat, g: nat, h: nat)
    requires Contents(bs, lists, nbuf) && g < |lists| && h < |lists| && g != h
    ensures Apart(Head(nbuf, g), lists[g], Head(nbuf, h), lists[h])
  {
    BucketsDisjoint(bs, lists, nbuf, h, g, Head(nbuf, h));
    BucketsDisjoint(bs, lists, nbuf, g, h, Head(nbuf, g));
    forall k | 0 <= k < |lists[g]|
      ensures lists[g][k] !in lists[h]
    {
      BucketsDisjoint(bs, lists, nbuf, g, h, lists[g][k]);
    }
  }

  // ---------------------------------------------------------------- lookups

  /** The position of x in l. */
  function IndexOf(l: seq<nat>, x: nat): (k: nat)
    requires x in l
    ensures k < |l| && l[k] == x
  {
    if l[0] == x then 0 else 1 + IndexOf(l[1..], x)
  }

  /**
   * The hit scan of bget (both the first scan and the rescan): the position of
   * the first slot of list `l`, from head.next on, that caches (dev, blockno).
   */
  function Lookup(bs: seq<Buf>, l: seq<nat>, dev: nat, blockno: nat): (r: Option<nat>)
    requires forall k :: 0 <= k < |l| ==> l[k] < |bs|
    ensures r.Some? ==> r.value < |l| && Holds(bs[l[r.value]], dev, blockno)
    ensures r.Some? ==> forall k :: 0 <= k < r.value ==> !Holds(bs[l[k]], dev, blockno)
    ensures r.None? ==> forall k :: 0 <= k < |l| ==> !Holds(bs[l[k]], dev, blockno)
  {
    if l == [] then None
    else if Holds(bs[l[0]], dev, blockno) then Some(0)
    else match Lookup(bs, l[1..], dev, blockno)
      case None => None
      case Some(k) => Some(k + 1)
  }

  /** The running minimum of bget's sweep starts at ~0 in a 32-bit uint. */
  const NoTick: nat := 0xFFFF_FFFF

  /** A slot the sweep can choose: unreferenced, with a stamp below the initial minimum. */
  predicate Eligible(b: Buf)
  {
    b.refcnt == 0 && b.lastaccesstick < NoTick
  }

  /** The sweep's state: the running minimum and the position of the chosen slot (-1 for none). */
  datatype Pick = Pick(min: nat, pos: int)

  /**
   * bget's LRU sweep over the slots in the order it visits them: a slot with
   * refcnt 0 replaces the choice when its stamp is strictly below the minimum.
   */
  function Sweep(bs: seq<Buf>, order: seq<nat>): (p: Pick)
    requires forall k :: 0 <= k < |order| ==> order[k] < |bs|
    ensures -1 <= p.pos < |order|
    ensures p.pos == -1 ==> p.min == NoTick
    ensures p.pos >= 0 ==> Eligible(bs[order[p.pos]]) && p.min == bs[order[p.pos]].lastaccesstick
  {
    if order == [] then Pick(NoTick, -1)
    else
      var p := Sweep(bs, order[..|order| - 1]);
      var b := bs[order[|order| - 1]];
      if b.refcnt == 0 && b.lastaccesstick < p.min then Pick(b.lastaccesstick, |order| - 1) else p
  }

  /** One more slot visited by the sweep. */
  lemma SweepStep(bs: seq<Buf>, order: seq<nat>, x: nat)
    requires (forall k :: 0 <= k < |order| ==> order[k] < |bs|) && x < |bs|
    ensures forall k :: 0 <= k < |order + [x]| ==> (order + [x])[k] < |bs|
    ensures var p := Sweep(bs, order);
      Sweep(bs, order + [x]) ==
        if bs[x].refcnt == 0 && bs[x].lastaccesstick < p.min then Pick(bs[x].lastaccesstick, |order|) else p
  {
    assert (order + [x])[..|order|] == order;
  }

  /**
   * The sweep chooses nothing exactly when no slot is eligible; otherwise its
   * choice is eligible, strictly older than every unreferenced slot before it
   * (ties go to the first seen) and no younger than any unreferenced slot after it.
   */
  lemma {:induction false} SweepPicksLru(bs: seq<Buf>, order: seq<nat>)
    requires forall k :: 0 <= k < |order| ==> order[k] < |bs|
    ensures var p := Sweep(bs, order);
      p.pos == -1 <==> forall k :: 0 <= k < |order| ==> !Eligible(bs[order[k]])
    ensures var p := Sweep(bs, order);
      p.pos >= 0 ==>
        && (forall k :: 0 <= k < p.pos && bs[order[k]].refcnt == 0 ==>
              bs[order[k]].lastaccesstick > p.min)
        && (forall k :: p.pos < k < |order| && bs[order[k]].refcnt == 0 ==>
              bs[order[k]].lastaccesstick >= p.min)
  {
    if order != [] {
      var n := |order| - 1;
      var front := order[..n];
      SweepPicksLru(bs, front);
      assert forall k :: 0 <= k < n ==> order[k] == front[k];
    }
  }

  /** The list `l` from tail to head: the order of a walk along the prev links. */
  function Reverse(l: seq<nat>): (r: seq<nat>)
    ensures |r| == |l| && forall k :: 0 <= k < |l| ==> r[k] == l[|l| - 1 - k]
  {
    if l == [] then [] else [l[|l| - 1]] + Reverse(l[..|l| - 1])
  }

  /** Extending a prefix of `r` by one element. */
  lemma PrefixStep(r: seq<nat>, k: nat)
    requires k < |r|
    ensures r[..k + 1] == r[..k] + [r[k]]
  {
  }

  /**
   * Walking one more record along the prev links extends the walk by the
   * next member from the tail.
   */
  lemma WalkStep(done: seq<nat>, l: seq<nat>, k: nat, prior: seq<nat>)
    requires k < |l| && done == prior + Reverse(l)[..k]
    ensures done + [l[|l| - 1 - k]] == prior + Reverse(l)[..k + 1]
  {
    var r := Reverse(l);
    PrefixStep(r, k);
    assert r[k] == l[|l| - 1 - k];
  }

  /** The order of bget's sweep: buckets 0, 1, ..., each walked from tail to head. */
  function ScanOrder(lists: seq<seq<nat>>): (r: seq<nat>)
    ensures forall x :: x in r <==> exists h :: 0 <= h < |lists| && x in lists[h]
  {
    if lists == [] then []
    else
      var n := |lists| - 1;
      var r := ScanOrder(lists[..n]) + Reverse(lists[n]);
      assert forall x :: x in Reverse(lists[n]) <==> x in lists[n] by {
        forall x | x in lists[n]
          ensures x in Reverse(lists[n])
        {
          var k :| 0 <= k < |lists[n]| && lists[n][k] == x;
          assert Reverse(lists[n])[|lists[n]| - 1 - k] == x;
        }
      }
      assert forall h :: 0 <= h < n ==> lists[..n][h] == lists[h];
      r
  }

  /** The sweep over buckets 0 .. i is the sweep over buckets 0 .. i-1 followed by bucket i, tail first. */
  lemma ScanOrderStep(lists: seq<seq<nat>>, i: nat)
    requires i < |lists|
    ensures ScanOrder(lists[..i + 1]) == ScanOrder(lists[..i]) + Reverse(lists[i])
  {
    assert lists[..i + 1][..i] == lists[..i];
  }

  /** Every record in the scan order is a record of the arena. */
  ghost predicate Scannable(bs: seq<Buf>, lists: seq<seq<nat>>)
  {
    forall k :: 0 <= k < |ScanOrder(lists)| ==> ScanOrder(lists)[k] < |bs|
  }

  /** The choice of bget's sweep over the whole cache. */
  ghost function Victim(bs: seq<Buf>, lists: seq<seq<nat>>): (p: Pick)
    requires Scannable(bs, lists)
  {
    Sweep(bs, ScanOrder(lists))
  }

  lemma ScanOrderBounded(bs: seq<Buf>, lists: seq<seq<nat>>, nbuf: nat)
    requires Contents(bs, lists, nbuf)
    ensures forall k :: 0 <= k < |ScanOrder(lists)| ==> ScanOrder(lists)[k] < nbuf
    ensures Scannable(bs, lists)
  {
    var order := ScanOrder(lists);
    forall k | 0 <= k < |order|
      ensures order[k] < nbuf
    {
      assert order[k] in order;
      var h :| 0 <= h < |lists| && order[k] in lists[h];
      var j :| 0 <= j < |lists[h]| && lists[h][j] == order[k];
    }
  }

  /**
   * LRU over the whole cache: the sweep finds no slot exactly when no slot is
   * eligible, and otherwise it finds an unreferenced slot whose stamp is the
   * smallest among all unreferenced slots.
   */
  lemma VictimIsLru(bs: seq<Buf>, lists: seq<seq<nat>>, nbuf: nat)
    requires Contents(bs, lists, nbuf)
    ensures Scannable(bs, lists)
    ensures var p := Victim(bs, lists);
      p.pos == -1 <==> forall i :: 0 <= i < nbuf ==> !Eligible(bs[i])
    ensures var p := Victim(bs, lists);
      p.pos >= 0 ==>
        var v := ScanOrder(lists)[p.pos];
        && v < nbuf && Eligible(bs[v])
        && forall i :: 0 <= i < nbuf && bs[i].refcnt == 0 ==> bs[v].lastaccesstick <= bs[i].lastaccesstick
  {
    var order := ScanOrder(lists);
    ScanOrderBounded(bs, lists, nbuf);
    SweepPicksLru(bs, order);
    var p := Sweep(bs, order);
    forall i | 0 <= i < nbuf
      ensures i in order
    {
      assert i in lists[Hash(bs[i].blockno, |lists|)];
    }
    if p.pos >= 0 {
      var v := order[p.pos];
      forall i | 0 <= i < nbuf && bs[i].refcnt == 0
        ensures bs[v].lastaccesstick <= bs[i].lastaccesstick
      {
        var k := IndexOf(order, i);
        if k < p.pos {
        } else if k > p.pos {
        }
      }
    } else {
      forall i | 0 <= i < nbuf
        ensures !Eligible(bs[i])
      {
        var k := IndexOf(order, i);
      }
    }
  }

  /** A sweep over `order` that ended with running minimum `min` and choice `sel` at position `pos`. */
  ghost predicate Chosen(bs: seq<Buf>, order: seq<nat>, min: nat, pos: int, sel: int)
  {
    && (forall j :: 0 <= j < |order| ==> order[j] < |bs|)
    && Sweep(bs, order) == Pick(min, pos)
    && sel == (if pos == -1 then -1 else order[pos])
  }

  /** `sel` is the choice of bget's sweep over the whole cache, -1 when it chooses nothing. */
  ghost predicate SweepChoice(bs: seq<Buf>, lists: seq<seq<nat>>, sel: int)
  {
    && Scannable(bs, lists)
    && var p := Victim(bs, lists);
    && (sel == -1 <==> p.pos == -1)
    && (p.pos >= 0 ==> sel == ScanOrder(lists)[p.pos])
  }

  /** The sweep's choice, stated for the slot itself: the least recently used free slot. */
  lemma LruChoice(bs: seq<Buf>, lists: seq<seq<nat>>, nbuf: nat, sel: int)
    requires Contents(bs, lists, nbuf) && SweepChoice(bs, lists, sel)
    ensures sel == -1 <==> forall i :: 0 <= i < nbuf ==> !Eligible(bs[i])
    ensures sel >= 0 ==>
      && sel < nbuf && Eligible(bs[sel])
      && forall i :: 0 <= i < nbuf && bs[i].refcnt == 0 ==> bs[sel].lastaccesstick <= bs[i].lastaccesstick
  {
    VictimIsLru(bs, lists, nbuf);
  }

  /** Bucket h as the sweep needs it: a ring of slots that all hash to h. */
  ghost predicate HashedBucket(bs: seq<Buf>, nbuf: nat, h: nat, l: seq<nat>, nbucket: nat)
  {
    && nbucket > 0 && Bucket(bs, nbuf, h, l)
    && forall k :: 0 <= k < |l| ==> l[k] < |bs| && Hash(bs[l[k]].blockno, nbucket) == h
  }

  /** The j-th member of bucket h, as a walk along the prev links meets it. */
  lemma BucketPrev(bs: seq<Buf>, nbuf: nat, h: nat, l: seq<nat>, nbucket: nat, j: nat)
    requires HashedBucket(bs, nbuf, h, l, nbucket) && j < |l|
    ensures l[j] < nbuf && l[j] != Head(nbuf, h) && Hash(bs[l[j]].blockno, nbucket) == h
    ensures bs[l[j]].prev == if j > 0 then l[j - 1] else Head(nbuf, h)
  {
    assert bs[l[j]].prev == Before(Head(nbuf, h), l, j);
  }

  /** Every bucket of a well-formed cache is a ring of slots that hash to it. */
  lemma AllBuckets(bs: seq<Buf>, lists: seq<seq<nat>>, nbuf: nat)
    requires Wellformed(bs, lists, nbuf)
    ensures forall h :: 0 <= h < |lists| ==> HashedBucket(bs, nbuf, h, lists[h], |lists|)
  {
    forall h | 0 <= h < |lists|
      ensures HashedBucket(bs, nbuf, h, lists[h], |lists|)
    {
      BucketFacts(bs, lists, nbuf, h);
    }
  }

  // ---------------------------------------------------------------- updates

  /** No slot before position k of list `l` carries the block of the slot at k. */
  ghost predicate Leading(bs: seq<Buf>, l: seq<nat>, k: nat)
    requires k < |l| && forall j :: 0 <= j < |l| ==> l[j] < |bs|
  {
    forall a :: 0 <= a < k ==> !SameBlock(bs[l[a]], bs[l[k]])
  }

  /** A live slot is the first of its list to carry its block. */
  lemma LiveLeads(bs: seq<Buf>, lists: seq<seq<nat>>, nbuf: nat, h: nat, k: nat)
    requires Contents(bs, lists, nbuf) && h < |lists| && k < |lists[h]|
    requires Live(bs[lists[h][k]])
    ensures Leading(bs, lists[h], k)
  {
  }

  /**
   * Writing a slot's count, flags, stamp or payload keeps the invariant, as
   * long as the slot, if it ends up live, is the first of its list to carry
   * its block.
   */
  lemma UpdateInPlace(bs: seq<Buf>, lists: seq<seq<nat>>, nbuf: nat, h: nat, k: nat, v: Buf)
    requires Wellformed(bs, lists, nbuf) && h < |lists| && k < |lists[h]|
    requires var b := bs[lists[h][k]]; SameBlock(v, b) && SameLinks(v, b) && |v.data| == BSIZE
    requires Live(v) ==> Leading(bs, lists[h], k)
    ensures Wellformed(bs[lists[h][k] := v], lists, nbuf)
  {
    var i := lists[h][k];
    var bs' := bs[i := v];
    forall g | 0 <= g < |lists|
      ensures Ring(bs', Head(nbuf, g), lists[g])
    {
      RingSameLinks(bs, Head(nbuf, g), lists[g], i, v);
    }
    OnExactlyOneList(bs, lists, nbuf, i);
    UpdateUnshadowed(bs, lists, nbuf, h, k, v);
    SameBlocknos(bs, bs', lists, nbuf);
    assert Sized(bs', nbuf);
  }

  /** Homed and Covered depend on the block numbers only. */
  lemma SameBlocknos(bs: seq<Buf>, bs': seq<Buf>, lists: seq<seq<nat>>, nbuf: nat)
    requires Shaped(bs, lists, nbuf) && Homed(bs, lists, nbuf) && Covered(bs, lists, nbuf)
    requires |bs'| == |bs| && forall j :: 0 <= j < |bs| ==> bs'[j].blockno == bs[j].blockno
    ensures Shaped(bs', lists, nbuf) && Homed(bs', lists, nbuf) && Covered(bs', lists, nbuf)
  {
  }

  lemma UpdateUnshadowed(bs: seq<Buf>, lists: seq<seq<nat>>, nbuf: nat, h: nat, k: nat, v: Buf)
    requires Shaped(bs, lists, nbuf) && Homed(bs, lists, nbuf) && Unshadowed(bs, lists)
    requires h < |lists| && k < |lists[h]| && SameBlock(v, bs[lists[h][k]])
    requires forall g :: 0 <= g < |lists| && g != h ==> lists[h][k] !in lists[g]
    requires forall a :: 0 <= a < |lists[h]| && lists[h][a] == lists[h][k] ==> a == k
    requires Live(v) ==> Leading(bs, lists[h], k)
    ensures Unshadowed(bs[lists[h][k] := v], lists)
  {
    var i := lists[h][k];
    var bs' := bs[i := v];
    forall g, a, b | 0 <= g < |lists| && 0 <= a < b < |lists[g]| &&
      SameBlock(bs'[lists[g][a]], bs'[lists[g][b]])
      ensures !Live(bs'[lists[g][b]])
    {
      if lists[g][b] == i {
        assert lists[g][b] in lists[g];
        assert g == h;
        assert b == k;
      }
    }
  }

  /** The record of a slot bget finds cached: one more reference, and held. */
  function Acquired(b: Buf): (r: Buf)
    ensures r.refcnt == b.refcnt + 1 && r.locked
    ensures SameBlock(r, b) && SameLinks(r, b)
    ensures r.valid == b.valid && r.lastaccesstick == b.lastaccesstick && r.data == b.data
  {
    b.(refcnt := b.refcnt + 1, locked := true)
  }

  /** The record of a recycled slot: the new block, not valid, one reference, held. */
  function Renamed(b: Buf, dev: nat, blockno: nat): (r: Buf)
    ensures Holds(r, dev, blockno) && !r.valid && r.refcnt == 1 && r.locked
    ensures SameLinks(r, b) && r.lastaccesstick == b.lastaccesstick && r.data == b.data
  {
    b.(dev := dev, blockno := blockno, valid := false, refcnt := 1, locked := true)
  }

  lemma WellformedLinksInRange(bs: seq<Buf>, lists: seq<seq<nat>>, nbuf: nat)
    requires Wellformed(bs, lists, nbuf)
    ensures LinksInRange(bs)
  {
    forall i | 0 <= i < |bs|
      ensures bs[i].prev < |bs| && bs[i].next < |bs|
    {
      SlotLinksInRange(bs, lists, nbuf, i);
    }
  }

  lemma SlotLinksInRange(bs: seq<Buf>, lists: seq<seq<nat>>, nbuf: nat, i: nat)
    requires Shaped(bs, lists, nbuf) && Rings(bs, lists, nbuf) && Covered(bs, lists, nbuf) && i < |bs|
    ensures bs[i].prev < |bs| && bs[i].next < |bs|
  {
    if i < nbuf {
      var h := Hash(bs[i].blockno, |lists|);
      RingLinks(bs, Head(nbuf, h), lists[h], IndexOf(lists[h], i));
    } else {
      assert Ring(bs, Head(nbuf, i - nbuf), lists[i - nbuf]);
    }
  }

  lemma RenamedInRange(bs: seq<Buf>, v: nat, dev: nat, blockno: nat)
    requires LinksInRange(bs) && v < |bs|
    ensures LinksInRange(bs[v := Renamed(bs[v], dev, blockno)])
  {
    var bs1 := bs[v := Renamed(bs[v], dev, blockno)];
    assert forall i :: 0 <= i < |bs| ==> SameLinks(bs1[i], bs[i]);
  }

  /**
   * The arena after bget recycles slot v, which sits in bucket `from`, for
   * (dev, blockno) of bucket `to`: the slot is renamed and, when the buckets
   * differ, unlinked and pushed at the head of bucket `to`.
   */
  function Recycled(bs: seq<Buf>, nbuf: nat, v: nat, from: nat, to: nat, dev: nat, blockno: nat): (r: seq<Buf>)
    requires LinksInRange(bs) && v < |bs| && Head(nbuf, to) < |bs|
    ensures |r| == |bs| && LinksInRange(r)
    ensures forall i :: 0 <= i < |bs| ==> SameButLinks(r[i], if i == v then Renamed(bs[v], dev, blockno) else bs[i])
  {
    var bs1 := bs[v := Renamed(bs[v], dev, blockno)];
    RenamedInRange(bs, v, dev, blockno);
    if from == to then bs1 else Move(bs1, v, Head(nbuf, to))
  }

  /** The lists after the same recycling: slot v leaves bucket `from` and heads bucket `to`. */
  function Relisted(lists: seq<seq<nat>>, v: nat, from: nat, to: nat): (r: seq<seq<nat>>)
    requires from < |lists| && to < |lists| && v in lists[from]
    ensures |r| == |lists|
    ensures from == to ==> r == lists
    ensures from != to ==>
      && r[to] == [v] + lists[to]
      && multiset(r[from]) == multiset(lists[from]) - multiset{v}
      && forall g :: 0 <= g < |lists| && g != from && g != to ==> r[g] == lists[g]
  {
    if from == to then lists
    else lists[from := Without(lists[from], IndexOf(lists[from], v))][to := [v] + lists[to]]
  }

  lemma ContentsOnly(bs: seq<Buf>, bs': seq<Buf>, lists: seq<seq<nat>>, nbuf: nat)
    requires Contents(bs, lists, nbuf)
    requires |bs'| == |bs| && forall i :: 0 <= i < |bs| ==> SameButLinks(bs'[i], bs[i])
    ensures Contents(bs', lists, nbuf)
  {
    assert forall i :: 0 <= i < |bs| ==> Live(bs'[i]) == Live(bs[i]);
  }

  /**
   * bget's recycling keeps the invariant: slot v gets a block that no slot of
   * that block's bucket caches (the hit scan missed) and moves to that bucket.
   * Nothing but links changes in any other record.
   */
  lemma RecycleKeepsWellformed(bs: seq<Buf>, lists: seq<seq<nat>>, nbuf: nat, v: nat, dev: nat, blockno: nat)
    requires Wellformed(bs, lists, nbuf) && v < nbuf
    requires Lookup(bs, lists[Hash(blockno, |lists|)], dev, blockno).None?
    ensures var from, to := Hash(bs[v].blockno, |lists|), Hash(blockno, |lists|);
      LinksInRange(bs) && v in lists[from] &&
      Wellformed(Recycled(bs, nbuf, v, from, to, dev, blockno), Relisted(lists, v, from, to), nbuf)
  {
    var from, to := Hash(bs[v].blockno, |lists|), Hash(blockno, |lists|);
    WellformedLinksInRange(bs, lists, nbuf);
    OnExactlyOneList(bs, lists, nbuf, v);
    var r := Recycled(bs, nbuf, v, from, to, dev, blockno);
    var lists' := Relisted(lists, v, from, to);
    RecycledContents(bs, lists, nbuf, v, dev, blockno);
    ContentsOnly(bs[v := Renamed(bs[v], dev, blockno)], r, lists', nbuf);
    RecycledRings(bs, lists, nbuf, v, dev, blockno);
  }

  /** The contents part of the invariant holds for the renamed slot on the new lists. */
  lemma RecycledContents(bs: seq<Buf>, lists: seq<seq<nat>>, nbuf: nat, v: nat, dev: nat, blockno: nat)
    requires Contents(bs, lists, nbuf) && v < nbuf
    requires Lookup(bs, lists[Hash(blockno, |lists|)], dev, blockno).None?
    ensures var from, to := Hash(bs[v].blockno, |lists|), Hash(blockno, |lists|);
      v in lists[from] &&
      Contents(bs[v := Renamed(bs[v], dev, blockno)], Relisted(lists, v, from, to), nbuf)
  {
    var from, to := Hash(bs[v].blockno, |lists|), Hash(blockno, |lists|);
    OnExactlyOneList(bs, lists, nbuf, v);
    var j := IndexOf(lists[from], v);
    if from == to {
      SameBucketUnshadowed(bs, lists, nbuf, v, dev, blockno);
      SameBucketHomed(bs, lists, nbuf, v, dev, blockno);
    } else {
      RelistedShape(lists, v, from, to, j);
      var bs1 := bs[v := Renamed(bs[v], dev, blockno)];
      var lists' := Relisted(lists, v, from, to);
      MovedDistinct(lists, v, from, to, j);
      MovedHomed(bs, lists, nbuf, v, from, to, j, dev, blockno);
      MovedCovered(bs, lists, nbuf, v, from, to, j, dev, blockno);
      MovedUnshadowed(bs, lists, nbuf, v, from, to, j, dev, blockno);
      assert Sized(bs1, nbuf);
    }
  }

  lemma SameBucketHomed(bs: seq<Buf>, lists: seq<seq<nat>>, nbuf: nat, v: nat, dev: nat, blockno: nat)
    requires Shaped(bs, lists, nbuf) && Homed(bs, lists, nbuf) && Covered(bs, lists, nbuf) && v < nbuf
    requires Hash(bs[v].blockno, |lists|) == Hash(blockno, |lists|)
    ensures Homed(bs[v := Renamed(bs[v], dev, blockno)], lists, nbuf)
    ensures Covered(bs[v := Renamed(bs[v], dev, blockno)], lists, nbuf)
  {
    var bs1 := bs[v := Renamed(bs[v], dev, blockno)];
    assert forall i :: 0 <= i < |bs| ==> Hash(bs1[i].blockno, |lists|) == Hash(bs[i].blockno, |lists|);
  }

  lemma SameBucketUnshadowed(bs: seq<Buf>, lists: seq<seq<nat>>, nbuf: nat, v: nat, dev: nat, blockno: nat)
    requires Contents(bs, lists, nbuf) && v < nbuf
    requires Hash(bs[v].blockno, |lists|) == Hash(blockno, |lists|)
    requires Lookup(bs, lists[Hash(blockno, |lists|)], dev, blockno).None?
    ensures Unshadowed(bs[v := Renamed(bs[v], dev, blockno)], lists)
  {
    var bs1 := bs[v := Renamed(bs[v], dev, blockno)];
    var to := Hash(blockno, |lists|);
    OnExactlyOneList(bs, lists, nbuf, v);
    forall g, a, b | 0 <= g < |lists| && 0 <= a < b < |lists[g]|
      ensures SameBlock(bs1[lists[g][a]], bs1[lists[g][b]]) ==> !Live(bs1[lists[g][b]])
    {
      if lists[g][a] == v || lists[g][b] == v {
        assert lists[g][a] != lists[g][b];
        assert g == to by {
          assert v in lists[g];
        }
        assert !SameBlock(bs1[lists[g][a]], bs1[lists[g][b]]) by {
          if lists[g][a] == v {
            assert !Holds(bs[lists[g][b]], dev, blockno);
          } else {
            assert !Holds(bs[lists[g][a]], dev, blockno);
          }
        }
      }
    }
  }

  /** Slot v is at position j of bucket `from` only, and not in bucket `to`. */
  ghost predicate Moves(lists: seq<seq<nat>>, v: nat, from: nat, to: nat, j: nat)
  {
    && from < |lists| && to < |lists| && from != to
    && j < |lists[from]| && lists[from][j] == v && v !in lists[to]
    && forall k :: 0 <= k < |lists[from]| && k != j ==> lists[from][k] != v
  }

  lemma RelistedShape(lists: seq<seq<nat>>, v: nat, from: nat, to: nat, j: nat)
    requires Moves(lists, v, from, to, j)
    ensures var r := Relisted(lists, v, from, to);
      && r[from] == Without(lists[from], j) && r[to] == [v] + lists[to]
      && (forall g :: 0 <= g < |lists| && g != from && g != to ==> r[g] == lists[g])
      && (forall k :: 0 <= k < |r[from]| ==> r[from][k] != v && r[from][k] in lists[from])
  {
    var w := Without(lists[from], j);
    assert IndexOf(lists[from], v) == j;
    forall k | 0 <= k < |w|
      ensures w[k] != v && w[k] in lists[from]
    {
      if k < j {
        assert w[k] == lists[from][k];
      } else {
        assert w[k] == lists[from][k + 1];
      }
    }
  }

  lemma MovedDistinct(lists: seq<seq<nat>>, v: nat, from: nat, to: nat, j: nat)
    requires Distinct(lists) && Moves(lists, v, from, to, j)
    ensures Distinct(Relisted(lists, v, from, to))
  {
    var lists' := Relisted(lists, v, from, to);
    RelistedShape(lists, v, from, to, j);
    forall h, a, b | 0 <= h < |lists'| && 0 <= a < b < |lists'[h]|
      ensures lists'[h][a] != lists'[h][b]
    {
      if h == to {
        MovedDistinctTo(lists, v, from, to, j, a, b);
      } else if h == from {
        var a', b' := if a < j then a else a + 1, if b < j then b else b + 1;
        assert lists'[h][a] == lists[from][a'] && lists'[h][b] == lists[from][b'];
      }
    }
  }

  lemma MovedDistinctTo(lists: seq<seq<nat>>, v: nat, from: nat, to: nat, j: nat, a: nat, b: nat)
    requires Distinct(lists) && Moves(lists, v, from, to, j)
    requires a < b <= |lists[to]|
    ensures ([v] + lists[to])[a] != ([v] + lists[to])[b]
  {
    var l := [v] + lists[to];
    assert l[b] == lists[to][b - 1];
    if a == 0 {
      assert lists[to][b - 1] in lists[to];
    } else {
      assert l[a] == lists[to][a - 1];
    }
  }

  lemma MovedHomed(bs: seq<Buf>, lists: seq<seq<nat>>, nbuf: nat, v: nat, from: nat, to: nat, j: nat, dev: nat, blockno: nat)
    requires Shaped(bs, lists, nbuf) && Homed(bs, lists, nbuf) && v < nbuf
    requires Moves(lists, v, from, to, j) && to == Hash(blockno, |lists|)
    ensures Homed(bs[v := Renamed(bs[v], dev, blockno)], Relisted(lists, v, from, to), nbuf)
  {
    var bs1 := bs[v := Renamed(bs[v], dev, blockno)];
    var lists' := Relisted(lists, v, from, to);
    RelistedShape(lists, v, from, to, j);
    forall h, k | 0 <= h < |lists'| && 0 <= k < |lists'[h]|
      ensures lists'[h][k] < nbuf && Hash(bs1[lists'[h][k]].blockno, |lists|) == h
    {
      if h == to {
        if k > 0 {
          var y := lists[to][k - 1];
          assert lists'[h][k] == y;
          assert y != v by {
            assert y in lists[to];
          }
        }
      } else if h == from {
        var k' := if k < j then k else k + 1;
        assert lists'[h][k] == lists[from][k'];
      }
    }
  }

  lemma MovedCovered(bs: seq<Buf>, lists: seq<seq<nat>>, nbuf: nat, v: nat, from: nat, to: nat, j: nat, dev: nat, blockno: nat)
    requires Shaped(bs, lists, nbuf) && Covered(bs, lists, nbuf) && v < nbuf
    requires Moves(lists, v, from, to, j) && to == Hash(blockno, |lists|)
    ensures Covered(bs[v := Renamed(bs[v], dev, blockno)], Relisted(lists, v, from, to), nbuf)
  {
    var bs1 := bs[v := Renamed(bs[v], dev, blockno)];
    var lists' := Relisted(lists, v, from, to);
    RelistedShape(lists, v, from, to, j);
    forall i | 0 <= i < nbuf
      ensures i in lists'[Hash(bs1[i].blockno, |lists|)]
    {
      if i == v {
        assert lists'[to][0] == v;
      } else {
        var g := Hash(bs[i].blockno, |lists|);
        var k := IndexOf(lists[g], i);
        if g == from {
          if k < j {
            assert lists'[g][k] == i;
          } else {
            assert lists'[g][k - 1] == i;
          }
        } else if g == to {
          assert lists'[g][k + 1] == i;
        }
      }
    }
  }

  lemma MovedUnshadowed(bs: seq<Buf>, lists: seq<seq<nat>>, nbuf: nat, v: nat, from: nat, to: nat, j: nat, dev: nat, blockno: nat)
    requires Shaped(bs, lists, nbuf) && Homed(bs, lists, nbuf) && Unshadowed(bs, lists) && v < nbuf
    requires Moves(lists, v, from, to, j) && to == Hash(blockno, |lists|)
    requires Lookup(bs, lists[to], dev, blockno).None?
    requires Homed(bs[v := Renamed(bs[v], dev, blockno)], Relisted(lists, v, from, to), nbuf)
    ensures Unshadowed(bs[v := Renamed(bs[v], dev, blockno)], Relisted(lists, v, from, to))
  {
    var bs1 := bs[v := Renamed(bs[v], dev, blockno)];
    var lists' := Relisted(lists, v, from, to);
    RelistedShape(lists, v, from, to, j);
    forall h, a, b | 0 <= h < |lists'| && 0 <= a < b < |lists'[h]|
      ensures SameBlock(bs1[lists'[h][a]], bs1[lists'[h][b]]) ==> !Live(bs1[lists'[h][b]])
    {
      if h == to {
        MovedUnshadowedTo(bs, lists, nbuf, v, from, to, j, dev, blockno, a, b);
      } else if h == from {
        var a', b' := if a < j then a else a + 1, if b < j then b else b + 1;
        assert lists'[h][a] == lists[from][a'] && lists'[h][b] == lists[from][b'];
      }
    }
  }

  lemma MovedUnshadowedTo(bs: seq<Buf>, lists: seq<seq<nat>>, nbuf: nat, v: nat, from: nat, to: nat, j: nat,
                          dev: nat, blockno: nat, a: nat, b: nat)
    requires Shaped(bs, lists, nbuf) && Homed(bs, lists, nbuf) && Unshadowed(bs, lists) && v < nbuf
    requires Moves(lists, v, from, to, j)
    requires Lookup(bs, lists[to], dev, blockno).None?
    requires a < b <= |lists[to]|
    ensures var bs1, l := bs[v := Renamed(bs[v], dev, blockno)], [v] + lists[to];
      SameBlock(bs1[l[a]], bs1[l[b]]) ==> !Live(bs1[l[b]])
  {
    var bs1 := bs[v := Renamed(bs[v], dev, blockno)];
    var l := [v] + lists[to];
    var y := lists[to][b - 1];
    assert l[b] == y;
    assert y != v by {
      assert y in lists[to];
    }
    if a == 0 {
      assert !Holds(bs[y], dev, blockno);
    } else {
      var x := lists[to][a - 1];
      assert l[a] == x;
      assert x != v by {
        assert x in lists[to];
      }
    }
  }

  /** The rings after recycling: unlinking and insertion rewire exactly the two buckets involved. */
  lemma RecycledRings(bs: seq<Buf>, lists: seq<seq<nat>>, nbuf: nat, v: nat, dev: nat, blockno: nat)
    requires Wellformed(bs, lists, nbuf) && v < nbuf
    ensures var from, to := Hash(bs[v].blockno, |lists|), Hash(blockno, |lists|);
      LinksInRange(bs) && v in lists[from] &&
      Rings(Recycled(bs, nbuf, v, from, to, dev, blockno), Relisted(lists, v, from, to), nbuf)
  {
    var from, to := Hash(bs[v].blockno, |lists|), Hash(blockno, |lists|);
    WellformedLinksInRange(bs, lists, nbuf);
    OnExactlyOneList(bs, lists, nbuf, v);
    var bs1 := bs[v := Renamed(bs[v], dev, blockno)];
    forall g | 0 <= g < |lists|
      ensures Ring(bs1, Head(nbuf, g), lists[g])
    {
      RingSameLinks(bs, Head(nbuf, g), lists[g], v, Renamed(bs[v], dev, blockno));
    }
    if from != to {
      var j := IndexOf(lists[from], v);
      RelistedShape(lists, v, from, to, j);
      forall g | 0 <= g < |lists|
        ensures Ring(Recycled(bs, nbuf, v, from, to, dev, blockno), Head(nbuf, g), Relisted(lists, v, from, to)[g])
      {
        MovedRing(bs, lists, nbuf, v, from, to, j, dev, blockno, g);
      }
    }
  }

  lemma MovedRing(bs: seq<Buf>, lists: seq<seq<nat>>, nbuf: nat, v: nat, from: nat, to: nat, j: nat,
                  dev: nat, blockno: nat, g: nat)
    requires Contents(bs, lists, nbuf) && LinksInRange(bs) && v < nbuf && g < |lists|
    requires Moves(lists, v, from, to, j)
    requires forall g :: 0 <= g < |lists| ==> Ring(bs[v := Renamed(bs[v], dev, blockno)], Head(nbuf, g), lists[g])
    ensures Ring(Recycled(bs, nbuf, v, from, to, dev, blockno), Head(nbuf, g), Relisted(lists, v, from, to)[g])
  {
    var bs1 := bs[v := Renamed(bs[v], dev, blockno)];
    var hf, ht := Head(nbuf, from), Head(nbuf, to);
    RelistedShape(lists, v, from, to, j);
    assert LinksInRange(bs1) by {
      assert forall i :: 0 <= i < |bs| ==> SameLinks(bs1[i], bs[i]);
    }
    BucketsApart(bs, lists, nbuf, from, to);
    if g == from {
      BucketSimple(bs, lists, nbuf, from);
      MoveSource(bs1, hf, lists[from], j, ht, lists[to]);
    } else if g == to {
      BucketSimple(bs, lists, nbuf, to);
      MoveTarget(bs1, hf, lists[from], j, ht, lists[to]);
    } else {
      BucketsApart(bs, lists, nbuf, from, g);
      BucketsApart(bs, lists, nbuf, to, g);
      MoveElsewhere(bs1, hf, lists[from], j, ht, lists[to], Head(nbuf, g), lists[g]);
    }
  }
}
