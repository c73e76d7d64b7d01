/**
 * The buffer cache of kernel/bio.c with the locks taken out: every operation
 * is one atomic, sequential step on the arena of slot records.
 *
 * The arena `bufs` holds bcache.buf[0 .. nbuf-1] followed by the sentinels
 * bcache.heads[0 .. nbucket-1]; `lists` is the ghost content of each bucket.
 * NBUF and NBUCKET (kernel/param.h, not part of this model) are the
 * constructor's parameters, the kernel clock `ticks` is a parameter of the
 * operations that read it, and the disk driver is a parameter (bread) or a
 * result (bwrite).
 */
module Bio {
  import opened Buf
  import opened BucketRing
  import opened CacheState
  import opened Outcomes

  /** The slots n-1, ..., 1, 0: binit pushes slot 0 first, so the last slot ends up first. */
  function Descending(n: nat): (r: seq<nat>)
    ensures |r| == n && forall k :: 0 <= k < n ==> r[k] == n - 1 - k
  {
    if n == 0 then [] else [n - 1] + Descending(n - 1)
  }

  /** A record as the static bcache holds it before binit: all fields zero. */
  function Zeroed(): (b: Buf)
    ensures Holds(b, 0, 0) && !Live(b) && |b.data| == BSIZE
  {
    Buf(0, 0, 0, 0, 0, false, false, 0, seq(BSIZE, _ => 0 as bv8))
  }

  /** The lists right after binit has pushed slots 0 .. n-1: all in bucket 0. */
  function Seeded(nbucket: nat, n: nat): (r: seq<seq<nat>>)
    ensures |r| == nbucket && forall h :: 0 <= h < nbucket ==> r[h] == if h == 0 then Descending(n) else []
  {
    seq(nbucket, h => if h == 0 then Descending(n) else [])
  }

  /** One step of binit's slot loop: stamping slot i and pushing it on bucket 0 keeps every ring. */
  lemma InitPush(before: seq<Buf>, stamped: seq<Buf>, after: seq<Buf>, nbuf: nat, nbucket: nat, i: nat, ticks: nat)
    requires nbucket > 0 && |before| == nbuf + nbucket && i < nbuf
    requires Rings(before, Seeded(nbucket, i), nbuf)
    requires stamped == before[i := before[i].(lastaccesstick := ticks)]
    requires stamped[Head(nbuf, 0)].next < |stamped|
    requires after == PushFront(stamped, Head(nbuf, 0), i)
    ensures Rings(after, Seeded(nbucket, i + 1), nbuf)
  {
    var lists := Seeded(nbucket, i);
    var h0 := Head(nbuf, 0);
    var d := Descending(i);
    forall g | 0 <= g < nbucket
      ensures Ring(stamped, Head(nbuf, g), lists[g])
    {
      RingSameLinks(before, Head(nbuf, g), lists[g], i, stamped[i]);
    }
    assert Ring(stamped, h0, d);
    assert Simple(h0, d);
    assert Descending(i + 1) == [i] + d;
    RingPushFront(stamped, h0, d, i);
    forall g | 0 < g < nbucket
      ensures Ring(after, Head(nbuf, g), [])
    {
      PushFrontElsewhere(stamped, h0, i, Head(nbuf, g), []);
    }
  }

  /** The state binit leaves satisfies the invariant. */
  lemma InitWellformed(bs: seq<Buf>, nbuf: nat, nbucket: nat)
    requires nbucket > 0 && |bs| == nbuf + nbucket
    requires Rings(bs, Seeded(nbucket, nbuf), nbuf)
    requires forall j :: 0 <= j < nbuf ==> Holds(bs[j], 0, 0) && !Live(bs[j]) && |bs[j].data| == BSIZE
    ensures Wellformed(bs, Seeded(nbucket, nbuf), nbuf)
  {
    var lists := Seeded(nbucket, nbuf);
    var d := Descending(nbuf);
    forall j | 0 <= j < nbuf
      ensures j in lists[Hash(bs[j].blockno, nbucket)]
    {
      assert d[nbuf - 1 - j] == j;
    }
  }

  /** Storing a stamp below the running minimum into the 32-bit minimum loses nothing. */
  lemma NoTruncation(x: nat)
    requires x < NoTick
    ensures x % 0x1_0000_0000 == x
  {
  }

  /**
   * The state bread leaves, from the arena `bs0` and lists `ls0` before it to
   * the arena `bs` and lists `ls` after it; `disk` is the block's contents on
   * the disk and `read` says whether the disk was read. A panic of bget
   * changes nothing. A hit gains a reference and holds the slot, which keeps
   * its data unless it was not valid. A miss recycles the slot bget's sweep
   * chooses and fills it from the disk. Either way the slot ends up valid.
   */
  ghost predicate ReadEffect(bs0: seq<Buf>, ls0: seq<seq<nat>>, bs: seq<Buf>, ls: seq<seq<nat>>,
                             nbuf: nat, dev: nat, blockno: nat, disk: seq<bv8>, r: Result<nat>, read: bool)
  {
    && |ls0| > 0 && |bs0| == nbuf + |ls0| && |bs| == |bs0| && LinksInRange(bs0)
    && (forall h, k :: 0 <= h < |ls0| && 0 <= k < |ls0[h]| ==> ls0[h][k] < nbuf)
    && (r.Panic? ==> r.msg == "bget: no buffers" && !read && bs == bs0 && ls == ls0)
    && (r.Ok? ==> r.value < nbuf && Holds(bs[r.value], dev, blockno) && bs[r.value].locked && bs[r.value].valid)
    && var id := Hash(blockno, |ls0|);
    && var p := Lookup(bs0, ls0[id], dev, blockno);
    && (r.Ok? ==> (read <==> !(p.Some? && bs0[ls0[id][p.value]].valid)))
    && (read ==> r.Ok? && bs[r.value].data == disk)
    && (p.Some? ==>
          var b := ls0[id][p.value];
          && r == Ok(b) && ls == ls0
          && bs == bs0[b := Acquired(bs0[b]).(valid := true, data := if read then disk else bs0[b].data)])
    && (p.None? && r.Ok? ==>
          var v := r.value;
          var from := Hash(bs0[v].blockno, |ls0|);
          var rec := Recycled(bs0, nbuf, v, from, id, dev, blockno);
          && read && SweepChoice(bs0, ls0, v)
          && v in ls0[from] && ls == Relisted(ls0, v, from, id)
          && bs == rec[v := rec[v].(valid := true, data := disk)])
  }

  /** bread's outcome from bget's (`bs1`, `ls1`) and the disk read's (`bs2`). */
  lemma ReadOutcome(bs0: seq<Buf>, ls0: seq<seq<nat>>, bs1: seq<Buf>, ls1: seq<seq<nat>>, bs2: seq<Buf>,
                    nbuf: nat, dev: nat, blockno: nat, disk: seq<bv8>, r: Result<nat>, read: bool)
    requires |ls0| > 0 && |bs0| == nbuf + |ls0| && LinksInRange(bs0)
    requires forall h, k :: 0 <= h < |ls0| && 0 <= k < |ls0[h]| ==> ls0[h][k] < nbuf
    requires |bs1| == |bs0| && (r.Ok? ==> r.value < nbuf && Holds(bs1[r.value], dev, blockno) && bs1[r.value].locked)
    requires var id := Hash(blockno, |ls0|); var p := Lookup(bs0, ls0[id], dev, blockno);
      p.Some? ==>
        var b := ls0[id][p.value];
        && r == Ok(b) && ls1 == ls0 && bs1 == bs0[b := Acquired(bs0[b])]
    requires r.Panic? ==> r.msg == "bget: no buffers" && bs1 == bs0 && ls1 == ls0
    requires var id := Hash(blockno, |ls0|); var p := Lookup(bs0, ls0[id], dev, blockno);
      p.None? && r.Ok? ==>
        var v := r.value;
        var from := Hash(bs0[v].blockno, |ls0|);
        && SweepChoice(bs0, ls0, v)
        && v in ls0[from]
        && bs1 == Recycled(bs0, nbuf, v, from, id, dev, blockno)
        && ls1 == Relisted(ls0, v, from, id)
    requires r.Panic? ==> !read && bs2 == bs1
    requires r.Ok? ==> (read <==> !bs1[r.value].valid)
    requires r.Ok? ==> bs2 == bs1[r.value := bs1[r.value].(valid := true, data := if read then disk else bs1[r.value].data)]
    ensures ReadEffect(bs0, ls0, bs2, ls1, nbuf, dev, blockno, disk, r, read)
  {
    var id := Hash(blockno, |ls0|);
    var p := Lookup(bs0, ls0[id], dev, blockno);
    if r.Ok? && p.Some? {
      var b := r.value;
      assert bs2 == bs0[b := Acquired(bs0[b]).(valid := true, data := if read then disk else bs0[b].data)];
    } else if r.Ok? {
      var v := r.value;
      var rec := Recycled(bs0, nbuf, v, Hash(bs0[v].blockno, |ls0|), id, dev, blockno);
      assert !rec[v].valid;
    }
  }

  class BCache {
    const nbuf: nat
    const nbucket: nat
    const bufs: array<Buf>
    ghost var lists: seq<seq<nat>>

    ghost predicate Valid()
      reads this, bufs
    {
      && nbucket > 0 && bufs.Length == nbuf + nbucket && |lists| == nbucket
      && Wellformed(bufs[..], lists, nbuf) && LinksInRange(bufs[..])
    }

    /**
     * binit: every sentinel links to itself, then every slot, stamped with the
     * current tick, is pushed at the head of bucket hash(blockno), which is
     * bucket 0 since every block number is still 0.
     */
    constructor Binit(nbuf: nat, nbucket: nat, ticks: nat)
      requires nbucket > 0
      ensures Valid() && fresh(bufs)
      ensures this.nbuf == nbuf && this.nbucket == nbucket
      ensures lists[0] == Descending(nbuf) && forall h :: 0 < h < nbucket ==> lists[h] == []
      ensures forall i :: 0 <= i < nbuf ==>
        Holds(bufs[i], 0, 0) && bufs[i].refcnt == 0 && !bufs[i].valid && !bufs[i].locked
        && bufs[i].lastaccesstick == ticks
    {
      this.nbuf := nbuf;
      this.nbucket := nbucket;
      bufs := new Buf[nbuf + nbucket](_ => Zeroed());
      new;
      LinkHeads();
      lists := Seeded(nbucket, 0);
      for i := 0 to nbuf
        invariant lists == Seeded(nbucket, i) && Rings(bufs[..], lists, nbuf)
        invariant forall j :: 0 <= j < nbuf ==>
          && Holds(bufs[j], 0, 0) && !Live(bufs[j]) && |bufs[j].data| == BSIZE
          && bufs[j].lastaccesstick == if j < i then ticks else 0
      {
        SeedSlot(i, ticks);
      }
      InitWellformed(bufs[..], nbuf, nbucket);
      WellformedLinksInRange(bufs[..], lists, nbuf);
    }

    /** binit's slot loop body: stamp slot i and push it at the head of bucket hash(blockno). */
    method SeedSlot(i: nat, ticks: nat)
      requires nbucket > 0 && bufs.Length == nbuf + nbucket && i < nbuf
      requires lists == Seeded(nbucket, i) && Rings(bufs[..], lists, nbuf)
      requires bufs[i].blockno == 0
      modifies this, bufs
      ensures lists == Seeded(nbucket, i + 1) && Rings(bufs[..], lists, nbuf)
      ensures forall j :: 0 <= j < nbuf ==>
        SameButLinks(bufs[j], if j == i then old(bufs[i]).(lastaccesstick := ticks) else old(bufs[j]))
    {
      ghost var before := bufs[..];
      bufs[i] := bufs[i].(lastaccesstick := ticks);
      var id := Hash(bufs[i].blockno, nbucket);
      var h := nbuf + id;
      assert id == 0 && Ring(before, Head(nbuf, 0), lists[0]) && lists[0] == Descending(i);
      ghost var stamped := bufs[..];
      bufs[i] := bufs[i].(next := bufs[h].next, prev := h);
      var f := bufs[i].next;
      bufs[f] := bufs[f].(prev := i);
      bufs[h] := bufs[h].(next := i);
      assert bufs[..] == PushFront(stamped, h, i);
      PushFrontOnlyLinks(stamped, h, i);
      InitPush(before, stamped, bufs[..], nbuf, nbucket, i, ticks);
      lists := Seeded(nbucket, i + 1);
    }

    /**
     * bget: on a hit in bucket hash(blockno) the slot gains a reference and is
     * held; otherwise the rescan misses as well, the sweep picks the least
     * recently used free slot, which is renamed, marked invalid, given one
     * reference, moved to the block's bucket when it lives elsewhere, and held.
     * With no free slot the kernel panics.
     */
    method Bget(dev: nat, blockno: nat) returns (r: Result<nat>)
      requires Valid()
      modifies this, bufs
      ensures Valid()
      ensures r.Ok? ==> r.value < nbuf && Holds(bufs[r.value], dev, blockno) && bufs[r.value].locked
      ensures var id := Hash(blockno, nbucket); var p := Lookup(old(bufs[..]), old(lists[id]), dev, blockno);
        p.Some? ==>
          var b := old(lists[id][p.value]);
          && r == Ok(b) && lists == old(lists)
          && bufs[..] == old(bufs[..])[b := Acquired(old(bufs[b]))]
      ensures var id := Hash(blockno, nbucket); var p := Lookup(old(bufs[..]), old(lists[id]), dev, blockno);
        p.None? ==> (r.Panic? <==> forall i :: 0 <= i < nbuf ==> !Eligible(old(bufs[i])))
      ensures r.Panic? ==> r.msg == "bget: no buffers" && bufs[..] == old(bufs[..]) && lists == old(lists)
      ensures var id := Hash(blockno, nbucket); var p := Lookup(old(bufs[..]), old(lists[id]), dev, blockno);
        p.None? && r.Ok? ==>
          var v := r.value;
          var from := Hash(old(bufs[v]).blockno, nbucket);
          && SweepChoice(old(bufs[..]), old(lists), v)
          && Eligible(old(bufs[v]))
          && (forall i :: 0 <= i < nbuf && old(bufs[i]).refcnt == 0 ==>
                old(bufs[v]).lastaccesstick <= old(bufs[i]).lastaccesstick)
          && v in old(lists[from])
          && bufs[..] == Recycled(old(bufs[..]), nbuf, v, from, id, dev, blockno)
          && lists == Relisted(old(lists), v, from, id)
    {
      var id := Hash(blockno, nbucket);
      var b := FindCached(id, dev, blockno);
      if b.Some? {
        ghost var k := Lookup(bufs[..], lists[id], dev, blockno).value;
        Hit(b.value, id, k);
        return Ok(b.value);
      }
      r := Miss(id, dev, blockno);
    }

    /** bget once the hit scan of bucket id has missed: the rescan, the sweep, then the panic or the recycling. */
    method Miss(id: nat, dev: nat, blockno: nat) returns (r: Result<nat>)
      requires Valid() && id == Hash(blockno, nbucket) && Lookup(bufs[..], lists[id], dev, blockno).None?
      modifies this, bufs
      ensures Valid()
      ensures r.Ok? ==> r.value < nbuf && Holds(bufs[r.value], dev, blockno) && bufs[r.value].locked
      ensures r.Panic? <==> forall i :: 0 <= i < nbuf ==> !Eligible(old(bufs[i]))
      ensures r.Panic? ==> r.msg == "bget: no buffers" && bufs[..] == old(bufs[..]) && lists == old(lists)
      ensures r.Ok? ==> SweepChoice(old(bufs[..]), old(lists), r.value)
      ensures r.Ok? ==>
          var v := r.value;
          var from := Hash(old(bufs[v]).blockno, nbucket);
          && Eligible(old(bufs[v]))
          && (forall i :: 0 <= i < nbuf && old(bufs[i]).refcnt == 0 ==>
                old(bufs[v]).lastaccesstick <= old(bufs[i]).lastaccesstick)
          && v in old(lists[from])
          && bufs[..] == Recycled(old(bufs[..]), nbuf, v, from, id, dev, blockno)
          && lists == Relisted(old(lists), v, from, id)
    {
      var again := FindCached(id, dev, blockno);
      assert again.None?;
      var sel, index := ChooseVictim();
      if sel == -1 {
        return Panic("bget: no buffers");
      }
      Recycle(sel, index, id, dev, blockno);
      return Ok(sel);
    }

    /** bget's hit: the k-th slot of bucket id, the first to cache its block, gains a reference and is held. */
    method Hit(b: nat, id: nat, ghost k: nat)
      requires Valid() && id < nbucket && k < |lists[id]| && lists[id][k] == b && Leading(bufs[..], lists[id], k)
      modifies bufs
      ensures Valid()
      ensures bufs[..] == old(bufs[..])[b := Acquired(old(bufs[b]))]
    {
      UpdateInPlace(bufs[..], lists, nbuf, id, k, Acquired(bufs[b]));
      bufs[b] := Acquired(bufs[b]);
      WellformedLinksInRange(bufs[..], lists, nbuf);
    }

    /**
     * bget's recycling of slot v, found in bucket `index`, for (dev, blockno)
     * of bucket id: rename it, and when the buckets differ unlink it and push
     * it at the head of bucket id.
     */
    method Recycle(v: nat, index: nat, id: nat, dev: nat, blockno: nat)
      requires Valid() && v < nbuf && id == Hash(blockno, nbucket) && index == Hash(bufs[v].blockno, nbucket)
      requires Lookup(bufs[..], lists[id], dev, blockno).None?
      modifies this, bufs
      ensures Valid()
      ensures v in old(lists[index])
      ensures bufs[..] == Recycled(old(bufs[..]), nbuf, v, index, id, dev, blockno)
      ensures lists == Relisted(old(lists), v, index, id)
    {
      ghost var bs := bufs[..];
      ghost var ls := lists;
      OnExactlyOneList(bs, lists, nbuf, v);
      Rewrite(v, index, id, dev, blockno);
      lists := Relisted(lists, v, index, id);
      RecycleKeepsWellformed(bs, ls, nbuf, v, dev, blockno);
    }

    /** The writes of bget's recycling: the rename and the sleeplock, then, across buckets, the unlink and the push. */
    method Rewrite(v: nat, index: nat, id: nat, dev: nat, blockno: nat)
      requires bufs.Length == nbuf + nbucket && LinksInRange(bufs[..]) && v < nbuf && id < nbucket
      modifies bufs
      ensures LinksInRange(old(bufs[..]))
      ensures bufs[..] == Recycled(old(bufs[..]), nbuf, v, index, id, dev, blockno)
    {
      ghost var bs := bufs[..];
      bufs[v] := Renamed(bufs[v], dev, blockno);
      ghost var bs1 := bufs[..];
      assert bs1 == bs[v := Renamed(bs[v], dev, blockno)];
      RenamedInRange(bs, v, dev, blockno);
      if index != id {
        assert Recycled(bs, nbuf, v, index, id, dev, blockno) == Move(bs1, v, nbuf + id);
        Relink(v, id);
      } else {
        assert Recycled(bs, nbuf, v, index, id, dev, blockno) == bs1;
      }
    }

    /** bget's relinking of a recycled slot: unlink slot v and push it after the sentinel of bucket id. */
    method Relink(v: nat, id: nat)
      requires bufs.Length == nbuf + nbucket && v < nbuf && id < nbucket
      requires LinksInRange(bufs[..])
      modifies bufs
      ensures LinksInRange(old(bufs[..]))
      ensures bufs[..] == Move(old(bufs[..]), v, nbuf + id)
    {
      ghost var bs := bufs[..];
      var p, n := bufs[v].prev, bufs[v].next;
      bufs[p] := bufs[p].(next := n);
      bufs[n] := bufs[n].(prev := p);
      ghost var bs2 := bufs[..];
      assert bs2 == Unlink(bs, v);
      UnlinkInRange(bs, v);
      var h := nbuf + id;
      bufs[v] := bufs[v].(next := bufs[h].next, prev := h);
      var f := bufs[v].next;
      bufs[f] := bufs[f].(prev := v);
      bufs[h] := bufs[h].(next := v);
      assert bufs[..] == PushFront(bs2, h, v);
    }

    /** Store record v in slot b, which keeps its block and links; v is live only if the slot was. */
    method Put(b: nat, v: Buf)
      requires Valid() && b < nbuf
      requires SameBlock(v, bufs[b]) && SameLinks(v, bufs[b]) && |v.data| == BSIZE
      requires Live(v) ==> Live(bufs[b])
      modifies bufs
      ensures Valid() && bufs[..] == old(bufs[..])[b := v]
    {
      ghost var h := Hash(bufs[b].blockno, nbucket);
      OnExactlyOneList(bufs[..], lists, nbuf, b);
      ghost var k := IndexOf(lists[h], b);
      if Live(v) {
        LiveLeads(bufs[..], lists, nbuf, h, k);
      }
      UpdateInPlace(bufs[..], lists, nbuf, h, k, v);
      bufs[b] := v;
      WellformedLinksInRange(bufs[..], lists, nbuf);
    }

    /**
     * bread: the held slot of bget; when its contents are not valid the disk
     * read fills it with `disk`, the block's contents, and marks it valid.
     */
    method Bread(dev: nat, blockno: nat, disk: seq<bv8>) returns (r: Result<nat>, read: bool)
      requires Valid() && |disk| == BSIZE
      modifies this, bufs
      ensures Valid()
      ensures ReadEffect(old(bufs[..]), old(lists), bufs[..], lists, nbuf, dev, blockno, disk, r, read)
    {
      ghost var bs0, ls0 := bufs[..], lists;
      r := Bget(dev, blockno);
      ghost var bs1, ls1 := bufs[..], lists;
      read := false;
      if r.Ok? {
        read := Fill(r.value, disk);
      }
      ReadOutcome(bs0, ls0, bs1, ls1, bufs[..], nbuf, dev, blockno, disk, r, read);
    }

    /** bread's disk read: a held slot whose contents are not valid is filled with `disk` and marked valid. */
    method Fill(b: nat, disk: seq<bv8>) returns (read: bool)
      requires Valid() && b < nbuf && |disk| == BSIZE && bufs[b].locked
      modifies bufs
      ensures Valid()
      ensures read <==> !old(bufs[b].valid)
      ensures bufs[..] == old(bufs[..])[b := old(bufs[b]).(
        valid := true, data := if read then disk else old(bufs[b].data))]
    {
      read := false;
      if !bufs[b].valid {
        Put(b, bufs[b].(data := disk, valid := true));
        read := true;
      }
    }

    /** bwrite: the caller must hold the slot; what goes to the disk is its payload. */
    method Bwrite(b: nat) returns (r: Result<seq<bv8>>)
      requires Valid() && b < nbuf
      ensures r.Ok? <==> bufs[b].locked
      ensures r.Ok? ==> r.value == bufs[b].data && |r.value| == BSIZE
      ensures r.Panic? ==> r.msg == "bwrite"
    {
      if !bufs[b].locked {
        return Panic("bwrite");
      }
      return Ok(bufs[b].data);
    }

    /**
     * brelse: the caller must hold the slot; the slot is released and loses a
     * reference, and when none is left it is stamped with the current tick.
     */
    method Brelse(b: nat, ticks: nat) returns (r: Result<()>)
      requires Valid() && b < nbuf
      requires bufs[b].locked ==> bufs[b].refcnt > 0
      modifies bufs
      ensures Valid()
      ensures r.Panic? <==> !old(bufs[b].locked)
      ensures r.Panic? ==> r.msg == "brelse" && bufs[..] == old(bufs[..])
      ensures r.Ok? ==> bufs[..] == old(bufs[..])[b := old(bufs[b]).(
        locked := false,
        refcnt := old(bufs[b].refcnt) - 1,
        lastaccesstick := if old(bufs[b].refcnt) == 1 then ticks else old(bufs[b].lastaccesstick))]
    {
      if !bufs[b].locked {
        return Panic("brelse");
      }
      var v := bufs[b].(locked := false);
      v := v.(refcnt := v.refcnt - 1);
      if v.refcnt == 0 {
        v := v.(lastaccesstick := ticks);
      }
      Put(b, v);
      return Ok(());
    }

    /** bpin: one more reference to a slot that is in use. */
    method Bpin(b: nat)
      requires Valid() && b < nbuf && Live(bufs[b])
      modifies bufs
      ensures Valid()
      ensures bufs[..] == old(bufs[..])[b := old(bufs[b]).(refcnt := old(bufs[b].refcnt) + 1)]
    {
      Put(b, bufs[b].(refcnt := bufs[b].refcnt + 1));
    }

    /** bunpin: one reference less; the count is unsigned, so there must be one. */
    method Bunpin(b: nat)
      requires Valid() && b < nbuf && bufs[b].refcnt > 0
      modifies bufs
      ensures Valid()
      ensures bufs[..] == old(bufs[..])[b := old(bufs[b]).(refcnt := old(bufs[b].refcnt) - 1)]
    {
      Put(b, bufs[b].(refcnt := bufs[b].refcnt - 1));
    }

    /**
     * bget's hit scan of bucket id (both the first scan and the rescan): walk
     * from head.next along the next links to the first slot caching
     * (dev, blockno), as Lookup specifies.
     */
    method FindCached(id: nat, dev: nat, blockno: nat) returns (r: Option<nat>)
      requires Valid() && id < nbucket
      ensures var p := Lookup(bufs[..], lists[id], dev, blockno);
        && (r.None? <==> p.None?)
        && (p.Some? ==> r == Some(lists[id][p.value]))
    {
      BucketFacts(bufs[..], lists, nbuf, id);
      r := WalkBucket(id, lists[id], dev, blockno);
    }

    /** The walk of FindCached over bucket id, whose members are `l`. */
    method WalkBucket(id: nat, ghost l: seq<nat>, dev: nat, blockno: nat) returns (r: Option<nat>)
      requires bufs.Length == nbuf + nbucket && id < nbucket && Bucket(bufs[..], nbuf, id, l)
      ensures var p := Lookup(bufs[..], l, dev, blockno);
        && (r.None? <==> p.None?)
        && (p.Some? ==> r == Some(l[p.value]))
    {
      var h := nbuf + id;
      var b := bufs[h].next;
      ghost var k := 0;
      while b != h
        invariant k <= |l| && b == if k < |l| then l[k] else h
        invariant forall j :: 0 <= j < k ==> !Holds(bufs[l[j]], dev, blockno)
        decreases |l| - k
      {
        if bufs[b].dev == dev && bufs[b].blockno == blockno {
          return Some(b);
        }
        b := bufs[b].next;
        k := k + 1;
      }
      return None;
    }

    /** The sweep's choice in a well-formed cache: the least recently used free slot, with its bucket. */
    method ChooseVictim() returns (sel: int, index: int)
      requires Valid()
      ensures -1 <= sel < nbuf && (sel >= 0 ==> index == Hash(bufs[sel].blockno, nbucket))
      ensures SweepChoice(bufs[..], lists, sel)
      ensures sel == -1 <==> forall i :: 0 <= i < nbuf ==> !Eligible(bufs[i])
      ensures sel >= 0 ==>
        && Eligible(bufs[sel])
        && forall i :: 0 <= i < nbuf && bufs[i].refcnt == 0 ==> bufs[sel].lastaccesstick <= bufs[i].lastaccesstick
    {
      AllBuckets(bufs[..], lists, nbuf);
      sel, index := FindVictim();
      LruChoice(bufs[..], lists, nbuf, sel);
    }

    /**
     * bget's LRU sweep: buckets 0 to nbucket-1, each walked from head.prev
     * along the prev links, keeping the slot with refcnt 0 and the smallest
     * stamp seen so far in a 32-bit running minimum that starts at ~0.
     * The choice is the one Victim specifies; `index` is its bucket.
     */
    method FindVictim() returns (sel: int, index: int)
      requires bufs.Length == nbuf + nbucket && nbucket > 0 && |lists| == nbucket
      requires forall h :: 0 <= h < nbucket ==> HashedBucket(bufs[..], nbuf, h, lists[h], nbucket)
      ensures SweepChoice(bufs[..], lists, sel)
      ensures sel >= 0 ==> sel < nbuf && index == Hash(bufs[sel].blockno, nbucket)
    {
      var min: nat := NoTick;
      index := -1;
      sel := -1;
      ghost var order: seq<nat> := [];
      ghost var pos: int := -1;
      for i := 0 to nbucket
        invariant order == ScanOrder(lists[..i])
        invariant Swept(order, min, pos, sel, index)
      {
        ScanOrderStep(lists, i);
        min, sel, index, order, pos := SweepBucket(i, min, sel, index, order, pos);
      }
      assert lists[..nbucket] == lists;
    }

    /** The state of the sweep after visiting `order`: the running minimum, the choice and its bucket. */
    ghost predicate Swept(order: seq<nat>, min: nat, pos: int, sel: int, index: int)
      reads this, bufs
    {
      && bufs.Length == nbuf + nbucket && nbucket > 0
      && (forall j :: 0 <= j < |order| ==> order[j] < nbuf)
      && Chosen(bufs[..], order, min, pos, sel)
      && (sel >= 0 ==> index == Hash(bufs[sel].blockno, nbucket))
    }

    /** One bucket of the sweep: bucket i from head.prev back to the sentinel. */
    method SweepBucket(i: nat, min0: nat, sel0: int, index0: int, ghost order0: seq<nat>, ghost pos0: int)
      returns (min: nat, sel: int, index: int, ghost order: seq<nat>, ghost pos: int)
      requires i < nbucket && |lists| == nbucket && HashedBucket(bufs[..], nbuf, i, lists[i], nbucket)
      requires Swept(order0, min0, pos0, sel0, index0)
      ensures order == order0 + Reverse(lists[i])
      ensures Swept(order, min, pos, sel, index)
    {
      min, sel, index, order, pos := min0, sel0, index0, order0, pos0;
      var h := nbuf + i;
      ghost var l := lists[i];
      var b := bufs[h].prev;
      ghost var k := 0;
      while b != h
        invariant k <= |l| && b == if k < |l| then l[|l| - 1 - k] else h
        invariant order == order0 + Reverse(l)[..k]
        invariant Swept(order, min, pos, sel, index)
        decreases |l| - k
      {
        BucketPrev(bufs[..], nbuf, i, l, nbucket, |l| - 1 - k);
        WalkStep(order, l, k, order0);
        min, sel, index, order, pos := SweepSlot(b, i, min, sel, index, order, pos);
        b := bufs[b].prev;
        k := k + 1;
      }
      assert Reverse(l)[..k] == Reverse(l);
    }

    /** The body of the sweep's inner loop: slot b of bucket i replaces the choice if it is free and older. */
    method SweepSlot(b: nat, i: nat, min0: nat, sel0: int, index0: int, ghost order0: seq<nat>, ghost pos0: int)
      returns (min: nat, sel: int, index: int, ghost order: seq<nat>, ghost pos: int)
      requires b < nbuf && nbucket > 0 && bufs.Length == nbuf + nbucket
      requires Hash(bufs[b].blockno, nbucket) == i
      requires Swept(order0, min0, pos0, sel0, index0)
      ensures order == order0 + [b]
      ensures Swept(order, min, pos, sel, index)
    {
      min, sel, index, order, pos := min0, sel0, index0, order0, pos0;
      SweepStep(bufs[..], order, b);
      if bufs[b].refcnt == 0 && bufs[b].lastaccesstick < min {
        NoTruncation(bufs[b].lastaccesstick);
        min := bufs[b].lastaccesstick % 0x1_0000_0000;
        index := i;
        sel := b;
        pos := |order|;
      }
      order := order + [b];
    }

    /** binit's first loop: every sentinel's prev and next point to itself. */
    method LinkHeads()
      requires bufs.Length == nbuf + nbucket && nbucket > 0
      requires forall i :: 0 <= i < nbuf ==> bufs[i] == Zeroed()
      modifies bufs
      ensures forall i :: 0 <= i < nbuf ==> bufs[i] == Zeroed()
      ensures Rings(bufs[..], Seeded(nbucket, 0), nbuf)
    {
      for h := 0 to nbucket
        invariant forall i :: 0 <= i < nbuf ==> bufs[i] == Zeroed()
        invariant forall g :: 0 <= g < h ==> bufs[Head(nbuf, g)].prev == Head(nbuf, g) && bufs[Head(nbuf, g)].next == Head(nbuf, g)
      {
        bufs[nbuf + h] := bufs[nbuf + h].(prev := nbuf + h, next := nbuf + h);
      }
      assert forall g :: 0 <= g < nbucket ==> Ring(bufs[..], Head(nbuf, g), Seeded(nbucket, 0)[g]);
    }
  }
}
