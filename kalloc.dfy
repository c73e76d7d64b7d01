/**
 * The per-CPU physical page allocator (kernel/kalloc.c).
 *
 * Free 4096-byte frames sit on NCPU free lists, one per CPU. freerange deals
 * the frames of a physical range out round-robin, kfree pushes a frame on the
 * calling CPU's list, and kalloc pops from the caller's own list or, when that
 * one is empty, steals the head of the first non-empty other list.
 *
 * A free list is the sequence of frame addresses from its head; the address 0
 * is C's NULL. The CPU identity (cpuid()) is a parameter; the linker symbol
 * `end` and PHYSTOP are fixed when the allocator is built.
 */
module Kalloc {
  import opened Outcomes

  /** Bytes per page (kernel/riscv.h, which is not part of this model). */
  const PGSIZE: nat := 4096

  /** PGROUNDUP: the first page boundary at or above `a`. */
  function PgRoundUp(a: nat): (r: nat)
    ensures r % PGSIZE == 0 && a <= r < a + PGSIZE
  {
    (a + PGSIZE - 1) / PGSIZE * PGSIZE
  }

  /**
   * How many frames freerange's loop carves starting at `p`: one per step of
   * PGSIZE for as long as the whole frame ends at or below `paEnd`.
   */
  function SeedCount(p: nat, paEnd: nat): (n: nat)
    ensures n == 0 || p + n * PGSIZE <= paEnd
    ensures paEnd < p + (n + 1) * PGSIZE
    decreases paEnd - p
  {
    if p + PGSIZE <= paEnd then 1 + SeedCount(p + PGSIZE, paEnd) else 0
  }

  /**
   * The frames that the first `count` steps of freerange push on list `i`:
   * frame number k (address base + k * PGSIZE) goes to list k mod ncpu, at
   * the head, so the newest frame comes first.
   */
  function Dealt(base: nat, count: nat, ncpu: nat, i: nat): seq<nat>
    requires ncpu > 0
  {
    if count == 0 then []
    else if (count - 1) % ncpu == i then [base + (count - 1) * PGSIZE] + Dealt(base, count - 1, ncpu, i)
    else Dealt(base, count - 1, ncpu, i)
  }

  /** Every frame dealt to list `i` is a page of the range, with frame number congruent to `i`. */
  lemma {:induction false} DealtFrames(base: nat, count: nat, ncpu: nat, i: nat)
    requires ncpu > 0
    ensures forall j :: 0 <= j < |Dealt(base, count, ncpu, i)| ==>
      var f := Dealt(base, count, ncpu, i)[j];
      base <= f && f + PGSIZE <= base + count * PGSIZE &&
      (f - base) % PGSIZE == 0 && ((f - base) / PGSIZE) % ncpu == i
  {
    if count > 0 {
      DealtFrames(base, count - 1, ncpu, i);
      var f := base + (count - 1) * PGSIZE;
      assert (f - base) / PGSIZE == count - 1;
    }
  }

  /** The frames on one list are distinct: each is strictly below the one pushed after it. */
  lemma {:induction false} DealtDescending(base: nat, count: nat, ncpu: nat, i: nat)
    requires ncpu > 0
    ensures forall j, k :: 0 <= j < k < |Dealt(base, count, ncpu, i)| ==>
      Dealt(base, count, ncpu, i)[k] < Dealt(base, count, ncpu, i)[j]
  {
    if count > 0 {
      DealtDescending(base, count - 1, ncpu, i);
      DealtFrames(base, count - 1, ncpu, i);
    }
  }

  /**
   * Round-robin dealing: list `i` receives count / ncpu frames, plus one more
   * when i < count mod ncpu.
   */
  lemma {:induction false} DealtSize(base: nat, count: nat, ncpu: nat, i: nat)
    requires 0 <= i < ncpu
    ensures |Dealt(base, count, ncpu, i)| == count / ncpu + (if i < count % ncpu then 1 else 0)
  {
    if count > 0 {
      DealtSize(base, count - 1, ncpu, i);
      DivModStep(count - 1, ncpu);
    }
  }

  /** How count / ncpu and count % ncpu change when count grows by one. */
  lemma DivModStep(c: nat, n: nat)
    requires n > 0
    ensures (c + 1) % n == (if c % n == n - 1 then 0 else c % n + 1)
    ensures (c + 1) / n == (if c % n == n - 1 then c / n + 1 else c / n)
  {
    var q, r := c / n, c % n;
    if r == n - 1 {
      assert c + 1 == (q + 1) * n + 0;
      DivModUnique(c + 1, n, q + 1, 0);
    } else {
      DivModUnique(c + 1, n, q, r + 1);
    }
  }

  lemma DivModUnique(x: int, n: int, q: int, r: int)
    requires n > 0 && 0 <= r < n && x == q * n + r
    ensures x / n == q && x % n == r
  {
    var q', r' := x / n, x % n;
    assert x == q' * n + r';
    assert (q - q') * n == q * n - q' * n;
    if q > q' {
      MulAtLeast(q - q', n);
    } else if q < q' {
      assert (q' - q) * n == q' * n - q * n;
      MulAtLeast(q' - q, n);
    }
  }

  lemma {:induction false} MulAtLeast(a: nat, n: nat)
    requires a >= 1
    ensures a * n >= n
  {
    if a > 1 {
      MulAtLeast(a - 1, n);
      assert a * n == (a - 1) * n + n;
    }
  }

  /** The lists are balanced: no list holds more than one frame more than another. */
  lemma DealtBalanced(base: nat, count: nat, ncpu: nat, i: nat, j: nat)
    requires i < ncpu && j < ncpu
    ensures |Dealt(base, count, ncpu, i)| <= |Dealt(base, count, ncpu, j)| + 1
  {
    DealtSize(base, count, ncpu, i);
    DealtSize(base, count, ncpu, j);
  }

  /** All free frames, over every list. */
  function FreeFrames(lists: seq<seq<nat>>): multiset<nat>
  {
    if lists == [] then multiset{} else FreeFrames(lists[..|lists| - 1]) + multiset(lists[|lists| - 1])
  }

  /** Replacing one list changes the free frames by exactly the frames that list lost and gained. */
  lemma {:induction false} FreeFramesUpdate(lists: seq<seq<nat>>, i: nat, s: seq<nat>)
    requires i < |lists|
    ensures FreeFrames(lists[i := s]) + multiset(lists[i]) == FreeFrames(lists) + multiset(s)
  {
    var n := |lists| - 1;
    var updated := lists[i := s];
    if i < n {
      FreeFramesUpdate(lists[..n], i, s);
      assert updated[..n] == lists[..n][i := s];
      calc {
        FreeFrames(updated) + multiset(lists[i]);
        FreeFrames(lists[..n][i := s]) + multiset(lists[n]) + multiset(lists[..n][i]);
        FreeFrames(lists[..n]) + multiset(s) + multiset(lists[n]);
        FreeFrames(lists) + multiset(s);
      }
    } else {
      assert updated[..n] == lists[..n];
    }
  }

  /** The lists freerange builds from empty lists in its first `count` steps. */
  function DealtLists(base: nat, count: nat, ncpu: nat): (lists: seq<seq<nat>>)
    requires ncpu > 0
    ensures |lists| == ncpu && forall i :: 0 <= i < ncpu ==> lists[i] == Dealt(base, count, ncpu, i)
  {
    seq(ncpu, i requires 0 <= i => Dealt(base, count, ncpu, i))
  }

  /** Pushing a frame on one list adds exactly that frame to the free frames. */
  lemma FreeFramesPush(lists: seq<seq<nat>>, i: nat, x: nat)
    requires i < |lists|
    ensures FreeFrames(lists[i := [x] + lists[i]]) == FreeFrames(lists) + multiset{x}
  {
    FreeFramesUpdate(lists, i, [x] + lists[i]);
    assert multiset([x] + lists[i]) == multiset{x} + multiset(lists[i]);
    var a, b := FreeFrames(lists[i := [x] + lists[i]]), FreeFrames(lists) + multiset{x};
    assert a + multiset(lists[i]) == b + multiset(lists[i]);
    forall y
      ensures a[y] == b[y]
    {
      assert (a + multiset(lists[i]))[y] == a[y] + multiset(lists[i])[y];
      assert (b + multiset(lists[i]))[y] == b[y] + multiset(lists[i])[y];
    }
  }

  /** Popping the head of one list removes exactly that frame from the free frames. */
  lemma FreeFramesPop(lists: seq<seq<nat>>, i: nat)
    requires i < |lists| && lists[i] != []
    ensures FreeFrames(lists) == FreeFrames(lists[i := lists[i][1..]]) + multiset{lists[i][0]}
  {
    var after := lists[i := lists[i][1..]];
    FreeFramesPush(after, i, lists[i][0]);
    assert [lists[i][0]] + lists[i][1..] == lists[i];
    assert after[i := [lists[i][0]] + after[i]] == lists;
  }

  /** The number of free frames, over every list. */
  function Total(lists: seq<seq<nat>>): (n: nat)
    ensures n == 0 <==> forall i :: 0 <= i < |lists| ==> lists[i] == []
  {
    if lists == [] then 0 else Total(lists[..|lists| - 1]) + |lists[|lists| - 1]|
  }

  /** Total counts the free frames. */
  lemma {:induction false} TotalCountsFreeFrames(lists: seq<seq<nat>>)
    ensures |FreeFrames(lists)| == Total(lists)
  {
    if lists != [] {
      TotalCountsFreeFrames(lists[..|lists| - 1]);
    }
  }

  /** Replacing one list changes the total by the difference of the two lengths. */
  lemma {:induction false} TotalUpdate(lists: seq<seq<nat>>, i: nat, s: seq<nat>)
    requires i < |lists|
    ensures Total(lists[i := s]) + |lists[i]| == Total(lists) + |s|
  {
    var n := |lists| - 1;
    if i < n {
      TotalUpdate(lists[..n], i, s);
      assert lists[i := s][..n] == lists[..n][i := s];
    } else {
      assert lists[i := s][..n] == lists[..n];
    }
  }

  /** freerange seeds exactly `count` frames in all. */
  lemma {:induction false} DealtTotal(base: nat, count: nat, ncpu: nat)
    requires ncpu > 0
    ensures Total(DealtLists(base, count, ncpu)) == count
  {
    var lists := DealtLists(base, count, ncpu);
    if count > 0 {
      DealtTotal(base, count - 1, ncpu);
      var before := DealtLists(base, count - 1, ncpu);
      var id := (count - 1) % ncpu;
      var frame := base + (count - 1) * PGSIZE;
      assert lists == before[id := [frame] + before[id]] by {
        forall i | 0 <= i < ncpu
          ensures lists[i] == before[id := [frame] + before[id]][i]
        {
        }
      }
      TotalUpdate(before, id, [frame] + before[id]);
    } else {
      assert forall i :: 0 <= i < |lists| ==> lists[i] == [];
    }
  }

  /**
   * The list kalloc steals from when the caller's own list is empty: the
   * lowest-indexed non-empty list at or after `from` other than the caller's.
   */
  function StealFrom(lists: seq<seq<nat>>, cpu: nat, from: nat): (s: Option<nat>)
    ensures s.Some? ==> from <= s.value < |lists| && s.value != cpu && lists[s.value] != []
    ensures s.Some? ==> forall j :: from <= j < s.value && j != cpu ==> lists[j] == []
    ensures s.None? ==> forall j :: from <= j < |lists| && j != cpu ==> lists[j] == []
    decreases |lists| - from
  {
    if from >= |lists| then None
    else if from != cpu && lists[from] != [] then Some(from)
    else StealFrom(lists, cpu, from + 1)
  }

  /** The list kalloc takes its frame from: the caller's own if it has one, else a stolen one. */
  function AllocSource(lists: seq<seq<nat>>, cpu: nat): (s: Option<nat>)
    requires cpu < |lists|
    ensures s.None? <==> forall j :: 0 <= j < |lists| ==> lists[j] == []
    ensures s.Some? ==> s.value < |lists| && lists[s.value] != []
    ensures s.Some? && s.value != cpu ==> lists[cpu] == []
  {
    if lists[cpu] != [] then Some(cpu) else StealFrom(lists, cpu, 0)
  }

  /** kfree's address check: page-aligned and inside [end, PHYSTOP). */
  predicate Acceptable(pa: nat, end: nat, phystop: nat)
  {
    pa % PGSIZE == 0 && end <= pa < phystop
  }

  /** Every listed frame passes kfree's check. */
  ghost predicate AllAcceptable(lists: seq<seq<nat>>, end: nat, phystop: nat)
  {
    forall i, k :: 0 <= i < |lists| && 0 <= k < |lists[i]| ==> Acceptable(lists[i][k], end, phystop)
  }

  /** Pushing an acceptable frame on one list keeps every listed frame acceptable. */
  lemma PushKeepsAcceptable(lists: seq<seq<nat>>, id: nat, p: nat, end: nat, phystop: nat)
    requires AllAcceptable(lists, end, phystop) && id < |lists| && Acceptable(p, end, phystop)
    ensures AllAcceptable(lists[id := [p] + lists[id]], end, phystop)
  {
    var after := lists[id := [p] + lists[id]];
    forall i, k | 0 <= i < |after| && 0 <= k < |after[i]|
      ensures Acceptable(after[i][k], end, phystop)
    {
      if i == id && k > 0 {
        assert after[i][k] == lists[id][k - 1];
      }
    }
  }

  /** Popping the head of one list keeps every listed frame acceptable. */
  lemma PopKeepsAcceptable(lists: seq<seq<nat>>, id: nat, end: nat, phystop: nat)
    requires AllAcceptable(lists, end, phystop) && id < |lists| && lists[id] != []
    ensures AllAcceptable(lists[id := lists[id][1..]], end, phystop)
  {
    var after := lists[id := lists[id][1..]];
    forall i, k | 0 <= i < |after| && 0 <= k < |after[i]|
      ensures Acceptable(after[i][k], end, phystop)
    {
      if i == id {
        assert after[i][k] == lists[id][k + 1];
      }
    }
  }

  /** One more step of freerange pushes frame number `total` on list total mod ncpu and on no other. */
  lemma DealtStep(base: nat, total: nat, ncpu: nat, i: nat)
    requires ncpu > 0
    ensures Dealt(base, total + 1, ncpu, i) ==
      if i == total % ncpu then [base + total * PGSIZE] + Dealt(base, total, ncpu, i)
      else Dealt(base, total, ncpu, i)
  {
  }

  /** Pushing frame number `total` on list total mod ncpu deals one more frame to the lists. */
  lemma DealOne(lists: seq<seq<nat>>, orig: seq<seq<nat>>, base: nat, total: nat)
    requires |lists| == |orig| > 0
    requires forall i :: 0 <= i < |lists| ==> lists[i] == Dealt(base, total, |lists|, i) + orig[i]
    ensures var id := total % |lists|;
      forall i :: 0 <= i < |lists| ==>
        lists[id := [base + total * PGSIZE] + lists[id]][i] == Dealt(base, total + 1, |lists|, i) + orig[i]
  {
    forall i | 0 <= i < |lists|
      ensures lists[total % |lists| := [base + total * PGSIZE] + lists[total % |lists|]][i]
        == Dealt(base, total + 1, |lists|, i) + orig[i]
    {
      DealtStep(base, total, |lists|, i);
    }
  }

  /** The next frame of an aligned frame is aligned. */
  lemma NextFrameAligned(a: nat)
    requires a % PGSIZE == 0
    ensures (a + PGSIZE) % PGSIZE == 0
  {
    DivModUnique(a + PGSIZE, PGSIZE, a / PGSIZE + 1, 0);
  }

  /** freerange's index update: (id + 1) % NCPU follows total % NCPU. */
  lemma NextRoundRobin(total: nat, ncpu: nat)
    requires ncpu > 0
    ensures (total % ncpu + 1) % ncpu == (total + 1) % ncpu
  {
    DivModStep(total, ncpu);
    var id := total % ncpu;
    if id + 1 == ncpu {
      DivModUnique(id + 1, ncpu, 1, 0);
    } else {
      DivModUnique(id + 1, ncpu, 0, id + 1);
    }
  }

  /** The allocator: kmem[NCPU] with the frame contents reduced to the byte they were last filled with. */
  class Kmem {
    const ncpu: nat
    /** First address after the kernel (the linker symbol `end`). */
    const end: nat
    /** Top of physical memory (PHYSTOP). */
    const phystop: nat
    /** kmem[i].freelist, head first. */
    var freelist: array<seq<nat>>
    /** For each frame that was ever memset, the byte every one of its PGSIZE bytes now holds. */
    var fill: map<nat, bv8>

    ghost predicate Valid()
      reads this, freelist
    {
      && 0 < ncpu
      && 0 < end
      && freelist.Length == ncpu
      && AllAcceptable(freelist[..], end, phystop)
    }

    /** All free frames. */
    ghost function Free(): multiset<nat>
      reads this, freelist
    {
      FreeFrames(freelist[..])
    }

    /** kinit: empty lists, then freerange(end, PHYSTOP). */
    constructor Kinit(ncpu: nat, end: nat, phystop: nat)
      requires 0 < ncpu && 0 < end
      ensures Valid() && fresh(freelist)
      ensures this.ncpu == ncpu && this.end == end && this.phystop == phystop && fill == map[]
      ensures forall i :: 0 <= i < ncpu ==>
        freelist[i] == Dealt(PgRoundUp(end), SeedCount(PgRoundUp(end), phystop), ncpu, i)
    {
      this.ncpu, this.end, this.phystop := ncpu, end, phystop;
      freelist := new seq<nat>[ncpu](_ => []);
      fill := map[];
      new;
      FreeRange(end, phystop);
    }

    /**
     * freerange: push every whole frame of [paStart, paEnd) on the lists in
     * round-robin order. Its one caller, kinit, passes `end` and PHYSTOP.
     */
    method FreeRange(paStart: nat, paEnd: nat)
      requires Valid() && end <= paStart && paEnd <= phystop
      modifies freelist
      ensures Valid() && fill == old(fill)
      ensures forall i :: 0 <= i < ncpu ==>
        freelist[i] == Dealt(PgRoundUp(paStart), SeedCount(PgRoundUp(paStart), paEnd), ncpu, i) + old(freelist[i])
    {
      var base := PgRoundUp(paStart);
      var p := base;
      var id, total := 0, 0;
      while p + PGSIZE <= paEnd
        invariant p == base + total * PGSIZE && p % PGSIZE == 0 && end <= p
        invariant id == total % ncpu
        invariant SeedCount(base, paEnd) == total + SeedCount(p, paEnd)
        invariant forall i :: 0 <= i < ncpu ==> freelist[i] == Dealt(base, total, ncpu, i) + old(freelist[i])
        invariant Valid()
        decreases paEnd - p
      {
        ghost var before := freelist[..];
        PushKeepsAcceptable(before, id, p, end, phystop);
        DealOne(before, old(freelist[..]), base, total);
        freelist[id] := [p] + freelist[id];
        assert freelist[..] == before[id := [p] + before[id]];
        NextRoundRobin(total, ncpu);
        NextFrameAligned(p);
        id := (id + 1) % ncpu;
        total := total + 1;
        p := p + PGSIZE;
      }
    }

    /**
     * kfree(pa) on CPU `cpu`: panic unless `pa` is a page-aligned address in
     * [end, PHYSTOP); otherwise fill the frame with 1s and push it on the
     * head of the CPU's own list.
     */
    method Kfree(cpu: nat, pa: nat) returns (r: Result<()>)
      requires Valid() && cpu < ncpu
      modifies this, freelist
      ensures Valid() && freelist == old(freelist)
      ensures r.Ok? <==> Acceptable(pa, end, phystop)
      ensures r.Panic? ==> r.msg == "kfree" && freelist[..] == old(freelist[..]) && fill == old(fill)
      ensures r.Ok? ==> freelist[..] == old(freelist[..])[cpu := [pa] + old(freelist[cpu])]
      ensures r.Ok? ==> fill == old(fill)[pa := 1]
      ensures r.Ok? ==> Free() == old(Free()) + multiset{pa}
    {
      if pa % PGSIZE != 0 || pa < end || pa >= phystop {
        return Panic("kfree");
      }
      fill := fill[pa := 1];
      ghost var lists := freelist[..];
      PushKeepsAcceptable(lists, cpu, pa, end, phystop);
      FreeFramesPush(lists, cpu, pa);
      freelist[cpu] := [pa] + freelist[cpu];
      assert freelist[..] == lists[cpu := [pa] + lists[cpu]];
      r := Ok(());
    }

    /**
     * kalloc() on CPU `cpu`: pop the head of the CPU's own list; if it is
     * empty, pop the head of the lowest-indexed non-empty other list. Returns
     * 0 when every list is empty; otherwise fills the frame with 5s.
     */
    method Kalloc(cpu: nat) returns (r: nat)
      requires Valid() && cpu < ncpu
      modifies this, freelist
      ensures Valid() && freelist == old(freelist)
      ensures r == 0 <==> AllocSource(old(freelist[..]), cpu).None?
      ensures r == 0 ==> freelist[..] == old(freelist[..]) && fill == old(fill)
      ensures r != 0 ==> var src := AllocSource(old(freelist[..]), cpu).value;
        r == old(freelist[src])[0] &&
        freelist[..] == old(freelist[..])[src := old(freelist[src])[1..]] &&
        fill == old(fill)[r := 5]
      ensures r != 0 ==> Acceptable(r, end, phystop) && old(Free()) == Free() + multiset{r}
    {
      ghost var lists := freelist[..];
      var src := Pop(cpu);
      if src.Some? {
        r := src.value;
        fill := fill[r := 5];
      } else {
        r := 0;
      }
    }

    /**
     * The list work of kalloc: take the head of the CPU's own list, or else of
     * the first non-empty other list, and return it (None when all are empty).
     */
    method Pop(cpu: nat) returns (r: Option<nat>)
      requires Valid() && cpu < ncpu
      modifies freelist
      ensures Valid()
      ensures r.None? <==> AllocSource(old(freelist[..]), cpu).None?
      ensures r.None? ==> freelist[..] == old(freelist[..])
      ensures r.Some? ==> var src := AllocSource(old(freelist[..]), cpu).value;
        r.value == old(freelist[src])[0] && r.value != 0 &&
        freelist[..] == old(freelist[..])[src := old(freelist[src])[1..]] &&
        Acceptable(r.value, end, phystop) &&
        old(Free()) == Free() + multiset{r.value}
    {
      ghost var lists := freelist[..];
      var id := cpu;
      var head := 0;
      if freelist[id] != [] {
        head := freelist[id][0];
        freelist[id] := freelist[id][1..];
      }
      if head == 0 {
        // steal from others
        var i := 0;
        while i < ncpu
          invariant 0 <= i <= ncpu
          invariant head == 0 && freelist[..] == lists
          invariant StealFrom(lists, cpu, 0) == StealFrom(lists, cpu, i)
        {
          if i != id {
            if freelist[i] != [] {
              head := freelist[i][0];
              freelist[i] := freelist[i][1..];
              break;
            }
          }
          i := i + 1;
        }
      }
      if head == 0 {
        return None;
      }
      r := Some(head);
      var src := AllocSource(lists, cpu).value;
      PopKeepsAcceptable(lists, src, end, phystop);
      FreeFramesPop(lists, src);
    }
  }
}
