/**
 * The circular, sentinel-headed, doubly linked lists of the buffer cache
 * (kernel/bio.c), as values: an arena `bs` of records linked by index, and for
 * one list its sentinel `h` and its members `l` in head.next order.
 */
module BucketRing {
  import opened Buf

  function First(h: nat, l: seq<nat>): nat
  {
    if l == [] then h else l[0]
  }

  function Last(h: nat, l: seq<nat>): nat
  {
    if l == [] then h else l[|l| - 1]
  }

  /** The successor of the k-th member: the next member, or the sentinel after the last. */
  function After(h: nat, l: seq<nat>, k: nat): nat
    requires k < |l|
  {
    if k + 1 < |l| then l[k + 1] else h
  }

  /** The predecessor of the k-th member: the previous member, or the sentinel before the first. */
  function Before(h: nat, l: seq<nat>, k: nat): nat
    requires k < |l|
  {
    if k > 0 then l[k - 1] else h
  }

  /** In `bs`, sentinel `h` heads the circular list h, l[0], ..., l[|l|-1], h in both directions. */
  ghost predicate Ring(bs: seq<Buf>, h: nat, l: seq<nat>)
  {
    && h < |bs|
    && (forall k :: 0 <= k < |l| ==> l[k] < |bs|)
    && bs[h].next == First(h, l)
    && bs[h].prev == Last(h, l)
    && (forall k {:trigger bs[l[k]]} :: 0 <= k < |l| ==> bs[l[k]].next == After(h, l, k))
    && (forall k {:trigger bs[l[k]]} :: 0 <= k < |l| ==> bs[l[k]].prev == Before(h, l, k))
  }

  /** No record occurs twice in the ring h, l. */
  ghost predicate Simple(h: nat, l: seq<nat>)
  {
    && h !in l
    && forall a, b :: 0 <= a < b < |l| ==> l[a] != l[b]
  }

  /** unlink(x): x.prev.next = x.next; x.next.prev = x.prev. */
  function Unlink(bs: seq<Buf>, x: nat): (r: seq<Buf>)
    requires x < |bs| && bs[x].prev < |bs| && bs[x].next < |bs|
    ensures |r| == |bs|
    ensures var p, n := bs[x].prev, bs[x].next;
      && (forall y :: 0 <= y < |bs| && y != p && y != n ==> r[y] == bs[y])
      && r[p].next == n && r[n].prev == p
      && (p != n ==> r[p].prev == bs[p].prev && r[n].next == bs[n].next)
  {
    var p, n := bs[x].prev, bs[x].next;
    var bs1 := bs[p := bs[p].(next := n)];
    bs1[n := bs1[n].(prev := p)]
  }

  /**
   * Insertion of x right after sentinel h: x.next = h.next; x.prev = h;
   * x.next.prev = x; h.next = x.
   */
  function PushFront(bs: seq<Buf>, h: nat, x: nat): (r: seq<Buf>)
    requires h < |bs| && x < |bs| && bs[h].next < |bs|
    ensures |r| == |bs|
    ensures var f := bs[h].next;
      && (forall y :: 0 <= y < |bs| && y != x && y != h && y != f ==> r[y] == bs[y])
      && r[h].next == x && r[f].prev == x
      && (x != h ==> r[x].next == f)
      && (x != f ==> r[x].prev == h)
  {
    var f := bs[h].next;
    var bs1 := bs[x := bs[x].(next := f, prev := h)];
    var bs2 := bs1[f := bs1[f].(prev := x)];
    bs2[h := bs2[h].(next := x)]
  }

  /** `l` without its member at position j. */
  function Without(l: seq<nat>, j: nat): (r: seq<nat>)
    requires j < |l|
    ensures |r| == |l| - 1
    ensures forall k :: 0 <= k < j ==> r[k] == l[k]
    ensures forall k :: j <= k < |r| ==> r[k] == l[k + 1]
    ensures multiset(r) == multiset(l) - multiset{l[j]}
  {
    assert l == l[..j] + [l[j]] + l[j + 1..];
    l[..j] + l[j + 1..]
  }

  /** Every link of every record points into the arena. */
  ghost predicate LinksInRange(bs: seq<Buf>)
  {
    forall i :: 0 <= i < |bs| ==> bs[i].prev < |bs| && bs[i].next < |bs|
  }

  /** The links of a ring's sentinel and members point into the arena. */
  lemma RingLinks(bs: seq<Buf>, h: nat, l: seq<nat>, k: nat)
    requires Ring(bs, h, l) && k < |l|
    ensures bs[l[k]].prev < |bs| && bs[l[k]].next < |bs|
  {
  }

  /** Unlinking keeps every link inside the arena. */
  lemma UnlinkInRange(bs: seq<Buf>, x: nat)
    requires LinksInRange(bs) && x < |bs|
    ensures LinksInRange(Unlink(bs, x))
  {
  }

  /** Insertion after a sentinel keeps every link inside the arena. */
  lemma PushFrontInRange(bs: seq<Buf>, h: nat, x: nat)
    requires LinksInRange(bs) && h < |bs| && x < |bs|
    ensures LinksInRange(PushFront(bs, h, x))
  {
  }

  /** unlink rewrites links only. */
  lemma UnlinkOnlyLinks(bs: seq<Buf>, x: nat)
    requires x < |bs| && bs[x].prev < |bs| && bs[x].next < |bs|
    ensures forall i :: 0 <= i < |bs| ==> SameButLinks(Unlink(bs, x)[i], bs[i])
  {
  }

  /** Insertion rewrites links only. */
  lemma PushFrontOnlyLinks(bs: seq<Buf>, h: nat, x: nat)
    requires h < |bs| && x < |bs| && bs[h].next < |bs|
    ensures forall i :: 0 <= i < |bs| ==> SameButLinks(PushFront(bs, h, x)[i], bs[i])
  {
  }

  /** Writing a record outside the ring leaves the ring intact. */
  lemma RingUntouched(bs: seq<Buf>, h: nat, l: seq<nat>, c: nat, v: Buf)
    requires Ring(bs, h, l) && c < |bs| && c != h && c !in l
    ensures Ring(bs[c := v], h, l)
  {
    var bs' := bs[c := v];
    forall k | 0 <= k < |l|
      ensures bs'[l[k]] == bs[l[k]]
    {
      assert l[k] in l;
    }
  }

  /** Writing a record without changing its links leaves every ring intact. */
  lemma RingSameLinks(bs: seq<Buf>, h: nat, l: seq<nat>, c: nat, v: Buf)
    requires Ring(bs, h, l) && c < |bs| && SameLinks(v, bs[c])
    ensures Ring(bs[c := v], h, l)
  {
    var bs' := bs[c := v];
    forall k | 0 <= k < |l|
      ensures SameLinks(bs'[l[k]], bs[l[k]])
    {
    }
  }

  /** Unlinking the member at position j of a ring leaves the ring of the other members. */
  lemma RingUnlink(bs: seq<Buf>, h: nat, l: seq<nat>, j: nat)
    requires Ring(bs, h, l) && Simple(h, l) && j < |l|
    ensures Ring(Unlink(bs, l[j]), h, Without(l, j))
  {
    var x := l[j];
    var p, n := Before(h, l, j), After(h, l, j);
    var bs' := Unlink(bs, x);
    var l' := Without(l, j);
    assert p == n ==> p == h by {
      if 0 < j < |l| - 1 {
        assert l[j - 1] != l[j + 1];
      }
    }
    forall k | 0 <= k < |l'|
      ensures bs'[l'[k]].next == After(h, l', k)
    {
      UnlinkNext(bs, h, l, j, k);
    }
    forall k | 0 <= k < |l'|
      ensures bs'[l'[k]].prev == Before(h, l', k)
    {
      UnlinkPrev(bs, h, l, j, k);
    }
  }

  lemma UnlinkNext(bs: seq<Buf>, h: nat, l: seq<nat>, j: nat, k: nat)
    requires Ring(bs, h, l) && Simple(h, l) && j < |l| && k < |l| - 1
    ensures Unlink(bs, l[j])[Without(l, j)[k]].next == After(h, Without(l, j), k)
  {
    var p, n := Before(h, l, j), After(h, l, j);
    var l' := Without(l, j);
    if k < j {
      assert l'[k] == l[k];
      if k + 1 < j {
        assert l[k] != l[j - 1];
        assert l[k] != n by {
          if j + 1 < |l| {
            assert l[k] != l[j + 1];
          }
        }
      }
    } else {
      assert l'[k] == l[k + 1];
      assert l[k + 1] != p by {
        if j > 0 {
          assert l[j - 1] != l[k + 1];
        }
      }
      if k > j {
        assert l[k + 1] != n by {
          assert l[j + 1] != l[k + 1];
        }
      } else {
        assert p != n by {
          if j > 0 {
            assert l[j - 1] != l[j + 1];
          }
        }
      }
    }
  }

  lemma UnlinkPrev(bs: seq<Buf>, h: nat, l: seq<nat>, j: nat, k: nat)
    requires Ring(bs, h, l) && Simple(h, l) && j < |l| && k < |l| - 1
    ensures Unlink(bs, l[j])[Without(l, j)[k]].prev == Before(h, Without(l, j), k)
  {
    var p, n := Before(h, l, j), After(h, l, j);
    var l' := Without(l, j);
    if k < j {
      assert l'[k] == l[k];
      assert l[k] != n by {
        if j + 1 < |l| {
          assert l[k] != l[j + 1];
        }
      }
      if k + 1 < j {
        assert l[k] != p by {
          assert l[k] != l[j - 1];
        }
      } else {
        assert p != n by {
          if j + 1 < |l| {
            assert l[j - 1] != l[j + 1];
          }
        }
      }
    } else {
      assert l'[k] == l[k + 1];
      assert l[k + 1] != p by {
        if j > 0 {
          assert l[j - 1] != l[k + 1];
        }
      }
      if k > j {
        assert l[k + 1] != n by {
          assert l[j + 1] != l[k + 1];
        }
      }
    }
  }

  /** Writing a record that is in neither ring leaves both rings of an unlink intact. */
  lemma UnlinkElsewhere(bs: seq<Buf>, x: nat, h: nat, l: seq<nat>)
    requires x < |bs| && bs[x].prev < |bs| && bs[x].next < |bs|
    requires Ring(bs, h, l)
    requires bs[x].prev != h && bs[x].prev !in l && bs[x].next != h && bs[x].next !in l
    ensures Ring(Unlink(bs, x), h, l)
  {
    var p, n := bs[x].prev, bs[x].next;
    var bs1 := bs[p := bs[p].(next := n)];
    RingUntouched(bs, h, l, p, bs[p].(next := n));
    RingUntouched(bs1, h, l, n, bs1[n].(prev := p));
  }

  /** Inserting a record that is not in the ring right after the sentinel makes it the first member. */
  lemma RingPushFront(bs: seq<Buf>, h: nat, l: seq<nat>, x: nat)
    requires Ring(bs, h, l) && Simple(h, l) && x < |bs| && x != h && x !in l
    ensures Ring(PushFront(bs, h, x), h, [x] + l)
  {
    var f := First(h, l);
    var bs' := PushFront(bs, h, x);
    var l' := [x] + l;
    var bs1 := bs[x := bs[x].(next := f, prev := h)];
    var bs2 := bs1[f := bs1[f].(prev := x)];
    assert bs'[x].next == f && bs'[x].prev == h;
    assert bs'[h].next == x;
    assert bs'[h].prev == Last(h, l');
    forall k | 0 <= k < |l'|
      ensures bs'[l'[k]].next == After(h, l', k) && bs'[l'[k]].prev == Before(h, l', k)
    {
      if k > 0 {
        PushFrontMember(bs, h, l, x, k - 1);
      }
    }
  }

  /** After the insertion of x, the old member at position j keeps its links, but for the first one's prev. */
  lemma PushFrontMember(bs: seq<Buf>, h: nat, l: seq<nat>, x: nat, j: nat)
    requires Ring(bs, h, l) && Simple(h, l) && x < |bs| && x != h && x !in l && j < |l|
    ensures var bs' := PushFront(bs, h, x);
      && bs'[l[j]].next == After(h, l, j)
      && bs'[l[j]].prev == if j == 0 then x else l[j - 1]
  {
    var y := l[j];
    assert y != x && y != h;
    if j > 0 {
      assert y != l[0];
    }
  }

  /** Inserting into one ring leaves a ring that shares no record with it intact. */
  lemma PushFrontElsewhere(bs: seq<Buf>, h: nat, x: nat, g: nat, m: seq<nat>)
    requires h < |bs| && x < |bs| && bs[h].next < |bs|
    requires Ring(bs, g, m)
    requires h != g && h !in m && x != g && x !in m && bs[h].next != g && bs[h].next !in m
    ensures Ring(PushFront(bs, h, x), g, m)
  {
    var f := bs[h].next;
    var bs1 := bs[x := bs[x].(next := f, prev := h)];
    var bs2 := bs1[f := bs1[f].(prev := x)];
    RingUntouched(bs, g, m, x, bs[x].(next := f, prev := h));
    RingUntouched(bs1, g, m, f, bs1[f].(prev := x));
    RingUntouched(bs2, g, m, h, bs2[h].(next := x));
  }

  /** bget's move of record x to the front of the ring headed by g: unlink, then insert after g. */
  function Move(bs: seq<Buf>, x: nat, g: nat): (r: seq<Buf>)
    requires LinksInRange(bs) && x < |bs| && g < |bs|
    ensures |r| == |bs| && LinksInRange(r)
    ensures forall i :: 0 <= i < |bs| ==> SameButLinks(r[i], bs[i])
  {
    UnlinkInRange(bs, x);
    UnlinkOnlyLinks(bs, x);
    var bs1 := Unlink(bs, x);
    PushFrontInRange(bs1, g, x);
    PushFrontOnlyLinks(bs1, g, x);
    PushFront(bs1, g, x)
  }

  /** The rings h, l and g, m share no record. */
  ghost predicate Apart(h: nat, l: seq<nat>, g: nat, m: seq<nat>)
  {
    && h != g && h !in m && g !in l
    && forall k :: 0 <= k < |l| ==> l[k] !in m
  }

  /** The neighbours of a ring member are the sentinel or members. */
  lemma Neighbours(h: nat, l: seq<nat>, j: nat)
    requires j < |l|
    ensures Before(h, l, j) == h || Before(h, l, j) in l
    ensures After(h, l, j) == h || After(h, l, j) in l
  {
    if j > 0 {
      assert l[j - 1] in l;
    }
    if j + 1 < |l| {
      assert l[j + 1] in l;
    }
  }

  /** Moving the j-th member of ring h, l to ring g, m leaves ring h without it. */
  lemma MoveSource(bs: seq<Buf>, h: nat, l: seq<nat>, j: nat, g: nat, m: seq<nat>)
    requires LinksInRange(bs) && Ring(bs, h, l) && Simple(h, l) && j < |l|
    requires Ring(bs, g, m) && Apart(h, l, g, m)
    ensures Ring(Move(bs, l[j], g), h, Without(l, j))
  {
    var x := l[j];
    var w := Without(l, j);
    var bs2 := Unlink(bs, x);
    Neighbours(h, l, j);
    RingUnlink(bs, h, l, j);
    assert bs2[g] == bs[g];
    var f := First(g, m);
    assert f == g || f in m by {
      if m != [] {
        assert m[0] in m;
      }
    }
    assert f != h && f !in l;
    forall k | 0 <= k < |w|
      ensures w[k] != g && w[k] != x && w[k] != f
    {
      var k' := if k < j then k else k + 1;
      assert w[k] == l[k'];
      assert l[k'] in l;
    }
    PushFrontElsewhere(bs2, g, x, h, w);
  }

  /** Moving the j-th member of ring h, l to ring g, m puts it at the front of ring g. */
  lemma MoveTarget(bs: seq<Buf>, h: nat, l: seq<nat>, j: nat, g: nat, m: seq<nat>)
    requires LinksInRange(bs) && Ring(bs, h, l) && j < |l|
    requires Ring(bs, g, m) && Simple(g, m) && Apart(h, l, g, m)
    ensures Ring(Move(bs, l[j], g), g, [l[j]] + m)
  {
    var x := l[j];
    Neighbours(h, l, j);
    UnlinkInRange(bs, x);
    UnlinkElsewhere(bs, x, g, m);
    assert x !in m;
    RingPushFront(Unlink(bs, x), g, m, x);
  }

  /** Moving a member between two rings leaves a third ring, apart from both, intact. */
  lemma MoveElsewhere(bs: seq<Buf>, h: nat, l: seq<nat>, j: nat, g: nat, m: seq<nat>, e: nat, o: seq<nat>)
    requires LinksInRange(bs) && Ring(bs, h, l) && j < |l| && Ring(bs, g, m) && Apart(h, l, g, m)
    requires Ring(bs, e, o) && Apart(h, l, e, o) && Apart(g, m, e, o)
    ensures Ring(Move(bs, l[j], g), e, o)
  {
    var x := l[j];
    var bs2 := Unlink(bs, x);
    Neighbours(h, l, j);
    assert x in l;
    UnlinkInRange(bs, x);
    UnlinkElsewhere(bs, x, e, o);
    assert bs2[g] == bs[g];
    assert First(g, m) == g || First(g, m) in m by {
      if m != [] {
        assert m[0] in m;
      }
    }
    PushFrontElsewhere(bs2, g, x, e, o);
  }
}
