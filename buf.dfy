/**
 * The buffer cache slot record (kernel/buf.h).
 *
 * The links `prev` and `next` are indices into the cache's arena of records
 * (the NBUF slots followed by the NBUCKET sentinel heads), standing for the
 * C pointers. The sleeplock becomes the flag `locked`: set while some process
 * holds the buffer.
 */
module Buf {

  /** Bytes per disk block (xv6's kernel/fs.h, which is not part of this model). */
  const BSIZE: nat := 1024

  datatype Buf = Buf(
    dev: nat,
    blockno: nat,
    refcnt: nat,
    prev: nat,
    next: nat,
    valid: bool,
    locked: bool,
    lastaccesstick: nat,
    data: seq<bv8>)

  /** Two records cache the same disk block: the identity is the pair (dev, blockno). */
  predicate SameBlock(a: Buf, b: Buf)
  {
    a.dev == b.dev && a.blockno == b.blockno
  }

  /** Whether the record caches (dev, blockno). */
  predicate Holds(b: Buf, dev: nat, blockno: nat)
  {
    b.dev == dev && b.blockno == blockno
  }

  /**
   * A record that someone uses or whose contents mean something: referenced,
   * held, or holding the block's disk contents.
   */
  predicate Live(b: Buf)
  {
    b.refcnt > 0 || b.valid || b.locked
  }

  /** The two records agree on everything but their links. */
  predicate SameButLinks(a: Buf, b: Buf)
  {
    && a.dev == b.dev && a.blockno == b.blockno && a.refcnt == b.refcnt
    && a.valid == b.valid && a.locked == b.locked
    && a.lastaccesstick == b.lastaccesstick && a.data == b.data
  }

  /** The two records carry the same links. */
  predicate SameLinks(a: Buf, b: Buf)
  {
    a.prev == b.prev && a.next == b.next
  }
}
