/** Option type used for nullable pointers and failed lookups. */
module Wrappers {
  datatype Option<+T> = None | Some(value: T)
}

/**
 * Address-space constants of the x86-64 kernel (threads/vaddr.h, threads/loader.h
 * and lib/round.h are not part of this model; their values are restated here)
 * and the page arithmetic built on them.
 */
module Mem {
  /** One byte of memory or of a file. */
  type Byte = b: int | 0 <= b < 256

  const PGSIZE: nat := 4096
  const PGMASK: nat := 4095
  /** Lowest kernel virtual address; everything below is user space. */
  const KERN_BASE: nat := 0x80_0400_0000
  /** Top of the user stack. */
  const USER_STACK: nat := 0x4748_0000
  /** Number of values of a 64-bit and of a 32-bit unsigned integer. */
  const U64: nat := 0x1_0000_0000_0000_0000
  const U32: nat := 0x1_0000_0000

  predicate IsKernelVaddr(va: int) { va >= KERN_BASE }
  predicate IsUserVaddr(va: int) { !IsKernelVaddr(va) }

  /** pg_ofs: the offset of an address within its page. */
  function PgOfs(va: int): (r: nat)
    ensures r < PGSIZE
  {
    va % PGSIZE
  }

  /** pg_round_down: the start of the page that contains `va`. */
  function PgRoundDown(va: int): (r: int)
    ensures r % PGSIZE == 0
    ensures r <= va < r + PGSIZE
  {
    va - va % PGSIZE
  }

  /** ROUND_UP(x, PGSIZE): the least multiple of PGSIZE that is at least `x`. */
  function RoundUpPage(x: nat): (r: nat)
    ensures r % PGSIZE == 0
    ensures x <= r < x + PGSIZE
  {
    (x + PGSIZE - 1) / PGSIZE * PGSIZE
  }

  /** Every address of a page rounds down to the page's start. */
  lemma RoundDownWithinPage(base: int, k: int)
    requires base % PGSIZE == 0 && 0 <= k < PGSIZE
    ensures PgRoundDown(base + k) == base
  {
  }

  function Zeros(n: nat): (z: seq<Byte>)
    ensures |z| == n
    ensures forall i :: 0 <= i < n ==> z[i] == 0
  {
    seq(n, i => 0)
  }
}

/** Little-endian encoding of unsigned integers, as x86-64 stores them in memory. */
module Bytes {
  import opened Mem

  function Pow256(n: nat): (r: nat)
    ensures r > 0
  {
    if n == 0 then 1 else 256 * Pow256(n - 1)
  }

  /** The unsigned integer stored little-endian in `bs`. */
  function FromLE(bs: seq<Byte>): (r: nat)
    ensures r < Pow256(|bs|)
  {
    if bs == [] then 0 else bs[0] + 256 * FromLE(bs[1..])
  }

  /** The `n` low-order bytes of `x`, least significant first. */
  function ToLE(x: nat, n: nat): (bs: seq<Byte>)
    ensures |bs| == n
  {
    if n == 0 then [] else [x % 256] + ToLE(x / 256, n - 1)
  }

  /** Decoding an encoded value gives it back. */
  lemma {:induction false} FromToLE(x: nat, n: nat)
    requires x < Pow256(n)
    ensures FromLE(ToLE(x, n)) == x
  {
    if n > 0 {
      FromToLE(x / 256, n - 1);
      assert ToLE(x, n)[1..] == ToLE(x / 256, n - 1);
    }
  }

  /** Encoding a decoded field gives back its bytes. */
  lemma {:induction false} ToFromLE(bs: seq<Byte>)
    ensures ToLE(FromLE(bs), |bs|) == bs
  {
    if bs != [] {
      var x := FromLE(bs);
      assert x % 256 == bs[0] && x / 256 == FromLE(bs[1..]);
      ToFromLE(bs[1..]);
    }
  }
}
