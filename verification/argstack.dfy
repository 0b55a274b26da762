/**
 * argument_stack (userprog/process.c): lay the command-line words out on the
 * new process's stack as the x86-64 start-up convention expects. The words go
 * on top, each NUL-terminated, then zero padding down to an 8-byte boundary,
 * then the argv array (a pointer per word and a NULL), and last a zero fake
 * return address; rdi gets argc and rsi the address of argv.
 *
 * `mem` holds the bytes of user memory from address `base` up to the initial
 * stack pointer: mem[j] is the byte at address base + j.
 */
module ArgStack {
  import opened Mem
  import opened Bytes
  import CmdLine
  import Cpu

  /** The words as they sit on the stack: argv[0] lowest, each followed by its NUL. */
  function Strings(argv: seq<seq<Byte>>): seq<Byte>
  {
    if |argv| == 0 then [] else argv[0] + [0] + Strings(argv[1..])
  }

  lemma StringsFrom(argv: seq<seq<Byte>>, i: nat)
    requires i < |argv|
    ensures Strings(argv[i..]) == argv[i] + [0] + Strings(argv[i + 1..])
  {
    assert argv[i..][1..] == argv[i + 1..];
  }

  /** The words from argv[i] on end the whole block of words. */
  lemma {:induction false} StringsSuffix(argv: seq<seq<Byte>>, i: nat)
    requires i <= |argv|
    ensures |Strings(argv[i..])| <= |Strings(argv)|
    ensures Strings(argv)[|Strings(argv)| - |Strings(argv[i..])|..] == Strings(argv[i..])
  {
    if i > 0 {
      StringsSuffix(argv[1..], i - 1);
      assert argv[1..][i - 1..] == argv[i..];
      assert argv[0..] == argv;
      StringsFrom(argv, 0);
    } else {
      assert argv[0..] == argv;
    }
  }

  /** Where the copy of argv[i] starts when the words end at `top`. */
  function StrAddr(argv: seq<seq<Byte>>, top: int, i: nat): int
    requires i <= |argv|
  {
    top - |Strings(argv[i..])|
  }

  /** x rounded down to a multiple of 8. */
  function AlignDown8(x: int): (r: int)
    ensures r % 8 == 0 && r <= x < r + 8
  {
    x - x % 8
  }

  /** How many zero bytes align the stack below the words. */
  function Padding(argv: seq<seq<Byte>>, top: int): nat
  {
    (top - |Strings(argv)|) % 8
  }

  /** The stack pointer argument_stack leaves: below the words, the padding, argc + 1 pointers and the return address. */
  function ArgRsp(argv: seq<seq<Byte>>, top: int): int
  {
    AlignDown8(top - |Strings(argv)|) - 8 * (|argv| + 2)
  }

  /** The address of the copy of argv[i]; above zero when the words fit below `top`. */
  function Pointer(argv: seq<seq<Byte>>, top: int, i: nat): (p: nat)
    requires top >= |Strings(argv)| && i < |argv|
    ensures p == StrAddr(argv, top, i)
  {
    StringsSuffix(argv, i);
    StrAddr(argv, top, i)
  }

  /** The addresses of the copied words. */
  function Pointers(argv: seq<seq<Byte>>, top: int): (ptrs: seq<nat>)
    requires top >= |Strings(argv)|
    ensures |ptrs| == |argv|
  {
    seq(|argv|, i requires 0 <= i < |argv| => Pointer(argv, top, i))
  }

  /** The argv array from slot `k` on: each pointer as 8 little-endian bytes, then a NULL. */
  function ArgvArray(ptrs: seq<nat>, k: nat): (bs: seq<Byte>)
    requires k <= |ptrs|
    ensures |bs| == 8 * (|ptrs| + 1 - k)
    decreases |ptrs| - k
  {
    if k == |ptrs| then Zeros(8) else ToLE(ptrs[k], 8) + ArgvArray(ptrs, k + 1)
  }

  /** The bytes between the final stack pointer and `top`, lowest first. */
  function ArgFrame(argv: seq<seq<Byte>>, top: int): (bs: seq<Byte>)
    requires top >= |Strings(argv)|
    ensures |bs| == 16 + 8 * |argv| + Padding(argv, top) + |Strings(argv)|
  {
    Zeros(8) + (ArgvArray(Pointers(argv, top), 0) + (Zeros(Padding(argv, top)) + Strings(argv)))
  }

  /** The frame fills the stack from ArgRsp up to `top`. */
  lemma ArgFrameSpan(argv: seq<seq<Byte>>, top: int)
    requires top >= |Strings(argv)|
    ensures ArgRsp(argv, top) + |ArgFrame(argv, top)| == top
  {
    var x := top - |Strings(argv)|;
    assert ArgRsp(argv, top) == x - x % 8 - 8 * (|argv| + 2);
  }

  /** The final stack pointer is 8-byte aligned, whatever the words. */
  lemma ArgRspAligned(argv: seq<seq<Byte>>, top: int)
    ensures ArgRsp(argv, top) % 8 == 0
  {
    var x := top - |Strings(argv)|;
    assert ArgRsp(argv, top) == AlignDown8(x) - 8 * (|argv| + 2);
  }

  /** Slot i of the argv array holds pointer i. */
  lemma {:induction false} ArgvSlot(ptrs: seq<nat>, k: nat, i: nat)
    requires k <= i < |ptrs|
    ensures ArgvArray(ptrs, k)[8 * (i - k)..8 * (i - k) + 8] == ToLE(ptrs[i], 8)
    decreases i - k
  {
    if k < i {
      ArgvSlot(ptrs, k + 1, i);
      var rest := ArgvArray(ptrs, k + 1);
      assert ArgvArray(ptrs, k)[8 * (i - k)..8 * (i - k) + 8] == rest[8 * (i - k - 1)..8 * (i - k - 1) + 8];
    }
  }

  /** The last slot of the argv array is NULL. */
  lemma {:induction false} ArgvNull(ptrs: seq<nat>, k: nat)
    requires k <= |ptrs|
    ensures ArgvArray(ptrs, k)[8 * (|ptrs| - k)..] == Zeros(8)
    decreases |ptrs| - k
  {
    if k < |ptrs| {
      ArgvNull(ptrs, k + 1);
      var rest := ArgvArray(ptrs, k + 1);
      assert ArgvArray(ptrs, k)[8 * (|ptrs| - k)..] == rest[8 * (|ptrs| - k - 1)..];
    }
  }

  /** argv[i], the 8 bytes at rsi + 8 * i, is the address where the copy of word i starts. */
  lemma ArgvPointsAtWord(argv: seq<seq<Byte>>, top: int, i: nat)
    requires |Strings(argv)| <= top < U64 && i < |argv|
    ensures var frame := ArgFrame(argv, top);
      FromLE(frame[8 + 8 * i..16 + 8 * i]) == StrAddr(argv, top, i)
  {
    var ptrs := Pointers(argv, top);
    var arr := ArgvArray(ptrs, 0);
    var frame := ArgFrame(argv, top);
    ArgvSlot(ptrs, 0, i);
    SliceOfMiddle(Zeros(8), arr, Zeros(Padding(argv, top)) + Strings(argv), 8 * i, 8 * i + 8);
    assert frame[8 + 8 * i..16 + 8 * i] == ToLE(ptrs[i], 8);
    StringsSuffix(argv, i);
    Widths();
    FromToLE(ptrs[i], 8);
  }

  /** argv[argc] is NULL and the return address at rsp is zero. */
  lemma ArgvEnds(argv: seq<seq<Byte>>, top: int)
    requires |Strings(argv)| <= top
    ensures var frame := ArgFrame(argv, top);
      frame[..8] == Zeros(8) && frame[8 + 8 * |argv|..16 + 8 * |argv|] == Zeros(8)
  {
    var ptrs := Pointers(argv, top);
    var arr := ArgvArray(ptrs, 0);
    var frame := ArgFrame(argv, top);
    ArgvNull(ptrs, 0);
    SliceOfMiddle(Zeros(8), arr, Zeros(Padding(argv, top)) + Strings(argv), 8 * |argv|, 8 * |argv| + 8);
    assert frame[..8] == Zeros(8);
  }

  /** At the address argv[i] points to, the frame holds word i and then a NUL. */
  lemma WordInFrame(argv: seq<seq<Byte>>, top: int, i: nat)
    requires |Strings(argv)| <= top && i < |argv|
    ensures var frame := ArgFrame(argv, top);
      var a := StrAddr(argv, top, i) - ArgRsp(argv, top);
      && 0 <= a && a + |argv[i]| < |frame|
      && frame[a..a + |argv[i]|] == argv[i] && frame[a + |argv[i]|] == 0
  {
    var frame := ArgFrame(argv, top);
    ArgFrameSpan(argv, top);
    StringsSuffix(argv, i);
    StringsFrom(argv, i);
    var strs := Strings(argv);
    FrameEndsWith(Zeros(8), ArgvArray(Pointers(argv, top), 0), Zeros(Padding(argv, top)), strs);
    WordAt(frame, strs, argv[i], Strings(argv[i + 1..]));
  }

  /** A word and its NUL at the start of a suffix of a suffix of the frame. */
  lemma WordAt(frame: seq<Byte>, strs: seq<Byte>, w: seq<Byte>, rest: seq<Byte>)
    requires |strs| <= |frame| && frame[|frame| - |strs|..] == strs
    requires |w + [0] + rest| <= |strs| && strs[|strs| - |w + [0] + rest|..] == w + [0] + rest
    ensures var k := |frame| - |w + [0] + rest|;
      frame[k..k + |w|] == w && frame[k + |w|] == 0
  {
    var words := w + [0] + rest;
    var k := |frame| - |words|;
    DropDrop(frame, |frame| - |strs|, |strs| - |words|);
    assert frame[k..] == words;
    assert frame[k..k + |w|] == words[..|w|];
  }

  lemma SliceOfMiddle(a: seq<Byte>, b: seq<Byte>, c: seq<Byte>, i: nat, j: nat)
    requires i <= j <= |b|
    ensures (a + (b + c))[|a| + i..|a| + j] == b[i..j]
  {
    assert a + (b + c) == (a + b) + c;
  }

  lemma FrameEndsWith(a: seq<Byte>, b: seq<Byte>, c: seq<Byte>, d: seq<Byte>)
    ensures (a + (b + (c + d)))[|a| + |b| + |c|..] == d
  {
    var s := a + (b + (c + d));
    assert s == (a + b + c) + d;
  }

  lemma DropDrop(s: seq<Byte>, i: nat, j: nat)
    requires i + j <= |s|
    ensures s[i..][j..] == s[i + j..]
  {
  }

  lemma Widths()
    ensures Pow256(8) == U64
  {
  }

  /**
   * Push `bytes` on the stack: move the stack pointer down by their length
   * and copy them there (the rsp decrement and memcpy or memset of
   * argument_stack).
   */
  method Push(mem: array<Byte>, base: int, rsp: int, bytes: seq<Byte>) returns (sp: int)
    requires base + |bytes| <= rsp <= base + mem.Length
    modifies mem
    ensures sp == rsp - |bytes|
    ensures mem[sp - base..] == bytes + old(mem[rsp - base..])
    ensures mem[..sp - base] == old(mem[..sp - base])
  {
    sp := rsp - |bytes|;
    forall j | 0 <= j < |bytes| {
      mem[sp - base + j] := bytes[j];
    }
    assert mem[sp - base..] == bytes + old(mem[rsp - base..]);
  }

  /** Where each part of the frame starts, for a frame that fits above `base`. */
  lemma FrameArith(argv: seq<seq<Byte>>, top: int, base: int)
    requires base <= ArgRsp(argv, top)
    ensures var x := top - |Strings(argv)|;
      && base <= AlignDown8(x) - 8 * (|argv| + 2) == ArgRsp(argv, top)
      && x % 8 == Padding(argv, top) && AlignDown8(x) <= x
  {
  }

  /** The bytes below address base + k are those of `before`. */
  ghost predicate SameBelow(before: seq<Byte>, after: seq<Byte>, k: int)
  {
    0 <= k <= |before| && k <= |after| && after[..k] == before[..k]
  }

  lemma SameBelowTrans(a: seq<Byte>, b: seq<Byte>, c: seq<Byte>, k1: int, k2: int)
    requires SameBelow(a, b, k1) && SameBelow(b, c, k2) && k2 <= k1
    ensures SameBelow(a, c, k2)
  {
    assert a[..k2] == a[..k1][..k2] && b[..k2] == b[..k1][..k2];
  }

  /**
   * The first loop of argument_stack: push the words from the last to the
   * first, each with its NUL, recording where each copy starts in
   * value_address.
   */
  method PushWords(argv: seq<seq<Byte>>, mem: array<Byte>, base: int, valueAddress: array<int>)
    returns (rsp: int)
    requires |argv| <= valueAddress.Length && base <= base + mem.Length - |Strings(argv)|
    modifies mem, valueAddress
    ensures rsp == base + mem.Length - |Strings(argv)|
    ensures mem[rsp - base..] == Strings(argv)
    ensures SameBelow(old(mem[..]), mem[..], rsp - base)
    ensures forall j :: 0 <= j < |argv| ==> valueAddress[j] == StrAddr(argv, base + mem.Length, j)
  {
    ghost var top := base + mem.Length;
    ghost var mem0 := mem[..];
    rsp := base + mem.Length;
    var i := |argv|;
    assert argv[i..] == [];
    while i > 0
      invariant 0 <= i <= |argv|
      invariant rsp == StrAddr(argv, top, i) && top - |Strings(argv)| <= rsp <= top
      invariant mem[rsp - base..] == Strings(argv[i..])
      invariant SameBelow(mem0, mem[..], rsp - base)
      invariant forall j :: i <= j < |argv| ==> valueAddress[j] == StrAddr(argv, top, j)
    {
      i := i - 1;
      rsp := PushWord(argv, mem, base, rsp, i, mem0);
      valueAddress[i] := rsp;
    }
  }

  /** One round of the first loop: argv[i] and its NUL below the words after it. */
  method PushWord(argv: seq<seq<Byte>>, mem: array<Byte>, base: int, rsp1: int, i: nat, ghost mem0: seq<Byte>)
    returns (rsp: int)
    requires i < |argv| && base <= base + mem.Length - |Strings(argv)|
    requires rsp1 == StrAddr(argv, base + mem.Length, i + 1)
    requires base + mem.Length - |Strings(argv)| <= rsp1 <= base + mem.Length
    requires mem[rsp1 - base..] == Strings(argv[i + 1..]) && SameBelow(mem0, mem[..], rsp1 - base)
    modifies mem
    ensures rsp == StrAddr(argv, base + mem.Length, i) && base + mem.Length - |Strings(argv)| <= rsp
    ensures mem[rsp - base..] == Strings(argv[i..]) && SameBelow(mem0, mem[..], rsp - base)
  {
    StringsFrom(argv, i);
    StringsSuffix(argv, i);
    ghost var mem1 := mem[..];
    rsp := Push(mem, base, rsp1, argv[i] + [0]);
    SameBelowTrans(mem0, mem1, mem[..], rsp1 - base, rsp - base);
  }

  /** The second loop: push zero bytes until the stack pointer is a multiple of 8. */
  method PadTo8(mem: array<Byte>, base: int, rsp0: int) returns (rsp: int)
    requires base <= AlignDown8(rsp0) && rsp0 <= base + mem.Length
    modifies mem
    ensures rsp == AlignDown8(rsp0)
    ensures mem[rsp - base..] == Zeros(rsp0 % 8) + old(mem[rsp0 - base..])
    ensures SameBelow(old(mem[..]), mem[..], rsp - base)
  {
    ghost var mem0 := mem[..];
    ghost var above := mem[rsp0 - base..];
    ghost var lo := AlignDown8(rsp0);
    rsp := rsp0;
    assert mem[rsp - base..] == Zeros(0) + above;
    Mod8Window(rsp, lo);
    while rsp % 8 != 0
      invariant lo <= rsp <= rsp0 && rsp % 8 == rsp - lo
      invariant mem[rsp - base..] == Zeros(rsp0 - rsp) + above
      invariant SameBelow(mem0, mem[..], rsp - base)
      decreases rsp - lo
    {
      rsp := PushZero(mem, base, rsp, mem0, above, rsp0);
      Mod8Window(rsp, lo);
    }
    Mod8Window(rsp0, lo);
  }

  /** One round of the padding loop: one more zero byte below those already pushed. */
  method PushZero(mem: array<Byte>, base: int, rsp1: int, ghost mem0: seq<Byte>, ghost above: seq<Byte>,
                  ghost rsp0: int) returns (rsp: int)
    requires base < rsp1 <= rsp0 && rsp1 <= base + mem.Length
    requires mem[rsp1 - base..] == Zeros(rsp0 - rsp1) + above && SameBelow(mem0, mem[..], rsp1 - base)
    modifies mem
    ensures rsp == rsp1 - 1
    ensures mem[rsp - base..] == Zeros(rsp0 - rsp) + above && SameBelow(mem0, mem[..], rsp - base)
  {
    ghost var mem1 := mem[..];
    rsp := Push(mem, base, rsp1, [0]);
    SameBelowTrans(mem0, mem1, mem[..], rsp1 - base, rsp - base);
    ZerosCons(rsp0 - rsp1, above);
  }

  /** Within the eight bytes above a multiple of 8, the remainder is the distance to it. */
  lemma Mod8Window(x: int, lo: int)
    requires lo % 8 == 0 && lo <= x < lo + 8
    ensures x % 8 == x - lo
  {
  }

  lemma ZerosCons(k: nat, above: seq<Byte>)
    ensures [0] + (Zeros(k) + above) == Zeros(k + 1) + above
  {
    assert [0] + Zeros(k) == Zeros(k + 1);
  }

  /**
   * The third loop: push the NULL that ends argv, then the addresses of the
   * words from the last to the first, 8 bytes each.
   */
  method PushArgv(mem: array<Byte>, base: int, rsp0: int, valueAddress: array<int>, count: nat,
                  ghost ptrs: seq<nat>)
    returns (rsp: int)
    requires count == |ptrs| <= valueAddress.Length
    requires forall j :: 0 <= j < count ==> valueAddress[j] == ptrs[j]
    requires base + 8 * (count + 1) <= rsp0 <= base + mem.Length
    modifies mem
    ensures rsp == rsp0 - 8 * (count + 1)
    ensures mem[rsp - base..] == ArgvArray(ptrs, 0) + old(mem[rsp0 - base..])
    ensures SameBelow(old(mem[..]), mem[..], rsp - base)
  {
    ghost var mem0 := mem[..];
    ghost var above := mem[rsp0 - base..];
    rsp := rsp0;
    var i: int := count;
    while i >= 0
      invariant -1 <= i <= count
      invariant rsp == rsp0 - 8 * (count - i)
      invariant mem[rsp - base..] == (if i < count then ArgvArray(ptrs, i + 1) else []) + above
      invariant SameBelow(mem0, mem[..], rsp - base)
    {
      rsp := PushArgvSlot(mem, base, rsp, valueAddress, count, ptrs, i, mem0, above);
      i := i - 1;
    }
  }

  /** One round of the third loop: argv[i] below the ones already pushed, or the NULL when i is argc. */
  method PushArgvSlot(mem: array<Byte>, base: int, rsp1: int, valueAddress: array<int>, count: nat,
                      ghost ptrs: seq<nat>, i: nat, ghost mem0: seq<Byte>, ghost above: seq<Byte>)
    returns (rsp: int)
    requires count == |ptrs| <= valueAddress.Length && i <= count
    requires i < count ==> valueAddress[i] == ptrs[i]
    requires base + 8 <= rsp1 <= base + mem.Length
    requires mem[rsp1 - base..] == (if i < count then ArgvArray(ptrs, i + 1) else []) + above
    requires SameBelow(mem0, mem[..], rsp1 - base)
    modifies mem
    ensures rsp == rsp1 - 8
    ensures mem[rsp - base..] == ArgvArray(ptrs, i) + above
    ensures SameBelow(mem0, mem[..], rsp - base)
  {
    ghost var mem1 := mem[..];
    var slot := if i == count then Zeros(8) else ToLE(valueAddress[i], 8);
    rsp := Push(mem, base, rsp1, slot);
    SlotThenRest(ptrs, i, above);
    SameBelowTrans(mem0, mem1, mem[..], rsp1 - base, rsp - base);
  }

  /** Slot i of argv, then the slots after it, make up argv from slot i on. */
  lemma SlotThenRest(ptrs: seq<nat>, i: nat, above: seq<Byte>)
    requires i <= |ptrs|
    ensures var slot := if i == |ptrs| then Zeros(8) else ToLE(ptrs[i], 8);
      slot + ((if i < |ptrs| then ArgvArray(ptrs, i + 1) else []) + above) == ArgvArray(ptrs, i) + above
  {
    if i == |ptrs| {
      assert [] + above == above;
    }
  }

  /** The first two loops of argument_stack: the words, then the padding to a multiple of 8. */
  method PushStrings(argv: seq<seq<Byte>>, mem: array<Byte>, base: int, valueAddress: array<int>)
    returns (rsp: int)
    requires |argv| <= valueAddress.Length
    requires base <= ArgRsp(argv, base + mem.Length)
    modifies mem, valueAddress
    ensures rsp == AlignDown8(base + mem.Length - |Strings(argv)|)
    ensures mem[rsp - base..] == Zeros(Padding(argv, base + mem.Length)) + Strings(argv)
    ensures SameBelow(old(mem[..]), mem[..], rsp - base)
    ensures forall j :: 0 <= j < |argv| ==> valueAddress[j] == StrAddr(argv, base + mem.Length, j)
  {
    ghost var mem0 := mem[..];
    FrameArith(argv, base + mem.Length, base);
    rsp := PushWords(argv, mem, base, valueAddress);
    ghost var mem1, rsp1 := mem[..], rsp;
    rsp := PadTo8(mem, base, rsp);
    SameBelowTrans(mem0, mem1, mem[..], rsp1 - base, rsp - base);
  }

  /** The argv array, then the fake return address. */
  method PushPointers(mem: array<Byte>, base: int, rsp0: int, valueAddress: array<int>, count: nat,
                      ghost ptrs: seq<nat>)
    returns (rsp: int)
    requires count == |ptrs| <= valueAddress.Length
    requires forall j :: 0 <= j < count ==> valueAddress[j] == ptrs[j]
    requires base + 8 * (count + 2) <= rsp0 <= base + mem.Length
    modifies mem
    ensures rsp == rsp0 - 8 * (count + 2)
    ensures mem[rsp - base..] == Zeros(8) + (ArgvArray(ptrs, 0) + old(mem[rsp0 - base..]))
    ensures SameBelow(old(mem[..]), mem[..], rsp - base)
  {
    ghost var mem0 := mem[..];
    rsp := PushArgv(mem, base, rsp0, valueAddress, count, ptrs);
    ghost var mem1, rsp1 := mem[..], rsp;
    rsp := Push(mem, base, rsp, Zeros(8));  // the fake return address
    SameBelowTrans(mem0, mem1, mem[..], rsp1 - base, rsp - base);
  }

  /** The four pushes of argument_stack: words, padding, argv array and fake return address. */
  method BuildFrame(argv: seq<seq<Byte>>, mem: array<Byte>, base: int) returns (rsp: int)
    requires |argv| <= CmdLine.ARGV_SLOTS
    requires 0 <= base && base <= ArgRsp(argv, base + mem.Length)
    modifies mem
    ensures rsp == ArgRsp(argv, base + mem.Length)
    ensures mem[rsp - base..] == ArgFrame(argv, base + mem.Length)
    ensures SameBelow(old(mem[..]), mem[..], rsp - base)
  {
    var valueAddress := new int[CmdLine.ARGV_SLOTS];
    ghost var mem0 := mem[..];
    rsp := PushStrings(argv, mem, base, valueAddress);
    ghost var mem1, rsp1 := mem[..], rsp;
    rsp := PushPointers(mem, base, rsp, valueAddress, |argv|, Pointers(argv, base + mem.Length));
    SameBelowTrans(mem0, mem1, mem[..], rsp1 - base, rsp - base);
  }

  /**
   * argument_stack: lay out the words of `argv` below the stack pointer and
   * point rdi and rsi at argc and argv. value_address holds 128 entries.
   * strlen of each word is its length, as the words hold no NUL.
   */
  method ArgumentStack(argv: seq<seq<Byte>>, f: Cpu.IntrFrame, mem: array<Byte>, base: int)
    requires |argv| <= CmdLine.ARGV_SLOTS
    requires forall i :: 0 <= i < |argv| ==> CmdLine.NoNul(argv[i])
    requires 0 <= base && f.rsp == base + mem.Length && f.rsp < U64
    requires base <= ArgRsp(argv, f.rsp)
    modifies mem, f`rsp, f`rdi, f`rsi
    ensures f.rsp == ArgRsp(argv, old(f.rsp)) && f.rdi == |argv| && f.rsi == f.rsp + 8
    ensures mem[f.rsp - base..] == ArgFrame(argv, old(f.rsp))
    ensures SameBelow(old(mem[..]), mem[..], f.rsp - base)
  {
    var rsp := BuildFrame(argv, mem, base);
    f.rsp := rsp;
    f.rdi := |argv|;
    f.rsi := rsp + 8;
  }
}
