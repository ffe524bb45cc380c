/** Machine words, the constants of config.h and status.h, and the few bit
    operations the kernel uses on addresses. */
module Machine {

  const WORD := 0x1_0000_0000
  type Word = w: int | 0 <= w < WORD

  const PAGE_SIZE := 4096
  const HEAP_ADDRESS := 0x0100_0000
  const HEAP_BLOCKS := 25600 // 104857600 / 4096
  const USER_STACK_SIZE := 16384
  const STACK_START := 0x3F_F000
  const STACK_END := 0x3F_B000 // STACK_START - USER_STACK_SIZE
  const MAX_ALLOCATIONS := 1024
  const MAX_PROCESSES := 12

  const EIO := 1
  const EINVARG := 2
  const ENOMEM := 3
  const EISTKN := 8
  const EINFORMAT := 9

  datatype Option<+T> = None | Some(value: T)

  /** Unsigned 32-bit arithmetic keeps the low 32 bits. */
  function Wrap(x: int): Word {
    x % WORD
  }

  /** Bitwise or of two unsigned numbers. */
  function Or(a: nat, b: nat): nat
    decreases a + b
  {
    if a == 0 then b
    else if b == 0 then a
    else 2 * Or(a / 2, b / 2) + (if a % 2 == 1 || b % 2 == 1 then 1 else 0)
  }

  /** Bitwise and of two unsigned numbers. */
  function And(a: nat, b: nat): nat {
    if a == 0 || b == 0 then 0
    else 2 * And(a / 2, b / 2) + (if a % 2 == 1 && b % 2 == 1 then 1 else 0)
  }

  function Pow2(n: nat): (p: nat)
    ensures p >= 1
  {
    if n == 0 then 1 else 2 * Pow2(n - 1)
  }

  /** Or-ing a value below 2^n acts on the low n bits alone. */
  lemma {:induction false} OrLow(k: nat, n: nat, f: nat, g: nat)
    requires f < Pow2(n) && g < Pow2(n)
    ensures Or(k * Pow2(n) + f, g) == k * Pow2(n) + Or(f, g)
  {
    if n > 0 {
      var h := k * Pow2(n - 1);
      assert k * Pow2(n) == 2 * h by { Regroup(k, Pow2(n - 1)); }
      OrLow(k, n - 1, f / 2, g / 2);
      assert (2 * h + f) / 2 == h + f / 2;
    }
  }

  lemma OrFlags(frame: nat, f: nat, g: nat)
    requires f < PAGE_SIZE && g < PAGE_SIZE
    ensures Or(frame * PAGE_SIZE + f, g) == frame * PAGE_SIZE + Or(f, g)
  {
    Pow2Page();
    OrLow(frame, 12, f, g);
  }

  /** Or never leaves the word size of its operands. */
  lemma {:induction false} OrBounded(a: nat, b: nat, n: nat)
    requires a < Pow2(n) && b < Pow2(n)
    ensures Or(a, b) < Pow2(n)
  {
    if a != 0 && b != 0 {
      OrBounded(a / 2, b / 2, n - 1);
    }
  }

  lemma OrWord(a: Word, b: Word)
    ensures Or(a, b) < WORD
  {
    assert Pow2(32) == WORD by {
      assert Pow2(8) == 256;
      assert Pow2(16) == 65536 by { assert Pow2(12) == 4096; }
      assert Pow2(24) == 0x100_0000 by { assert Pow2(20) == 0x10_0000; }
      assert Pow2(28) == 0x1000_0000;
    }
    OrBounded(a, b, 32);
  }

  function Shr(w: nat, n: nat): nat {
    if n == 0 then w else Shr(w / 2, n - 1)
  }

  /** Masking with a number whose low n bits are clear acts on the high bits alone. */
  lemma {:induction false} AndShift(w: nat, k: nat, n: nat)
    ensures And(w, k * Pow2(n)) == And(Shr(w, n), k) * Pow2(n)
  {
    if n > 0 {
      var p := Pow2(n - 1);
      var t := k * p;
      assert k * Pow2(n) == 2 * t by { Regroup(k, p); }
      AndShift(w / 2, k, n - 1);
      var x := And(Shr(w, n), k);
      assert x * Pow2(n) == 2 * (x * p) by { Regroup(x, p); }
      assert And(w / 2, t) == x * p;
      AndDouble(w, t);
    }
  }

  lemma Regroup(a: int, b: int)
    ensures a * (2 * b) == 2 * (a * b)
  {
  }

  lemma AndDouble(w: nat, t: nat)
    ensures And(w, 2 * t) == 2 * And(w / 2, t)
  {
    if w > 0 && t > 0 {
      assert 2 * t / 2 == t && 2 * t % 2 == 0;
    } else if t == 0 {
      assert And(w / 2, 0) == 0;
    } else {
      assert And(0, t) == 0;
    }
  }

  lemma AndOdd(w: nat, t: nat)
    ensures And(w, 2 * t + 1) == 2 * And(w / 2, t) + w % 2
  {
    var b := 2 * t + 1;
    assert b / 2 == t && b % 2 == 1;
    if w == 0 {
      assert And(0, t) == 0;
    }
  }

  lemma {:induction false} AndOnes(w: nat, m: nat)
    requires w < Pow2(m)
    ensures And(w, Pow2(m) - 1) == w
  {
    if m > 0 {
      AndOnes(w / 2, m - 1);
      AndOdd(w, Pow2(m - 1) - 1);
    }
  }

  /** The page frame a table or directory entry points at: entry & 0xfffff000. */
  function FrameOf(entry: Word): (f: nat) {
    entry / PAGE_SIZE
  }

  lemma {:induction false} ShrBounds(w: nat, n: nat)
    ensures Shr(w, n) * Pow2(n) <= w < (Shr(w, n) + 1) * Pow2(n)
  {
    if n > 0 {
      ShrBounds(w / 2, n - 1);
      var s, p := Shr(w, n), Pow2(n - 1);
      Regroup(s, p);
      Regroup(s + 1, p);
    }
  }

  lemma Pow2Page()
    ensures Pow2(12) == PAGE_SIZE && Pow2(20) == 0x10_0000
  {
    assert Pow2(6) == 64;
    assert Pow2(16) == 0x1_0000;
  }

  lemma FrameIsMask(entry: Word)
    ensures And(entry, 0xffff_f000) == FrameOf(entry) * PAGE_SIZE
  {
    var mask := Pow2(20) - 1;
    Pow2Page();
    ShrBounds(entry, 12);
    AndShift(entry, mask, 12);
    AndOnes(entry / PAGE_SIZE, 20);
  }

  /** paging_align_address: up to a page boundary, wrapping in the last page. */
  function AlignAddress(ptr: Word): Word {
    if ptr % PAGE_SIZE != 0 then Wrap(ptr + PAGE_SIZE - ptr % PAGE_SIZE) else ptr
  }

  function AlignToLowerPage(addr: Word): Word {
    addr - addr % PAGE_SIZE
  }
}
