/**
 Unsigned 32-bit arithmetic as the kernel's C code performs it.
 */
module Words {
  const WORD_LIMIT: nat := 0x1_0000_0000
  const PAGE_SIZE: nat := 4096

  datatype Option<T> = None | Some(value: T)

  /** align_up for a power-of-two alignment: the sum wraps at 32 bits, the mask rounds down. */
  function AlignUp32(value: nat, align: nat): nat
    requires align > 0
  {
    var sum := (value + align - 1) % WORD_LIMIT;
    sum - sum % align
  }

  /** A quotient compared with a number, without dividing. */
  lemma QuotientBound(n: nat, d: nat, x: nat)
    requires d > 0
    ensures x > n / d <==> d * x > n
  {
    var q, r := n / d, n % d;
    assert n == d * q + r;
    if x > q {
      Monotone(d, q + 1, x);
      assert d * (q + 1) == d * q + d;
    } else {
      Monotone(d, x, q);
    }
  }

  lemma Monotone(d: nat, x: nat, y: nat)
    requires x <= y
    ensures d * x <= d * y
  {
    assert d * y == d * x + d * (y - x);
  }

  lemma SmallQuotient(n: nat, d: nat)
    requires n < d
    ensures n / d == 0
  {
    QuotientBound(n, d, 1);
  }

  /** Page-aligned addresses advance a page at a time. */
  lemma NextPage(addr: nat, end: nat)
    requires addr % PAGE_SIZE == 0 && end % PAGE_SIZE == 0 && addr < end
    ensures addr + PAGE_SIZE <= end && (addr + PAGE_SIZE) % PAGE_SIZE == 0
  {
    assert addr == addr / PAGE_SIZE * PAGE_SIZE && end == end / PAGE_SIZE * PAGE_SIZE;
    assert addr / PAGE_SIZE < end / PAGE_SIZE;
  }

  lemma RoundDown(x: nat)
    ensures (x - x % PAGE_SIZE) % PAGE_SIZE == 0
  {
  }
}
