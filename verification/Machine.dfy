/** Sizes and addresses of the machine the kernel runs on. */
module Machine {
  type Byte = b: int | 0 <= b < 256

  /** 32-bit words wrap at this value. */
  const WORD := 0x1_0000_0000

  const PAGE_SIZE := 4096

  /** Where physical memory is mapped. */
  const PFA_VIRT_OFFSET := 0xD000_0000

  ghost predicate IsPow2(n: nat) {
    n == 1 || (n > 1 && n % 2 == 0 && IsPow2(n / 2))
  }
}
