/** The word-at-a-time strlen, against the byte-by-byte length. */
module Strlen {
  /** Four bytes as one little-endian word, as the x86 load reads them. */
  function Word(b0: bv8, b1: bv8, b2: bv8, b3: bv8): bv32 {
    (b0 as bv32) | ((b1 as bv32) << 8) | ((b2 as bv32) << 16) | ((b3 as bv32) << 24)
  }

  /** The test the loop makes on each word. */
  predicate HasZero(block: bv32) {
    (block - 0x01010101) & !block & 0x80808080 != 0
  }

  /** It is exact: borrows between the bytes neither hide a zero byte nor invent one. */
  lemma HasZeroIff(b0: bv8, b1: bv8, b2: bv8, b3: bv8)
    ensures HasZero(Word(b0, b1, b2, b3)) <==> b0 == 0 || b1 == 0 || b2 == 0 || b3 == 0
  {
  }

  /** The string at address str: n bytes that are not zero, then one that is. */
  ghost predicate IsLength(mem: seq<bv8>, str: nat, n: nat) {
    str + n < |mem| && mem[str + n] == 0 && forall k :: str <= k < str + n ==> mem[k] != 0
  }

  /** old_strlen of the console benchmark. */
  method OldStrlen(mem: seq<bv8>, str: nat) returns (len: nat)
    requires exists n: nat :: IsLength(mem, str, n)
    ensures IsLength(mem, str, len) && forall n: nat :: IsLength(mem, str, n) ==> n == len
  {
    ghost var n: nat :| IsLength(mem, str, n);
    len := 0;
    while mem[str + len] != 0
      invariant len <= n
      decreases n - len
    {
      len := len + 1;
    }
  }

  /**
   * strlen. Addresses are indices of mem, which is made of whole aligned words and may end with
   * the word that holds the terminator: no load reaches past that word.
   */
  method Strlen(mem: seq<bv8>, str: nat) returns (len: nat)
    requires |mem| % 4 == 0
    requires exists n: nat :: IsLength(mem, str, n)
    ensures IsLength(mem, str, len) && forall n: nat :: IsLength(mem, str, n) ==> n == len
  {
    ghost var n: nat :| IsLength(mem, str, n);
    var head := str;
    while head % 4 != 0
      invariant str <= head <= str + n
      decreases str + n - head
    {
      if mem[head] == 0 {
        return head - str;
      }
      head := head + 1;
    }
    while true
      invariant str <= head <= str + n && head % 4 == 0
      decreases str + n - head
    {
      HasZeroIff(mem[head], mem[head + 1], mem[head + 2], mem[head + 3]);
      var block := Word(mem[head], mem[head + 1], mem[head + 2], mem[head + 3]);
      if HasZero(block) {
        break;
      }
      head := head + 4;
    }
    while mem[head] != 0
      invariant str <= head <= str + n
      decreases str + n - head
    {
      head := head + 1;
    }
    len := head - str;
  }
}
