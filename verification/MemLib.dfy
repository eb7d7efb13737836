/** The simulated memory system of malloclab/memlib.c, and the byte-level stores that C
    programs do on it. Addresses are integers; `bytes` is the area behind them. */
module MemLib {
  import opened Layout

  const MAX_HEAP := 50 * 1048576
  const SBRK_FAILED := -1

  class Mem {
    const startBrk: int
    const maxAddr: int
    const bytes: array<byte>
    var brk: int

    ghost predicate Valid()
      reads this
    {
      0 < startBrk && startBrk % ALIGNMENT == 0
      && maxAddr == startBrk + MAX_HEAP && bytes.Length == MAX_HEAP
      && startBrk <= brk <= maxAddr
    }

    /** `mem_init`, on an area that malloc placed at `base`; what the area holds is unknown. */
    constructor MemInit(base: int)
      requires 0 < base && base % ALIGNMENT == 0
      ensures Valid() && fresh(bytes) && startBrk == base && brk == base
    {
      startBrk, maxAddr, brk := base, base + MAX_HEAP, base;
      bytes := new byte[MAX_HEAP];
    }

    method ResetBrk()
      requires Valid()
      modifies `brk
      ensures Valid() && brk == startBrk
    {
      brk := startBrk;
    }

    /** Grants exactly the nonnegative requests that still fit, and never moves brk otherwise. */
    method Sbrk(incr: int) returns (p: int)
      requires Valid()
      modifies `brk
      ensures Valid()
      ensures p == SBRK_FAILED <==> incr < 0 || MAX_HEAP - old(HeapSize()) < incr
      ensures if p == SBRK_FAILED then brk == old(brk) else p == old(brk) && brk == old(brk) + incr
    {
      var oldBrk := brk;
      if incr < 0 || brk + incr > maxAddr {
        return SBRK_FAILED;
      }
      brk := brk + incr;
      return oldBrk;
    }

    function HeapLo(): int {
      startBrk
    }

    function HeapHi(): int
      reads this
    {
      brk - 1
    }

    function HeapSize(): int
      reads this
    {
      brk - startBrk
    }

    // ---------------------------------------------------------- stores and loads

    /** Stores a size_t, least significant byte first. */
    method StoreWord(addr: int, w: nat)
      requires Valid() && startBrk <= addr && addr + 8 <= maxAddr && w <= SIZE_MAX
      modifies bytes
      ensures bytes[..] == Splice(old(bytes[..]), addr - startBrk, ToBytes(w, 8))
    {
      hide Splice, ToBytes;
      ghost var was, word := bytes[..], ToBytes(w, 8);
      var at, rest := addr - startBrk, w;
      SpliceNothing(was, at);
      for i := 0 to 8
        invariant bytes[..] == Splice(was, at, word[..i])
        invariant ToBytes(rest, 8 - i) == word[i..]
      {
        BytesUnfold(rest, 8 - i);
        assert word[i] == word[i..][0] && word[i + 1..] == word[i..][1..];
        SpliceGrows(was, at, word[..i], word[i]);
        assert word[..i] + [word[i]] == word[..i + 1];
        bytes[at + i] := (rest % 256) as byte;
        rest := rest / 256;
      }
      assert word[..8] == word;
    }

    method LoadWord(addr: int) returns (w: nat)
      requires Valid() && startBrk <= addr && addr + 8 <= maxAddr
      ensures w == FromBytes(bytes[addr - startBrk..addr - startBrk + 8])
    {
      w := 0;
      var at, i := addr - startBrk, 8;
      while i > 0
        invariant 0 <= i <= 8
        invariant w == FromBytes(bytes[at + i..at + 8])
      {
        i := i - 1;
        assert bytes[at + i..at + 8] == [bytes[at + i]] + bytes[at + i + 1..at + 8];
        w := bytes[at + i] as nat + 256 * w;
      }
    }

    /** memcpy: the two areas must not overlap. */
    method MemCpy(dst: int, src: int, n: nat)
      requires Valid() && startBrk <= dst && dst + n <= maxAddr && startBrk <= src && src + n <= maxAddr
      requires dst + n <= src || src + n <= dst
      modifies bytes
      ensures var from := src - startBrk;
              bytes[..] == Splice(old(bytes[..]), dst - startBrk, old(bytes[from..from + n]))
    {
      hide Splice;
      ghost var was := bytes[..];
      var to, from := dst - startBrk, src - startBrk;
      SpliceNothing(was, to);
      for i := 0 to n
        invariant bytes[..] == Splice(was, to, was[from..from + i])
      {
        SpliceGrows(was, to, was[from..from + i], was[from + i]);
        assert bytes[..][from + i] == was[from + i];
        assert was[from..from + i] + [was[from + i]] == was[from..from + i + 1];
        bytes[to + i] := bytes[from + i];
      }
    }

    method MemSet(dst: int, c: byte, n: nat)
      requires Valid() && startBrk <= dst && dst + n <= maxAddr
      modifies bytes
      ensures bytes[..] == Splice(old(bytes[..]), dst - startBrk, Repeat(c, n))
    {
      hide Splice;
      ghost var was := bytes[..];
      var to := dst - startBrk;
      SpliceNothing(was, to);
      for i := 0 to n
        invariant bytes[..] == Splice(was, to, Repeat(c, i))
      {
        SpliceGrows(was, to, Repeat(c, i), c);
        assert Repeat(c, i) + [c] == Repeat(c, i + 1);
        bytes[to + i] := c;
      }
    }
  }
}
