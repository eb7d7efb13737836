/** Bytes, words and the block layout that malloclab/mm.c lays over the heap: block after
    block, each a 16-byte header area (its first 8 bytes hold the requested size) and the
    payload, rounded up to a multiple of 16. */
module Layout {
  import opened Arithmetic

  newtype byte = x: int | 0 <= x < 256

  const ALIGNMENT := 16
  const INT_MAX := 0x7fff_ffff
  const SIZE_MAX := 0xffff_ffff_ffff_ffff

  // ------------------------------------------------------------ mm.h

  /** `ALIGN`, where it does not wrap around: the least multiple of 16 that is enough. */
  function Align(n: nat): (r: nat)
    ensures n <= r < n + ALIGNMENT && r % ALIGNMENT == 0
  {
    (n + ALIGNMENT - 1) / ALIGNMENT * ALIGNMENT
  }

  const SIZE_T_SIZE := Align(8)

  /** The arithmetic of size_t: modulo 2^64. */
  function SizeT(x: int): (r: nat)
    ensures r <= SIZE_MAX && (x - r) % 0x1_0000_0000_0000_0000 == 0
  {
    x % (SIZE_MAX + 1)
  }

  /** The conversion of a size_t to a 32-bit int. */
  function ToInt(x: nat): (r: int)
    ensures -INT_MAX - 1 <= r <= INT_MAX && (x - r) % 0x1_0000_0000 == 0
  {
    var low := x % 0x1_0000_0000;
    if low <= INT_MAX then low else low - 0x1_0000_0000
  }

  /** The bitwise `&` of two machine words. */
  function BitAnd(a: nat, b: nat): nat {
    if a == 0 then 0 else a % 2 * (b % 2) + 2 * BitAnd(a / 2, b / 2)
  }

  /** `ALIGN` as the macro is written, on size_t: add 15 and clear the four low bits. */
  function AlignMacro(n: nat): nat {
    BitAnd(SizeT(n + (ALIGNMENT - 1)), SIZE_MAX - (ALIGNMENT - 1))
  }

  /** `newsize` of mm_malloc, for any size_t. */
  function NewSize(size: nat): int
    requires size <= SIZE_MAX
  {
    ToInt(AlignMacro(SizeT(size + SIZE_T_SIZE)))
  }

  lemma {:induction false} AndWithOnes(a: nat, n: nat)
    requires a < Pow2(n)
    ensures BitAnd(a, Pow2(n) - 1) == a
  {
    if a != 0 {
      AndWithOnes(a / 2, n - 1);
      assert (Pow2(n) - 1) / 2 == Pow2(n - 1) - 1;
    }
  }

  lemma AndDropsBit(a: nat, b: nat)
    requires b % 2 == 0
    ensures BitAnd(a, b) == 2 * BitAnd(a / 2, b / 2)
  {
  }

  lemma SixtyOnes()
    ensures Pow2(60) - 1 == 0x0fff_ffff_ffff_ffff
  {
    assert Pow2(0) == 1;
    hide Pow2;
    Pow2Ten(0);
    Pow2Ten(10);
    Pow2Ten(20);
    Pow2Ten(30);
    Pow2Ten(40);
    Pow2Ten(50);
  }

  /** The mask rounds down to a multiple of 16, on every word. */
  lemma MaskRoundsDown(x: nat)
    requires x <= SIZE_MAX
    ensures BitAnd(x, SIZE_MAX - (ALIGNMENT - 1)) == x / ALIGNMENT * ALIGNMENT
  {
    hide BitAnd, Pow2;
    var ones := 0x0fff_ffff_ffff_ffff;
    AndDropsBit(x, 16 * ones);
    AndDropsBit(x / 2, 8 * ones);
    AndDropsBit(x / 4, 4 * ones);
    AndDropsBit(x / 8, 2 * ones);
    assert x / 2 / 2 == x / 4 && x / 4 / 2 == x / 8 && x / 8 / 2 == x / 16;
    SixtyOnes();
    AndWithOnes(x / 16, 60);
  }

  /** The macro is `Align` wherever the sum does not wrap around. */
  lemma AlignMacroAligns(n: nat)
    requires n <= SIZE_MAX
    ensures AlignMacro(n) == SizeT(n + 15) / 16 * 16
    ensures n <= SIZE_MAX - 15 ==> AlignMacro(n) == Align(n)
  {
    MaskRoundsDown(SizeT(n + 15));
  }

  lemma NewSizeOfInt(size: nat)
    requires size <= INT_MAX
    ensures NewSize(size) == if size <= INT_MAX - 31 then Align(size + SIZE_T_SIZE)
                             else Align(size + SIZE_T_SIZE) - 0x1_0000_0000
    ensures INT_MAX - 31 < size ==> INT_MAX < Align(size + SIZE_T_SIZE) <= 0x1_0000_0000 - 1
  {
    hide AlignMacro;
    AlignMacroAligns(size + SIZE_T_SIZE);
    assert SizeT(size + SIZE_T_SIZE) == size + SIZE_T_SIZE;
  }

  /** A block is large enough for its header area and payload exactly for the sizes whose
      rounded block fits a positive int. */
  lemma NewSizeSuffices(size: nat)
    requires size <= SIZE_MAX
    ensures SIZE_T_SIZE + size <= NewSize(size) <==> size <= INT_MAX - 31
    ensures size <= INT_MAX - 31 ==> NewSize(size) == Align(size + SIZE_T_SIZE)
    ensures INT_MAX - 31 < size <= INT_MAX ==> NewSize(size) < 0 && INT_MAX < Align(size + SIZE_T_SIZE)
  {
    if size <= INT_MAX {
      NewSizeOfInt(size);
      hide NewSize, Align;
    }
  }

  lemma NewSizeIsAligned(size: nat)
    requires size <= SIZE_MAX
    ensures NewSize(size) % ALIGNMENT == 0
  {
    hide AlignMacro, SizeT, ToInt;
    var sum := SizeT(size + SIZE_T_SIZE);
    AlignMacroAligns(sum);
    ToIntKeepsAlignment(SizeT(sum + 15) / 16);
  }

  lemma ToIntKeepsAlignment(q: nat)
    ensures ToInt(q * ALIGNMENT) % ALIGNMENT == 0
  {
    var k := q * 16 / 0x1_0000_0000;
    assert q * 16 % 0x1_0000_0000 == 16 * (q - 0x1000_0000 * k);
  }

  /** Past the range of int the size request can be cut down to almost nothing. */
  lemma NewSizeTruncates()
    ensures NewSize(0x1_0000_0000) == 16
  {
    hide AlignMacro;
    AlignMacroAligns(SizeT(0x1_0000_0000 + SIZE_T_SIZE));
  }

  // ------------------------------------------------------------ bytes and words

  /** A word in memory, least significant byte first. */
  function ToBytes(w: nat, n: nat): (s: seq<byte>)
    ensures |s| == n
  {
    if n == 0 then [] else [(w % 256) as byte] + ToBytes(w / 256, n - 1)
  }

  function FromBytes(s: seq<byte>): nat {
    if s == [] then 0 else s[0] as nat + 256 * FromBytes(s[1..])
  }

  ghost function Pow256(n: nat): nat {
    if n == 0 then 1 else 256 * Pow256(n - 1)
  }

  lemma {:induction false} WordRoundTrip(w: nat, n: nat)
    requires w < Pow256(n)
    ensures FromBytes(ToBytes(w, n)) == w
  {
    if n > 0 {
      WordRoundTrip(w / 256, n - 1);
      assert ToBytes(w, n)[1..] == ToBytes(w / 256, n - 1);
    }
  }

  lemma EightBytesAreEnough(w: nat)
    requires w <= SIZE_MAX
    ensures FromBytes(ToBytes(w, 8)) == w
  {
    assert Pow256(4) == 0x1_0000_0000;
    assert Pow256(8) == SIZE_MAX + 1;
    WordRoundTrip(w, 8);
  }

  /** `s` with the bytes from `at` on overwritten by `new`. */
  ghost function Splice(s: seq<byte>, at: nat, bs: seq<byte>): (r: seq<byte>)
    requires at + |bs| <= |s|
    ensures |r| == |s| && r[at..at + |bs|] == bs
    ensures forall k :: 0 <= k < |s| && !(at <= k < at + |bs|) ==> r[k] == s[k]
  {
    s[..at] + bs + s[at + |bs|..]
  }

  lemma SpliceElsewhere(s: seq<byte>, at: nat, bs: seq<byte>, lo: nat, hi: nat)
    requires at + |bs| <= |s| && lo <= hi <= |s|
    requires hi <= at || at + |bs| <= lo
    ensures Splice(s, at, bs)[lo..hi] == s[lo..hi]
  {
  }

  ghost function Repeat(c: byte, n: nat): (s: seq<byte>)
    ensures |s| == n && forall k :: 0 <= k < n ==> s[k] == c
  {
    seq(n, _ => c)
  }

  lemma SpliceNothing(s: seq<byte>, at: nat)
    requires at <= |s|
    ensures Splice(s, at, []) == s
  {
  }

  lemma BytesUnfold(w: nat, n: nat)
    requires 0 < n
    ensures ToBytes(w, n)[0] == (w % 256) as byte && ToBytes(w, n)[1..] == ToBytes(w / 256, n - 1)
  {
  }

  /** One more byte of a splice. */
  lemma SpliceGrows(s: seq<byte>, at: nat, bs: seq<byte>, b: byte)
    requires at + |bs| < |s|
    ensures Splice(s, at, bs + [b]) == Splice(s, at, bs)[at + |bs| := b]
  {
  }

  // ------------------------------------------------------------ blocks

  /** The heap taken by blocks for payloads of these sizes. */
  ghost function Total(sizes: seq<nat>): nat {
    if sizes == [] then 0 else Total(sizes[..|sizes| - 1]) + Align(sizes[|sizes| - 1] + SIZE_T_SIZE)
  }

  /** Where block `i` starts, from the start of the heap. */
  ghost function Offset(sizes: seq<nat>, i: nat): nat
    requires i <= |sizes|
  {
    Total(sizes[..i])
  }

  lemma {:induction false} OffsetIsAligned(sizes: seq<nat>, i: nat)
    requires i <= |sizes|
    ensures Offset(sizes, i) % ALIGNMENT == 0
  {
    if i > 0 {
      OffsetIsAligned(sizes, i - 1);
      assert sizes[..i][..i - 1] == sizes[..i - 1];
    }
  }

  /** Blocks lie one after the other: an earlier one, payload and all, ends before a later one. */
  lemma {:induction false} BlocksApart(sizes: seq<nat>, i: nat, j: nat)
    requires i < j <= |sizes|
    ensures Offset(sizes, i) + SIZE_T_SIZE + sizes[i] <= Offset(sizes, j)
  {
    assert sizes[..j][..j - 1] == sizes[..j - 1];
    if i < j - 1 {
      BlocksApart(sizes, i, j - 1);
    }
  }

  lemma WholeHeap(sizes: seq<nat>)
    ensures Offset(sizes, |sizes|) == Total(sizes)
  {
    assert sizes[..|sizes|] == sizes;
  }

  lemma BlockInHeap(sizes: seq<nat>, i: nat)
    requires i < |sizes|
    ensures Offset(sizes, i) + SIZE_T_SIZE + sizes[i] <= Total(sizes)
  {
    BlocksApart(sizes, i, |sizes|);
    WholeHeap(sizes);
  }

  lemma OffsetOfPrefix(sizes: seq<nat>, more: seq<nat>, i: nat)
    requires i <= |sizes|
    ensures Offset(sizes + more, i) == Offset(sizes, i)
  {
    assert (sizes + more)[..i] == sizes[..i];
  }

  lemma TotalOfMore(sizes: seq<nat>, size: nat)
    ensures Total(sizes + [size]) == Total(sizes) + Align(size + SIZE_T_SIZE)
  {
  }

  /** A block takes the least multiple of 16 that leaves room for its payload and 16 bytes more. */
  lemma BlockTakes(sizes: seq<nat>, size: nat)
    ensures Total([]) == 0
    ensures var taken := Total(sizes + [size]) - Total(sizes);
            size + 16 <= taken < size + 32 && taken % 16 == 0
  {
    TotalOfMore(sizes, size);
  }

  // ------------------------------------------------------------ block contents

  ghost predicate Fits(bytes: seq<byte>, sizes: seq<nat>) {
    Total(sizes) <= |bytes| && forall i :: 0 <= i < |sizes| ==> sizes[i] <= INT_MAX
  }

  ghost function Payload(bytes: seq<byte>, sizes: seq<nat>, i: nat): (data: seq<byte>)
    requires Fits(bytes, sizes) && i < |sizes|
    ensures |data| == sizes[i]
  {
    BlockInHeap(sizes, i);
    var at := Offset(sizes, i) + SIZE_T_SIZE;
    bytes[at..at + sizes[i]]
  }

  lemma ByteOfPayload(bytes: seq<byte>, sizes: seq<nat>, i: nat, j: nat)
    requires HeadersHold(bytes, sizes) && i < |sizes| && j < sizes[i]
    ensures Offset(sizes, i) + SIZE_T_SIZE + j < |bytes|
    ensures Payload(bytes, sizes, i)[j] == bytes[Offset(sizes, i) + SIZE_T_SIZE + j]
  {
    BlockInHeap(sizes, i);
  }

  ghost function Header(bytes: seq<byte>, sizes: seq<nat>, i: nat): nat
    requires Fits(bytes, sizes) && i < |sizes|
  {
    BlockInHeap(sizes, i);
    FromBytes(bytes[Offset(sizes, i)..Offset(sizes, i) + 8])
  }

  /** Every header holds the size its block was asked for. */
  ghost predicate HeadersHold(bytes: seq<byte>, sizes: seq<nat>) {
    Fits(bytes, sizes) && forall i :: 0 <= i < |sizes| ==> Header(bytes, sizes, i) == sizes[i]
  }

  /** The payloads, in order of allocation. */
  ghost function Payloads(bytes: seq<byte>, sizes: seq<nat>): (data: seq<seq<byte>>)
    requires Fits(bytes, sizes)
    ensures |data| == |sizes|
    ensures forall i :: 0 <= i < |sizes| ==> data[i] == Payload(bytes, sizes, i) && |data[i]| == sizes[i]
  {
    seq(|sizes|, i requires 0 <= i < |sizes| => Payload(bytes, sizes, i))
  }

  /** A write that stays clear of a block's header and payload leaves both as they are. */
  lemma BlockKept(bytes: seq<byte>, sizes: seq<nat>, j: nat, at: nat, bs: seq<byte>)
    requires Fits(bytes, sizes) && j < |sizes| && at + |bs| <= |bytes|
    requires var off := Offset(sizes, j);
             (at + |bs| <= off || off + 8 <= at)
             && (at + |bs| <= off + SIZE_T_SIZE || off + SIZE_T_SIZE + sizes[j] <= at)
    ensures var bytes' := Splice(bytes, at, bs);
            Header(bytes', sizes, j) == Header(bytes, sizes, j)
            && Payload(bytes', sizes, j) == Payload(bytes, sizes, j)
  {
    BlockInHeap(sizes, j);
    var off := Offset(sizes, j);
    SpliceElsewhere(bytes, at, bs, off, off + 8);
    SpliceElsewhere(bytes, at, bs, off + SIZE_T_SIZE, off + SIZE_T_SIZE + sizes[j]);
  }

  /** Writing inside one payload stays clear of every other block. */
  lemma OtherBlockKept(bytes: seq<byte>, sizes: seq<nat>, i: nat, at: nat, bs: seq<byte>, j: nat)
    requires Fits(bytes, sizes) && i < |sizes| && at + |bs| <= sizes[i] && j < |sizes| && i != j
    requires Offset(sizes, i) + SIZE_T_SIZE + at + |bs| <= |bytes|
    ensures var bytes' := Splice(bytes, Offset(sizes, i) + SIZE_T_SIZE + at, bs);
            Header(bytes', sizes, j) == Header(bytes, sizes, j)
            && Payload(bytes', sizes, j) == Payload(bytes, sizes, j)
  {
    if j < i {
      BlocksApart(sizes, j, i);
    } else {
      BlocksApart(sizes, i, j);
    }
    BlockKept(bytes, sizes, j, Offset(sizes, i) + SIZE_T_SIZE + at, bs);
  }

  lemma OwnBlockWritten(bytes: seq<byte>, sizes: seq<nat>, i: nat, at: nat, bs: seq<byte>)
    requires Fits(bytes, sizes) && i < |sizes| && at + |bs| <= sizes[i]
    ensures Offset(sizes, i) + SIZE_T_SIZE + at + |bs| <= |bytes|
    ensures var bytes' := Splice(bytes, Offset(sizes, i) + SIZE_T_SIZE + at, bs);
            Header(bytes', sizes, i) == Header(bytes, sizes, i)
            && Payload(bytes', sizes, i) == Splice(Payload(bytes, sizes, i), at, bs)
  {
    BlockInHeap(sizes, i);
    var off := Offset(sizes, i);
    SpliceElsewhere(bytes, off + SIZE_T_SIZE + at, bs, off, off + 8);
  }

  /** Writing inside payload `i` changes that payload there and nothing else of any block. */
  lemma WriteInPayload(bytes: seq<byte>, sizes: seq<nat>, i: nat, at: nat, bs: seq<byte>)
    requires HeadersHold(bytes, sizes) && i < |sizes| && at + |bs| <= sizes[i]
    ensures Offset(sizes, i) + SIZE_T_SIZE + at + |bs| <= |bytes|
    ensures var bytes' := Splice(bytes, Offset(sizes, i) + SIZE_T_SIZE + at, bs);
            HeadersHold(bytes', sizes)
            && Payloads(bytes', sizes) ==
               Payloads(bytes, sizes)[i := Splice(Payload(bytes, sizes, i), at, bs)]
  {
    hide Splice, Offset, Header, Payload;
    OwnBlockWritten(bytes, sizes, i, at, bs);
    forall j | 0 <= j < |sizes| && j != i
      ensures var bytes' := Splice(bytes, Offset(sizes, i) + SIZE_T_SIZE + at, bs);
              Header(bytes', sizes, j) == sizes[j] && Payload(bytes', sizes, j) == Payload(bytes, sizes, j)
    {
      OtherBlockKept(bytes, sizes, i, at, bs, j);
    }
  }

  /** Where a block is does not depend on the blocks after it. */
  lemma BlockOfPrefix(bytes: seq<byte>, sizes: seq<nat>, size: nat, j: nat)
    requires Fits(bytes, sizes) && Fits(bytes, sizes + [size]) && j < |sizes|
    ensures Header(bytes, sizes + [size], j) == Header(bytes, sizes, j)
    ensures Payload(bytes, sizes + [size], j) == Payload(bytes, sizes, j)
  {
    OffsetOfPrefix(sizes, [size], j);
  }

  lemma EarlierBlockKept(bytes: seq<byte>, sizes: seq<nat>, size: nat, bs: seq<byte>, j: nat)
    requires Fits(bytes, sizes) && size <= INT_MAX && Total(sizes + [size]) <= |bytes| && j < |sizes|
    requires Total(sizes) + |bs| <= |bytes|
    ensures var bytes', sizes' := Splice(bytes, Total(sizes), bs), sizes + [size];
            Fits(bytes', sizes')
            && Header(bytes', sizes', j) == Header(bytes, sizes, j)
            && Payload(bytes', sizes', j) == Payload(bytes, sizes, j)
  {
    hide Splice, Total, Header, Payload;
    BlockInHeap(sizes, j);
    BlockKept(bytes, sizes, j, Total(sizes), bs);
    BlockOfPrefix(Splice(bytes, Total(sizes), bs), sizes, size, j);
  }

  lemma NewBlockWritten(bytes: seq<byte>, sizes: seq<nat>, size: nat)
    requires Fits(bytes, sizes) && size <= INT_MAX && Total(sizes + [size]) <= |bytes|
    ensures Total(sizes) + 8 <= |bytes|
    ensures var bytes', sizes' := Splice(bytes, Total(sizes), ToBytes(size, 8)), sizes + [size];
            Fits(bytes', sizes') && Header(bytes', sizes', |sizes|) == size
  {
    TotalOfMore(sizes, size);
    OffsetOfPrefix(sizes, [size], |sizes|);
    WholeHeap(sizes);
    EightBytesAreEnough(size);
  }

  /** A header written at the end of the heap makes a new block and touches no other. */
  lemma WriteNewHeader(bytes: seq<byte>, sizes: seq<nat>, size: nat)
    requires HeadersHold(bytes, sizes) && size <= INT_MAX && Total(sizes + [size]) <= |bytes|
    ensures Total(sizes) + 8 <= |bytes|
    ensures var bytes', sizes' := Splice(bytes, Total(sizes), ToBytes(size, 8)), sizes + [size];
            HeadersHold(bytes', sizes')
            && Payloads(bytes', sizes') == Payloads(bytes, sizes) + [Payload(bytes', sizes', |sizes|)]
  {
    hide Splice, ToBytes, Total, Header, Payload;
    NewBlockWritten(bytes, sizes, size);
    var bytes', sizes' := Splice(bytes, Total(sizes), ToBytes(size, 8)), sizes + [size];
    forall j | 0 <= j < |sizes|
      ensures Header(bytes', sizes', j) == sizes[j]
      ensures Payload(bytes', sizes', j) == Payload(bytes, sizes, j)
    {
      EarlierBlockKept(bytes, sizes, size, ToBytes(size, 8), j);
    }
  }
}
