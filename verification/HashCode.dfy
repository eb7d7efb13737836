/** The string hash of threadlab/htable.c:16-41, in 32-bit ints throughout: that no
    intermediate result overflows is part of what is verified. */
module HashCode {
  import opened Arithmetic

  const BIG_PRIME: int32 := 1560007

  /** A C string, without its terminating NUL. */
  type CString = s: string | forall i :: 0 <= i < |s| ==> 1 <= s[i] as int <= 255

  predicate SevenBit(s: string) {
    forall i :: 0 <= i < |s| ==> 1 <= s[i] as int <= 127
  }

  type SevenBitKey = s: string | SevenBit(s)

  /** A character as the plain (signed) char that C adds. */
  function CharValue(c: char): (v: int32)
    requires 1 <= c as int <= 255
    ensures -128 <= v <= 127 && v as int % 256 == c as int
  {
    if c as int <= 127 then c as int as int32 else (c as int - 256) as int32
  }

  /** C's remainder: it has the sign of the dividend. */
  function Remainder(a: int, b: int): (r: int)
    requires 0 < b
    ensures -b < r < b && (0 <= a ==> 0 <= r) && (a <= 0 ==> r <= 0)
  {
    if 0 <= a then a % b else -((-a) % b)
  }

  lemma RemainderIsCongruent(a: int, b: int)
    requires 0 < b
    ensures Remainder(a, b) % b == a % b
  {
    if a < 0 {
      var q, r := (-a) / b, (-a) % b;
      if r == 0 {
        RemainderIsUnique(a, b, -q, 0);
      } else {
        RemainderIsUnique(a, b, -q - 1, b - r);
        RemainderIsUnique(-r, b, -1, b - r);
      }
    }
  }

  /** Addition modulo BIG_PRIME, except that the sum BIG_PRIME itself is kept. */
  function Madd(a: int32, b: int32): (r: int32)
    requires -0x8000_0000 <= a as int + b as int < 0x8000_0000
    ensures a as int + b as int - BIG_PRIME as int <= r as int <= a as int + b as int
    ensures a as int + b as int <= 2 * BIG_PRIME as int ==> r <= BIG_PRIME
    ensures r as int % BIG_PRIME as int == (a as int + b as int) % BIG_PRIME as int
    ensures r < 0 <==> a as int + b as int < 0
    ensures a as int + b as int <= BIG_PRIME as int ==> r as int == a as int + b as int
    ensures r == 0 <==> a as int + b as int == 0
  {
    if a + b > BIG_PRIME then a + b - BIG_PRIME else a + b
  }

  function Mmul(a: int32, b: int32): (r: int32)
    requires -0x8000_0000 <= a as int * b as int < 0x8000_0000
    ensures -BIG_PRIME < r < BIG_PRIME
    ensures (0 <= a as int * b as int ==> 0 <= r) && (a as int * b as int <= 0 ==> r <= 0)
    ensures r as int % BIG_PRIME as int == (a as int * b as int) % BIG_PRIME as int
  {
    RemainderIsCongruent(a as int * b as int, BIG_PRIME as int);
    Remainder((a * b) as int, BIG_PRIME as int) as int32
  }

  /** What `hashcode` computes on any string; that it never overflows is part of the type. */
  function HashOf(s: CString): (p: int32)
    ensures -(BIG_PRIME + 127) <= p <= BIG_PRIME
  {
    if s == "" then 0
    else Madd(Mmul(HashOf(s[..|s| - 1]), 256), CharValue(s[|s| - 1]))
  }

  /** The number a string spells in base 256, its digits being signed. */
  function SignedBase256(s: CString): int {
    if s == "" then 0 else SignedBase256(s[..|s| - 1]) * 256 + CharValue(s[|s| - 1]) as int
  }

  /** The hash is a residue of that number for every string. */
  lemma {:induction false} HashIsResidue(s: CString)
    ensures HashOf(s) as int % BIG_PRIME as int == SignedBase256(s) % BIG_PRIME as int
  {
    if s != "" {
      var init, c, m := s[..|s| - 1], CharValue(s[|s| - 1]) as int, BIG_PRIME as int;
      HashIsResidue(init);
      ResidueOfProduct(HashOf(init) as int, SignedBase256(init), m);
      ResidueOfSum(Mmul(HashOf(init), 256) as int, SignedBase256(init) * 256, c, m);
    }
  }

  lemma ResidueOfSum(a: int, b: int, c: int, m: int)
    requires 0 < m && a % m == b % m
    ensures (a + c) % m == (b + c) % m
  {
    var k := a / m - b / m;
    var q, r := (b + c) / m, (b + c) % m;
    assert a + c == m * (q + k) + r by {
      assert m * (q + k) == m * q + m * k;
      assert m * k == m * (a / m) - m * (b / m);
    }
    RemainderIsUnique(a + c, m, q + k, r);
  }

  // ------------------------------------------------------------ when the hash is negative

  /** The strings that can be keys: those that hash to a slot. */
  type Key = s: CString | 0 <= HashOf(s)

  predicate SelectsSlot(s: CString, size: int)
    requires 0 < size
  {
    0 <= Remainder(HashOf(s) as int, size) < size
  }

  /** A string selects a slot in tables of all sizes if and only if its hash is not negative. */
  lemma KeysSelectSlots(s: CString)
    ensures (forall size :: 1 <= size ==> SelectsSlot(s, size)) <==> 0 <= HashOf(s)
  {
    var h := HashOf(s) as int;
    if h < 0 {
      RemainderIsUnique(-h, 1 - h, 0, -h);
      assert !SelectsSlot(s, 1 - h);
    }
  }

  lemma {:induction false} HashOfChar(c: char)
    requires 1 <= c as int <= 255
    ensures HashOf([c]) == CharValue(c)
  {
    var s: CString := [c];
    assert s[..|s| - 1] == "" && HashOf("") == 0;
    assert Mmul(0, 256) == 0;
  }

  /** Beyond 7 bits the hash can be negative, and with it the slot in every table of at least
      two slots. */
  lemma HashCanBeNegative(size: int)
    requires 2 <= size
    ensures HashOf([255 as char]) == -1 && Remainder(-1, size) == -1
  {
    HashOfChar(255 as char);
    RemainderIsUnique(1, size, 0, 1);
  }

  predicate Over(s: CString, alphabet: set<char>) {
    forall i :: 0 <= i < |s| ==> s[i] in alphabet
  }

  /** Over an alphabet no string hashes below 0 if and only if all its characters are 7-bit. */
  lemma AlphabetDecides(alphabet: set<char>)
    requires forall c :: c in alphabet ==> 1 <= c as int <= 255
    ensures (forall s: CString :: Over(s, alphabet) ==> 0 <= HashOf(s))
            <==> forall c :: c in alphabet ==> c as int <= 127
  {
    if forall c :: c in alphabet ==> c as int <= 127 {
      forall s: CString | Over(s, alphabet) ensures 0 <= HashOf(s) {
        HashOfKey(s);
      }
    } else {
      var c :| c in alphabet && 127 < c as int;
      HashOfChar(c);
      assert Over([c], alphabet);
    }
  }

  /** The residue to which the character after `s` is added. */
  ghost function ResidueAfter(s: CString): (r: int)
    ensures 0 <= r < BIG_PRIME as int
  {
    SignedBase256(s) * 256 % BIG_PRIME as int
  }

  /** One more character keeps a hash from being negative if and only if it does not go below the
      residue. */
  lemma NextHash(s: CString, c: char)
    requires 1 <= c as int <= 255 && 0 <= HashOf(s)
    ensures 0 <= HashOf(s + [c]) <==> 0 <= ResidueAfter(s) + CharValue(c) as int
  {
    var t: CString, m := s + [c], BIG_PRIME as int;
    assert t[..|t| - 1] == s;
    HashIsResidue(s);
    ResidueOfProduct(HashOf(s) as int, SignedBase256(s), m);
  }

  /** No prefix of a string hashes below 0 if and only if each of its characters beyond 7 bits,
      taken as the negative number it is, leaves the residue before it at 0 or more. */
  lemma {:induction false} PrefixesHashToSlots(s: CString)
    ensures (forall i :: 0 <= i <= |s| ==> 0 <= HashOf(s[..i]))
            <==> forall i :: 0 <= i < |s| && 128 <= s[i] as int ==> 256 - s[i] as int <= ResidueAfter(s[..i])
  {
    hide HashOf, ResidueAfter;
    if s == "" {
      EmptyHash();
      assert s[..0] == "";
    } else {
      var init, c := s[..|s| - 1], s[|s| - 1];
      PrefixesHashToSlots(init);
      assert forall i :: 0 <= i <= |init| ==> init[..i] == s[..i];
      assert s == init + [c] && init[..|init|] == init && s[..|s|] == s;
      if 0 <= HashOf(init) {
        NextHash(init, c);
      }
    }
  }

  lemma EmptyHash()
    ensures HashOf("") == 0
  {
  }

  // ------------------------------------------------------------ 7-bit keys

  /** The number a key spells in base 256. */
  function Base256(s: SevenBitKey): nat {
    if s == "" then 0 else Base256(s[..|s| - 1]) * 256 + s[|s| - 1] as int
  }

  /** What `hashcode` computes, without the loop: the residue of the base-256 number,
      with BIG_PRIME standing for residue 0 on every key but the empty one. */
  function KeyHash(s: SevenBitKey): (h: int)
    ensures 0 <= h <= BIG_PRIME as int
    ensures h % BIG_PRIME as int == Base256(s) % BIG_PRIME as int
    ensures h == 0 <==> s == ""
  {
    if s == "" then 0
    else
      var r := Base256(s) % BIG_PRIME as int;
      if r == 0 then BIG_PRIME as int else r
  }

  lemma ResidueOfProduct(a: int, b: int, m: int)
    requires 0 < m && a % m == b % m
    ensures (a * 256) % m == (b * 256) % m
  {
    var k := a / m - b / m;
    assert a == b + m * k;
    var q, r := (b * 256) / m, (b * 256) % m;
    assert a * 256 == m * (q + 256 * k) + r by {
      assert m * (q + 256 * k) == m * q + m * (256 * k);
      assert m * (256 * k) == 256 * (m * k);
    }
    RemainderIsUnique(a * 256, m, q + 256 * k, r);
  }

  /** One more 7-bit character extends the closed form. */
  lemma HashStep(s: SevenBitKey, c: char)
    requires 1 <= c as int <= 127
    ensures SevenBit(s + [c])
    ensures Madd(Mmul(KeyHash(s) as int32, 256), CharValue(c)) as int == KeyHash(s + [c])
  {
    var m := BIG_PRIME as int;
    var t := s + [c];
    assert t[..|t| - 1] == s;
    var x := (Base256(s) * 256) % m;
    ResidueOfProduct(KeyHash(s), Base256(s), m);
    assert Mmul(KeyHash(s) as int32, 256) as int == x;
    var q := (Base256(s) * 256) / m;
    assert Base256(t) == m * q + (x + c as int);
    if x + c as int < m {
      RemainderIsUnique(Base256(t), m, q, x + c as int);
    } else {
      RemainderIsUnique(Base256(t), m, q + 1, x + c as int - m);
    }
  }

  /** On 7-bit keys the hash is the closed form; in particular it is never negative. */
  lemma {:induction false} HashOfKey(s: SevenBitKey)
    ensures HashOf(s) as int == KeyHash(s)
  {
    if s != "" {
      HashOfKey(s[..|s| - 1]);
      HashStep(s[..|s| - 1], s[|s| - 1]);
      assert s[..|s| - 1] + [s[|s| - 1]] == s;
    }
  }

  /** The hash is read from the left, in base 256. */
  lemma HashOfTwo(c: char, d: char)
    requires 1 <= c as int <= 127 && 1 <= d as int <= 127
    ensures HashOf([c, d]) as int == c as int * 256 + d as int
  {
    var s: CString := [c, d];
    assert s[..1] == [c];
    HashOfChar(c);
  }

  method Hashcode(s: CString) returns (p: int32)
    ensures p == HashOf(s)
    ensures SevenBit(s) ==> p as int == KeyHash(s)
  {
    p := 0;
    var i := 0;
    while i < |s|
      invariant 0 <= i <= |s|
      invariant p == HashOf(s[..i])
    {
      assert s[..i + 1][..i] == s[..i];
      p := Madd(Mmul(p, 256), CharValue(s[i]));
      i := i + 1;
    }
    assert s[..i] == s;
    if SevenBit(s) {
      HashOfKey(s);
    }
  }
}
