/** The simulated memory of memlib.c: one byte array, a break pointer, and
    32-bit little-endian words read and written at 4-byte aligned offsets.

    Addresses are byte offsets from mem_start_brk. */
module Memory {
  import A = Arithmetic
  import opened Bytes

  type word = x: int | 0 <= x < 0x1_0000_0000

  const MAX_HEAP := 20 * 1024 * 1024

  /** The word view of a memory: one entry for each aligned offset. */
  type Words = map<int, int>

  predicate Aligned(p: int) {
    0 <= p < MAX_HEAP && p % 4 == 0
  }

  /** IS_ALIGNED and the shape of block sizes: a multiple of ALIGNMENT = 8. */
  predicate DoubleAligned(p: int) {
    p % 8 == 0
  }

  /** The word at `p`; 0 for an offset that holds no word. */
  ghost function W(m: Words, p: int): int {
    if p in m then m[p] else 0
  }

  function Decode(a: byte, b: byte, c: byte, d: byte): (w: word) {
    a + 256 * b + 65536 * c + 16777216 * d
  }

  /** Words are equal exactly when their bytes are. */
  lemma DecodeInjective(a: byte, b: byte, c: byte, d: byte, a': byte, b': byte, c': byte, d': byte)
    requires Decode(a, b, c, d) == Decode(a', b', c', d')
    ensures a == a' && b == b' && c == c' && d == d'
  {
    A.Digits(a, b, c, d, a', b', c', d');
  }

  /** The four bytes of a word give the word back. */
  lemma DecodeBytes(v: word)
    ensures Decode(v % 256, v / 256 % 256, v / 65536 % 256, v / 16777216) == v
  {
    A.DigitsOf(v);
  }

  ghost function WordAt(s: seq<byte>, p: int): word
    requires |s| == MAX_HEAP && Aligned(p)
  {
    Decode(s[p], s[p + 1], s[p + 2], s[p + 3])
  }

  /** `m` is the word view of the bytes `s`. */
  ghost predicate Represents(s: seq<byte>, m: Words)
    requires |s| == MAX_HEAP
  {
    && (forall p :: p in m <==> Aligned(p))
    && (forall p {:trigger WordAt(s, p)} :: Aligned(p) ==> W(m, p) == WordAt(s, p))
  }

  lemma AlignedApart(p: int, q: int)
    requires Aligned(p) && Aligned(q) && p != q
    ensures q + 4 <= p || p + 4 <= q
  {
  }

  /** Overwriting the four bytes at `p` updates one word. */
  lemma PutRepresents(s: seq<byte>, s': seq<byte>, m: Words, p: int, v: word)
    requires |s| == |s'| == MAX_HEAP && Aligned(p) && Represents(s, m)
    requires WordAt(s', p) == v
    requires forall i :: 0 <= i < MAX_HEAP && !(p <= i < p + 4) ==> s'[i] == s[i]
    ensures Represents(s', m[p := v])
  {
    var m' := m[p := v];
    forall q | Aligned(q)
      ensures W(m', q) == WordAt(s', q)
    {
      if q != p {
        AlignedApart(p, q);
        assert W(m, q) == WordAt(s, q) == WordAt(s', q);
      }
    }
  }

  /** The word view of given bytes. */
  ghost function View(s: seq<byte>): (m: Words)
    requires |s| == MAX_HEAP
    ensures Represents(s, m)
  {
    map p | 0 <= p < MAX_HEAP && Aligned(p) :: WordAt(s, p)
  }

  /** Words that share no byte with [lo, hi) do not change when only bytes of [lo, hi) do. */
  lemma ViewOutside(s: seq<byte>, s': seq<byte>, m: Words, lo: int, hi: int)
    requires |s| == |s'| == MAX_HEAP && Represents(s, m)
    requires forall i :: 0 <= i < MAX_HEAP && !(lo <= i < hi) ==> s'[i] == s[i]
    ensures forall p :: p + 4 <= lo || hi <= p ==> W(View(s'), p) == W(m, p)
  {
    forall p | p + 4 <= lo || hi <= p
      ensures W(View(s'), p) == W(m, p)
    {
      if Aligned(p) {
        assert W(View(s'), p) == WordAt(s', p) == WordAt(s, p);
      }
    }
  }

  /** Unchanged words have unchanged bytes. */
  lemma BytesOfWords(s: seq<byte>, s': seq<byte>, m: Words, m': Words, lo: int, hi: int)
    requires |s| == |s'| == MAX_HEAP && Represents(s, m) && Represents(s', m')
    requires 0 <= lo <= hi <= MAX_HEAP && DoubleAligned(lo) && DoubleAligned(hi)
    requires forall p :: lo <= p < hi ==> W(m', p) == W(m, p)
    ensures s'[lo..hi] == s[lo..hi]
  {
    hide Represents, DoubleAligned, W;
    forall i | lo <= i < hi
      ensures s'[i] == s[i]
    {
      WordOfByte(i, lo, hi);
      BytesOfWord(s, s', m, m', i - i % 4);
    }
  }

  lemma BytesOfWord(s: seq<byte>, s': seq<byte>, m: Words, m': Words, p: int)
    requires |s| == |s'| == MAX_HEAP && Represents(s, m) && Represents(s', m') && Aligned(p)
    requires W(m', p) == W(m, p)
    ensures forall i :: p <= i < p + 4 ==> s'[i] == s[i]
  {
    assert WordAt(s, p) == W(m, p) == W(m', p) == WordAt(s', p);
    DecodeInjective(s[p], s[p + 1], s[p + 2], s[p + 3], s'[p], s'[p + 1], s'[p + 2], s'[p + 3]);
  }

  lemma WordOfByte(i: int, lo: int, hi: int)
    requires 0 <= lo <= i < hi <= MAX_HEAP && DoubleAligned(lo) && DoubleAligned(hi)
    ensures var p := i - i % 4; Aligned(p) && lo <= p && p + 4 <= hi && p <= i < p + 4
  {
    assert lo == 4 * (2 * (lo / 8)) && hi == 4 * (2 * (hi / 8));
    assert i == 4 * (i / 4) + i % 4;
  }

  class Mem {
    const store: array<byte>
    var brk: int
    ghost var words: Words

    ghost predicate Valid()
      reads this, store
    {
      store.Length == MAX_HEAP && 0 <= brk <= MAX_HEAP && Represents(store[..], words)
    }

    lemma Represented()
      requires Valid()
      ensures store.Length == MAX_HEAP == 20971520 && Represents(store[..], words)
    {
    }

    /** mem_init, whose failing malloc of the arena is not modelled. */
    constructor ()
      ensures Valid() && fresh(store) && brk == 0
    {
      store := new byte[MAX_HEAP];
      brk := 0;
      new;
      words := View(store[..]);
    }

    /** mem_reset_brk */
    method ResetBrk()
      requires Valid()
      modifies `brk
      ensures Valid() && brk == 0
    {
      brk := 0;
    }

    /** GET(p) */
    method Get(p: int) returns (w: word)
      requires Valid() && Aligned(p)
      ensures w == W(words, p)
    {
      assert W(words, p) == WordAt(store[..], p);
      w := Decode(store[p], store[p + 1], store[p + 2], store[p + 3]);
    }

    /** PUT(p, val) */
    method Put(p: int, v: word)
      requires Valid() && Aligned(p)
      modifies `words, store
      ensures Valid() && words == old(words)[p := v]
    {
      ghost var s := store[..];
      store[p], store[p + 1], store[p + 2], store[p + 3] :=
        v % 256, v / 256 % 256, v / 65536 % 256, v / 16777216;
      DecodeBytes(v);
      PutRepresents(s, store[..], words, p, v);
      words := words[p := v];
    }

    /** memcpy for disjoint ranges */
    method Copy(dst: int, src: int, n: int)
      requires Valid() && 0 <= n && 0 <= dst && dst + n <= MAX_HEAP && 0 <= src && src + n <= MAX_HEAP
      requires n == 0 || dst + n <= src || src + n <= dst
      modifies `words, store
      ensures Valid()
      ensures store[dst..dst + n] == old(store[src..src + n])
      ensures forall i :: 0 <= i < MAX_HEAP && !(dst <= i < dst + n) ==> store[i] == old(store[i])
      ensures forall p :: p + 4 <= dst || dst + n <= p ==> W(words, p) == W(old(words), p)
    {
      ghost var s := store[..];
      var i := 0;
      while i < n
        invariant 0 <= i <= n
        invariant forall x :: 0 <= x < MAX_HEAP && !(dst <= x < dst + i) ==> store[x] == s[x]
        invariant store[dst..dst + i] == s[src..src + i]
        modifies store
      {
        assert store[src + i] == s[src + i];
        store[dst + i] := store[src + i];
        i := i + 1;
      }
      ViewOutside(s, store[..], words, dst, dst + n);
      words := View(store[..]);
    }

    /** memset */
    method Fill(dst: int, v: byte, n: int)
      requires Valid() && 0 <= n && 0 <= dst && dst + n <= MAX_HEAP
      modifies `words, store
      ensures Valid()
      ensures forall i :: dst <= i < dst + n ==> store[i] == v
      ensures forall i :: 0 <= i < MAX_HEAP && !(dst <= i < dst + n) ==> store[i] == old(store[i])
      ensures forall p :: p + 4 <= dst || dst + n <= p ==> W(words, p) == W(old(words), p)
    {
      ghost var s := store[..];
      var i := 0;
      while i < n
        invariant 0 <= i <= n
        invariant forall x :: 0 <= x < MAX_HEAP ==> store[x] == if dst <= x < dst + i then v else s[x]
        modifies store
      {
        store[dst + i] := v;
        i := i + 1;
      }
      ViewOutside(s, store[..], words, dst, dst + n);
      words := View(store[..]);
    }

    /** mem_sbrk; None for the failure return (void *)-1. */
    method Sbrk(incr: int) returns (r: Result)
      requires Valid()
      modifies `brk
      ensures Valid()
      ensures 0 <= incr && old(brk) + incr <= MAX_HEAP ==> r == Start(old(brk)) && brk == old(brk) + incr
      ensures !(0 <= incr && old(brk) + incr <= MAX_HEAP) ==> r == NoMemory && brk == old(brk)
    {
      if incr < 0 || brk + incr > MAX_HEAP {
        return NoMemory;
      }
      r := Start(brk);
      brk := brk + incr;
    }
  }

  datatype Result = Start(addr: int) | NoMemory
}
