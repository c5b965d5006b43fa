/** The fields_seen bitset of pb_decode_noinit: two 32-bit words for the first 64 required
    fields. */
module RequiredBits {
  import opened Bits
  import opened Descriptor

  /** Bit i of an unsigned number. */
  predicate Bit(w: nat, i: nat)
    decreases i
  {
    if i == 0 then w % 2 == 1 else Bit(w / 2, i - 1)
  }

  lemma {:induction false} OrBits(a: nat, b: nat, i: nat)
    ensures Bit(BitOr(a, b), i) <==> Bit(a, i) || Bit(b, i)
    decreases i
  {
    var o := BitOr(a, b);
    assert o % 2 == (if a % 2 == 1 || b % 2 == 1 then 1 else 0) && o / 2 == BitOr(a / 2, b / 2);
    if i > 0 {
      OrBits(a / 2, b / 2, i - 1);
    }
  }

  lemma {:induction false} SingleBit(k: nat, i: nat)
    ensures Bit(Pow2(k), i) <==> i == k
    decreases i
  {
    if k == 0 {
      if i > 0 {
        NoBits(i - 1);
      }
    } else if i > 0 {
      SingleBit(k - 1, i - 1);
    }
  }

  lemma {:induction false} NoBits(i: nat)
    ensures !Bit(0, i)
    decreases i
  {
    if i > 0 {
      NoBits(i - 1);
    }
  }

  lemma {:induction false} LowBits(k: nat, i: nat)
    ensures Bit(Pow2(k) - 1, i) <==> i < k
    decreases i
  {
    if k == 0 {
      NoBits(i);
    } else if i > 0 {
      assert (Pow2(k) - 1) / 2 == Pow2(k - 1) - 1;
      LowBits(k - 1, i - 1);
    }
  }

  /** Words with the same bits are the same word. */
  lemma {:induction false} SameBits(a: nat, b: nat, n: nat)
    requires a < Pow2(n) && b < Pow2(n)
    requires forall i | 0 <= i < n :: Bit(a, i) <==> Bit(b, i)
    ensures a == b
    decreases n
  {
    if n > 0 {
      assert Bit(a, 0) <==> Bit(b, 0);
      forall i | 0 <= i < n - 1
        ensures Bit(a / 2, i) <==> Bit(b / 2, i)
      {
        assert Bit(a, i + 1) <==> Bit(b, i + 1);
      }
      SameBits(a / 2, b / 2, n - 1);
    }
  }

  const ALLBITS: nat := TWO_32 - 1

  /** `allbits >> (32 - k)` keeps the low k bits. */
  lemma AllBitsShifted(k: nat)
    requires 0 < k <= 32
    ensures ALLBITS / Pow2(32 - k) == Pow2(k) - 1
  {
    var d := Pow2(32 - k);
    Pow2Add(k, 32 - k);
    Pow2Values();
    MulDistrib(Pow2(k), 1, d);
    DivModUnique(ALLBITS, d, Pow2(k) - 1, d - 1);
  }

  ghost predicate SetUpTo(w: nat, k: nat) {
    forall i | 0 <= i < k :: Bit(w, i)
  }

  /** A word whose bits from k upwards are clear equals the k low ones exactly when all of
      them are set. */
  lemma WordFull(w: nat, k: nat)
    requires w < TWO_32 && k <= 32
    requires forall i | k <= i < 32 :: !Bit(w, i)
    ensures w == Pow2(k) - 1 <==> SetUpTo(w, k)
  {
    var full: nat := Pow2(k) - 1;
    if w == full {
      forall i | 0 <= i < k
        ensures Bit(w, i)
      {
        LowBits(k, i);
      }
    }
    if SetUpTo(w, k) {
      forall i | 0 <= i < 32
        ensures Bit(w, i) <==> Bit(full, i)
      {
        LowBits(k, i);
      }
      WithinWord(k);
      WithinWord(32);
      SameBits(w, full, 32);
    }
  }

  lemma WithinWord(k: nat)
    requires k <= 32
    ensures Pow2(k) <= Pow2(32) == TWO_32
  {
    Pow2Monotone(k, 32);
    Pow2Values();
  }

  class FieldsSeen {
    const words: array<nat>

    ghost predicate Valid()
      reads this, words
    {
      words.Length == 2 && words[0] < TWO_32 && words[1] < TWO_32
    }

    /** Required field number k has been marked. */
    ghost predicate Marked(k: nat)
      requires k < MAX_REQUIRED_FIELDS
      requires Valid()
      reads this, words
    {
      Bit(words[k / 32], k % 32)
    }

    constructor ()
      ensures Valid() && fresh(words)
      ensures forall k | 0 <= k < MAX_REQUIRED_FIELDS :: !Marked(k)
    {
      words := new nat[2](_ => 0);
      new;
      forall k | 0 <= k < MAX_REQUIRED_FIELDS
        ensures !Bit(words[k / 32], k % 32)
      {
        NoBits(k % 32);
      }
    }

    /** `fields_seen[index >> 5] |= (uint32_t)1 << (index & 31)` */
    method Mark(index: nat)
      requires Valid() && index < MAX_REQUIRED_FIELDS
      modifies words
      ensures Valid()
      ensures forall k | 0 <= k < MAX_REQUIRED_FIELDS :: Marked(k) <==> k == index || old(Marked(k))
    {
      var w := words[index / 32];
      var tmp := Pow2(index % 32);
      OrBelow32(w, index % 32);
      words[index / 32] := BitOr(w, tmp);
      forall k | 0 <= k < MAX_REQUIRED_FIELDS
        ensures Marked(k) <==> k == index || old(Marked(k))
      {
        if k / 32 == index / 32 {
          OrBits(w, tmp, k % 32);
          SingleBit(index % 32, k % 32);
        }
      }
    }

    /** The two comparisons at the end of pb_decode_noinit: whole words first, then the
        remaining bits. */
    method AllMarked(count: nat) returns (all: bool)
      requires Valid() && count <= MAX_REQUIRED_FIELDS
      requires forall k | count <= k < MAX_REQUIRED_FIELDS :: !Marked(k)
      ensures all <==> forall k | 0 <= k < count :: Marked(k)
    {
      for i := 0 to count / 32
        invariant forall k | 0 <= k < 32 * i :: Marked(k)
      {
        WordOfMarks(i, count, 32);
        Pow2Values();
        if words[i] != ALLBITS {
          return false;
        }
      }
      if count % 32 != 0 {
        var i := count / 32;
        AllBitsShifted(count % 32);
        WordOfMarks(i, count, count % 32);
        if words[i] != ALLBITS / Pow2(32 - count % 32) {
          return false;
        }
      }
      return true;
    }

    /** Word i is full up to bit n exactly when the fields it stands for are marked. */
    lemma WordOfMarks(i: nat, count: nat, n: nat)
      requires Valid() && count <= MAX_REQUIRED_FIELDS && i < 2 && n <= 32
      requires 32 * i + n <= count && (n < 32 ==> count == 32 * i + n)
      requires forall k | count <= k < MAX_REQUIRED_FIELDS :: !Marked(k)
      ensures words[i] == Pow2(n) - 1 <==> forall k | 32 * i <= k < 32 * i + n :: Marked(k)
    {
      forall j | n <= j < 32
        ensures !Bit(words[i], j)
      {
        assert !Marked(32 * i + j);
      }
      WordFull(words[i], n);
      if SetUpTo(words[i], n) {
        forall k | 32 * i <= k < 32 * i + n
          ensures Marked(k)
        {
          var j := k - 32 * i;
          assert k / 32 == i && k % 32 == j && Bit(words[i], j);
        }
      }
      if forall k | 32 * i <= k < 32 * i + n :: Marked(k) {
        forall j | 0 <= j < n
          ensures Bit(words[i], j)
        {
          assert Marked(32 * i + j);
        }
      }
    }
  }

  lemma OrBelow32(w: nat, k: nat)
    requires w < TWO_32 && k < 32
    ensures BitOr(w, Pow2(k)) < TWO_32
  {
    WithinWord(k + 1);
    OrBelow(w, Pow2(k), 32);
  }
}
