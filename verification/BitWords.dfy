/** Machine words as their bits, least significant first, and buffers of words as one long
    row of bits (src/main/bitset.cpp). */
module BitWords {

  const WORD_BITS: nat := 64

  type Word = seq<bool>

  /** The j-th bit of a word; there are no others. */
  function At(w: Word, j: int): bool {
    0 <= j < |w| && w[j]
  }

  /** umword_t(1), 0 and UMWORD_MAX. */
  function One(): Word {
    seq(WORD_BITS, j => j == 0)
  }

  function Zero(): Word {
    seq(WORD_BITS, _ => false)
  }

  function Max(): Word {
    seq(WORD_BITS, _ => true)
  }

  function Shl(w: Word, n: nat): Word {
    seq(WORD_BITS, j => At(w, j - n))
  }

  function Shr(w: Word, n: nat): Word {
    seq(WORD_BITS, j => At(w, j + n))
  }

  function AndW(a: Word, b: Word): Word {
    seq(WORD_BITS, j => At(a, j) && At(b, j))
  }

  function OrW(a: Word, b: Word): Word {
    seq(WORD_BITS, j => At(a, j) || At(b, j))
  }

  function XorW(a: Word, b: Word): Word {
    seq(WORD_BITS, j => At(a, j) != At(b, j))
  }

  function NotW(a: Word): Word {
    seq(WORD_BITS, j => !At(a, j))
  }

  ghost predicate Words(ws: seq<Word>) {
    forall k :: 0 <= k < |ws| ==> |ws[k]| == WORD_BITS
  }

  /** The i-th bit of a buffer. */
  function Bit(ws: seq<Word>, i: nat): bool
    requires i < WORD_BITS * |ws|
  {
    At(ws[i / WORD_BITS], i % WORD_BITS)
  }

  // --------------------------------------------------------------------------
  // Range operations
  // --------------------------------------------------------------------------

  datatype Op = Set | Unset | Toggle

  function Apply(op: Op, b: bool): bool {
    match op
    case Set => true
    case Unset => false
    case Toggle => !b
  }

  /** The bits from lo to hi have the operation applied, the others are as before. */
  ghost predicate Changed(op: Op, ws0: seq<Word>, ws: seq<Word>, lo: nat, hi: nat) {
    && |ws| == |ws0| && Words(ws)
    && forall i: nat {:trigger Bit(ws, i)} :: i < WORD_BITS * |ws| ==>
      Bit(ws, i) == if lo <= i < hi then Apply(op, Bit(ws0, i)) else Bit(ws0, i)
  }

  /** A word in which the bits from a to b have the operation applied. */
  ghost predicate ChangedWord(op: Op, w: Word, w': Word, a: nat, b: nat) {
    && |w'| == WORD_BITS
    && forall j :: 0 <= j < WORD_BITS ==> w'[j] == if a <= j < b then Apply(op, At(w, j)) else At(w, j)
  }

  /** The next part of a range, inside one word. */
  lemma OneWord(op: Op, ws0: seq<Word>, ws: seq<Word>, lo: nat, k: nat, a: nat, b: nat, w': Word)
    requires Changed(op, ws0, ws, lo, WORD_BITS * k + a) && k < |ws| && a <= b <= WORD_BITS && lo <= WORD_BITS * k + a
    requires ChangedWord(op, ws[k], w', a, b)
    ensures Changed(op, ws0, ws[k := w'], lo, WORD_BITS * k + b)
  {
    var ws' := ws[k := w'];
    forall i: nat {:trigger Bit(ws', i)} | i < WORD_BITS * |ws'|
      ensures Bit(ws', i) == if lo <= i < WORD_BITS * k + b then Apply(op, Bit(ws0, i)) else Bit(ws0, i)
    {
      assert Bit(ws, i) == if lo <= i < WORD_BITS * k + a then Apply(op, Bit(ws0, i)) else Bit(ws0, i);
      assert i / WORD_BITS == k ==> i == WORD_BITS * k + i % WORD_BITS;
    }
  }

  /** The next part of a range, made of n whole words. */
  lemma WholeWords(op: Op, ws0: seq<Word>, ws: seq<Word>, ws': seq<Word>, lo: nat, k: nat, n: nat)
    requires Changed(op, ws0, ws, lo, WORD_BITS * k) && k + n <= |ws| && lo <= WORD_BITS * k
    requires |ws'| == |ws|
    requires forall j :: 0 <= j < |ws| ==> if k <= j < k + n then ChangedWord(op, ws[j], ws'[j], 0, WORD_BITS) else ws'[j] == ws[j]
    ensures Changed(op, ws0, ws', lo, WORD_BITS * (k + n))
  {
    forall i: nat {:trigger Bit(ws', i)} | i < WORD_BITS * |ws'|
      ensures Bit(ws', i) == if lo <= i < WORD_BITS * (k + n) then Apply(op, Bit(ws0, i)) else Bit(ws0, i)
    {
      assert Bit(ws, i) == if lo <= i < WORD_BITS * k then Apply(op, Bit(ws0, i)) else Bit(ws0, i);
      var j := i / WORD_BITS;
      assert k <= j < k + n ==> ws'[j][i % WORD_BITS] == Apply(op, At(ws[j], i % WORD_BITS));
    }
  }

  lemma NothingChanged(op: Op, ws: seq<Word>, lo: nat)
    requires Words(ws)
    ensures Changed(op, ws, ws, lo, lo)
  {
  }

  // --------------------------------------------------------------------------
  // Masks
  // --------------------------------------------------------------------------

  /** Exactly the bits from a to b are set. */
  ghost predicate IsMask(mask: Word, a: nat, b: nat) {
    |mask| == WORD_BITS && forall j :: 0 <= j < WORD_BITS ==> (mask[j] <==> a <= j < b)
  }

  lemma Masked(w: Word, mask: Word, a: nat, b: nat)
    requires IsMask(mask, a, b)
    ensures ChangedWord(Set, w, OrW(w, mask), a, b)
    ensures ChangedWord(Unset, w, AndW(w, NotW(mask)), a, b)
    ensures ChangedWord(Toggle, w, XorW(w, mask), a, b)
  {
    forall j | 0 <= j < WORD_BITS
      ensures OrW(w, mask)[j] == (At(w, j) || mask[j])
      ensures AndW(w, NotW(mask))[j] == (At(w, j) && !mask[j])
      ensures XorW(w, mask)[j] == (At(w, j) != mask[j])
    {
      assert NotW(mask)[j] == !mask[j];
    }
  }

  /** *w |= mask, *w &= ~mask and *w ^= mask */
  function Merged(op: Op, w: Word, mask: Word): Word {
    match op
    case Set => OrW(w, mask)
    case Unset => AndW(w, NotW(mask))
    case Toggle => XorW(w, mask)
  }

  /** (UMWORD_MAX >> (UMWORD_BITS - count)) << off */
  lemma HeadMask(off: nat, count: nat)
    requires 0 < count && off + count <= WORD_BITS
    ensures IsMask(Shl(Shr(Max(), WORD_BITS - count), off), off, off + count)
  {
    var low := Shr(Max(), WORD_BITS - count);
    TailMask(count);
    forall j | 0 <= j < WORD_BITS ensures Shl(low, off)[j] <==> off <= j < off + count {
      assert Shl(low, off)[j] == At(low, j - off);
    }
  }

  /** UMWORD_MAX << off */
  lemma UpMask(off: nat)
    ensures IsMask(Shl(Max(), off), off, WORD_BITS)
  {
    forall j | 0 <= j < WORD_BITS ensures Shl(Max(), off)[j] <==> off <= j { assert Shl(Max(), off)[j] == At(Max(), j - off); }
  }

  /** UMWORD_MAX >> (UMWORD_BITS - count) */
  lemma TailMask(count: nat)
    requires count <= WORD_BITS
    ensures IsMask(Shr(Max(), WORD_BITS - count), 0, count)
  {
    var mask := Shr(Max(), WORD_BITS - count);
    forall j | 0 <= j < WORD_BITS ensures mask[j] <==> j < count { assert mask[j] == At(Max(), j + (WORD_BITS - count)); }
  }

  /** 1 << k */
  lemma OneMask(k: nat)
    requires k < WORD_BITS
    ensures IsMask(Shl(One(), k), k, k + 1)
  {
    forall j | 0 <= j < WORD_BITS ensures Shl(One(), k)[j] <==> j == k { assert Shl(One(), k)[j] == At(One(), j - k); }
  }

  /** Testing one bit. */
  lemma OneBitTest(w: Word, k: nat)
    requires k < WORD_BITS
    ensures AndW(w, Shl(One(), k)) != Zero() <==> At(w, k)
  {
    OneMask(k);
    var mask := Shl(One(), k);
    forall j | 0 <= j < WORD_BITS ensures AndW(w, mask)[j] == (At(w, j) && j == k) { assert At(mask, j) == mask[j]; }
    assert Zero()[k] == false;
    if !At(w, k) { assert AndW(w, mask) == Zero(); }
  }

  /** Keeping the bits below count is clearing the others. */
  lemma AndUp(w: Word, count: nat)
    requires count <= WORD_BITS
    ensures ChangedWord(Unset, w, AndW(w, Shl(Max(), count)), 0, count)
    ensures ChangedWord(Unset, w, AndW(w, NotW(Shl(Max(), count))), count, WORD_BITS)
  {
    UpMask(count);
    Masked(w, Shl(Max(), count), count, WORD_BITS);
    var mask := Shl(Max(), count);
    forall j | 0 <= j < WORD_BITS ensures AndW(w, mask)[j] == (At(w, j) && count <= j) { assert At(mask, j) == mask[j]; }
  }

  lemma WholeMasked(w: Word)
    ensures ChangedWord(Set, w, Max(), 0, WORD_BITS) && ChangedWord(Unset, w, Zero(), 0, WORD_BITS)
    ensures ChangedWord(Toggle, w, XorW(w, Max()), 0, WORD_BITS)
  {
    Masked(w, Max(), 0, WORD_BITS);
  }

  /** Two buffers with the same bits are the same. */
  lemma SameBits(ws: seq<Word>, us: seq<Word>)
    requires |ws| == |us| && Words(ws) && Words(us)
    requires forall i: nat {:trigger Bit(ws, i)} :: i < WORD_BITS * |ws| ==> Bit(ws, i) == Bit(us, i)
    ensures ws == us
  {
    forall k | 0 <= k < |ws| ensures ws[k] == us[k] {
      forall j | 0 <= j < WORD_BITS ensures ws[k][j] == us[k][j] {
        var i := WORD_BITS * k + j;
        assert i / WORD_BITS == k && i % WORD_BITS == j;
        assert Bit(ws, i) == Bit(us, i);
      }
    }
  }

  /** Toggling a range twice gives back every word. */
  lemma ToggledTwice(ws0: seq<Word>, ws1: seq<Word>, ws2: seq<Word>, lo: nat, hi: nat)
    requires Words(ws0) && Changed(Toggle, ws0, ws1, lo, hi) && Changed(Toggle, ws1, ws2, lo, hi)
    ensures ws2 == ws0
  {
    forall i: nat {:trigger Bit(ws2, i)} | i < WORD_BITS * |ws2| ensures Bit(ws2, i) == Bit(ws0, i) {
      assert Bit(ws1, i) == if lo <= i < hi then !Bit(ws0, i) else Bit(ws0, i);
    }
    SameBits(ws2, ws0);
  }
}
