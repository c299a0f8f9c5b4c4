/** The bit set (src/main/bitset.cpp): a resizable row of bits kept in words. */
module BitSet {
  import opened BitWords

  /** How many words so many bits take. */
  function WordsFor(size: nat): nat {
    (size + WORD_BITS - 1) / WORD_BITS
  }

  class BitSet {
    var size: nat
    var capacity: nat
    var data: array<Word>
    ghost var refused: nat              // requests for memory that were refused

    ghost predicate Valid()
      reads this, data
    {
      && data.Length == capacity && Words(data[..])
      && size <= WORD_BITS * capacity && (size > 0 ==> capacity == WordsFor(size))
    }

    /** The bits of the buffer behind the last bit are zero. */
    ghost predicate Padded()
      requires Valid()
      reads this, data
    {
      forall i: nat {:trigger Bit(data[..], i)} :: size <= i < WORD_BITS * capacity ==> !Bit(data[..], i)
    }

    constructor ()
      ensures Valid() && Padded() && size == 0 && capacity == 0 && fresh(data) && refused == 0
    {
      size, capacity, refused := 0, 0, 0;
      data := new Word[0];
    }

    /** The bits that a range operation changes: up to index + count, but not behind the end. */
    function End(index: nat, count: nat): nat
      reads `size
    {
      if index >= size then index else if index + count > size then size else index + count
    }

    // ------------------------------------------------------------------------
    // Ranges
    // ------------------------------------------------------------------------

    /** The bits under a mask of one word, the next part of a range. */
    method Merge(op: Op, w: nat, mask: Word, ghost ws0: seq<Word>, ghost lo: nat, ghost a: nat, ghost b: nat)
      requires data.Length == capacity && w < capacity && a <= b <= WORD_BITS && IsMask(mask, a, b)
      requires Changed(op, ws0, data[..], lo, WORD_BITS * w + a) && lo <= WORD_BITS * w + a
      modifies data
      ensures Changed(op, ws0, data[..], lo, WORD_BITS * w + b)
    {
      Masked(data[w], mask, a, b);
      OneWord(op, ws0, data[..], lo, w, a, b, Merged(op, data[w], mask));
      data[w] := Merged(op, data[w], mask);
    }

    /** memset or bzero of n words, the next part of a range. */
    method Fill(op: Op, w: nat, n: nat, value: Word, ghost ws0: seq<Word>, ghost lo: nat)
      requires data.Length == capacity && w + n <= capacity
      requires (op == Set && value == Max()) || (op == Unset && value == Zero())
      requires Changed(op, ws0, data[..], lo, WORD_BITS * w) && lo <= WORD_BITS * w
      modifies data
      ensures Changed(op, ws0, data[..], lo, WORD_BITS * (w + n))
    {
      ghost var ws := data[..];
      forall j | w <= j < w + n { data[j] := value; }
      forall j | w <= j < w + n ensures ChangedWord(op, ws[j], data[..][j], 0, WORD_BITS) { WholeMasked(ws[j]); }
      WholeWords(op, ws0, ws, data[..], lo, w, n);
    }

    /** The head part of a range: all of it when it lies inside one word, otherwise the rest
        of the first word. */
    method Head(op: Op, w: nat, off: nat, count: nat, inside: bool, ghost ws0: seq<Word>)
      requires data.Length == capacity && w < capacity && 0 < off < WORD_BITS && count > 0
      requires if inside then off + count <= WORD_BITS else off + count >= WORD_BITS
      requires Changed(op, ws0, data[..], WORD_BITS * w + off, WORD_BITS * w + off)
      modifies data
      ensures Changed(op, ws0, data[..], WORD_BITS * w + off, if inside then WORD_BITS * w + off + count else WORD_BITS * (w + 1))
    {
      if inside {
        HeadMask(off, count);
        Merge(op, w, Shl(Shr(Max(), WORD_BITS - count), off), ws0, WORD_BITS * w + off, off, off + count);
      } else {
        UpMask(off);
        Merge(op, w, Shl(Max(), off), ws0, WORD_BITS * w + off, off, WORD_BITS);
      }
    }

    /** set of a range. */
    method SetRange(index: nat, count: nat) returns (total: nat)
      requires Valid()
      modifies data
      ensures Valid() && total == End(index, count) - index
      ensures Changed(Set, old(data[..]), data[..], index, End(index, count))
      ensures old(Padded()) ==> Padded()
    {
      ghost var ws0 := data[..];
      NothingChanged(Set, ws0, index);
      if index >= size { return 0; }
      var left := if index + count > size then size - index else count;
      if left == 0 { return 0; }
      total := left;
      var w := index / WORD_BITS;
      var off := index % WORD_BITS;
      if off > 0 {
        var inside := off + left - 1 < WORD_BITS;
        Head(Set, w, off, left, inside, ws0);
        if inside { return; }
        left := left - (WORD_BITS - off);
        w := w + 1;
      }
      SetRest(w, left, ws0, index);
    }

    /** The middle and the tail of set. */
    method SetRest(w: nat, count: nat, ghost ws0: seq<Word>, ghost lo: nat)
      requires data.Length == capacity && WORD_BITS * w + count <= WORD_BITS * capacity
      requires Changed(Set, ws0, data[..], lo, WORD_BITS * w) && lo <= WORD_BITS * w
      modifies data
      ensures Changed(Set, ws0, data[..], lo, WORD_BITS * w + count)
    {
      var full := count / WORD_BITS;
      if full > 0 { Fill(Set, w, full, Max(), ws0, lo); }
      var left := count - full * WORD_BITS;
      if left > 0 {
        TailMask(left);
        Merge(Set, w + full, Shr(Max(), WORD_BITS - left), ws0, lo, 0, left);
      }
    }

    /** unset of a range. */
    method UnsetRange(index: nat, count: nat) returns (total: nat)
      requires Valid()
      modifies data
      ensures Valid() && total == End(index, count) - index
      ensures Changed(Unset, old(data[..]), data[..], index, End(index, count))
      ensures old(Padded()) ==> Padded()
    {
      ghost var ws0 := data[..];
      NothingChanged(Unset, ws0, index);
      if index >= size { return 0; }
      var left := if index + count > size then size - index else count;
      if left == 0 { return 0; }
      total := left;
      var w := index / WORD_BITS;
      var off := index % WORD_BITS;
      if off > 0 {
        var inside := off + left < WORD_BITS;
        Head(Unset, w, off, left, inside, ws0);
        if inside { return; }
        left := left - (WORD_BITS - off);
        w := w + 1;
      }
      UnsetRest(w, left, ws0, index);
    }

    /** The middle and the tail of unset. */
    method UnsetRest(w: nat, count: nat, ghost ws0: seq<Word>, ghost lo: nat)
      requires data.Length == capacity && WORD_BITS * w + count <= WORD_BITS * capacity
      requires Changed(Unset, ws0, data[..], lo, WORD_BITS * w) && lo <= WORD_BITS * w
      modifies data
      ensures Changed(Unset, ws0, data[..], lo, WORD_BITS * w + count)
    {
      var full := count / WORD_BITS;
      if full > 0 { Fill(Unset, w, full, Zero(), ws0, lo); }
      var left := count - full * WORD_BITS;
      if left > 0 { ClearBelow(w + full, left, ws0, lo); }
    }

    /** *w &= UMWORD_MAX << count, the last part of an unset. */
    method ClearBelow(w: nat, count: nat, ghost ws0: seq<Word>, ghost lo: nat)
      requires data.Length == capacity && w < capacity && count <= WORD_BITS
      requires Changed(Unset, ws0, data[..], lo, WORD_BITS * w) && lo <= WORD_BITS * w
      modifies data
      ensures Changed(Unset, ws0, data[..], lo, WORD_BITS * w + count)
    {
      AndUp(data[w], count);
      OneWord(Unset, ws0, data[..], lo, w, 0, count, AndW(data[w], Shl(Max(), count)));
      data[w] := AndW(data[w], Shl(Max(), count));
    }

    /** toggle of a range. */
    method ToggleRange(index: nat, count: nat) returns (total: nat)
      requires Valid()
      modifies data
      ensures Valid() && total == End(index, count) - index
      ensures Changed(Toggle, old(data[..]), data[..], index, End(index, count))
      ensures old(Padded()) ==> Padded()
    {
      ghost var ws0 := data[..];
      NothingChanged(Toggle, ws0, index);
      if index >= size { return 0; }
      var left := if index + count > size then size - index else count;
      if left == 0 { return 0; }
      total := left;
      var w := index / WORD_BITS;
      var off := index % WORD_BITS;
      if off > 0 {
        var inside := off + left < WORD_BITS;
        Head(Toggle, w, off, left, inside, ws0);
        if inside { return; }
        left := left - (WORD_BITS - off);
        w := w + 1;
      }
      ToggleRest(w, left, ws0, index);
    }

    /** The words from w on, and a last part of a word: the end of toggle and toggle_all. */
    method ToggleRest(w: nat, count: nat, ghost ws0: seq<Word>, ghost lo: nat)
      requires data.Length == capacity && WORD_BITS * w + count <= WORD_BITS * capacity
      requires Changed(Toggle, ws0, data[..], lo, WORD_BITS * w) && lo <= WORD_BITS * w
      modifies data
      ensures Changed(Toggle, ws0, data[..], lo, WORD_BITS * w + count)
    {
      var k, left: nat := w, count;
      while left >= WORD_BITS
        invariant WORD_BITS * k + left == WORD_BITS * w + count && w <= k
        invariant Changed(Toggle, ws0, data[..], lo, WORD_BITS * k)
      {
        TailMask(WORD_BITS);
        assert IsMask(Max(), 0, WORD_BITS);
        Merge(Toggle, k, Max(), ws0, lo, 0, WORD_BITS);
        left := left - WORD_BITS;
        k := k + 1;
      }
      if left > 0 {
        TailMask(left);
        Merge(Toggle, k, Shr(Max(), WORD_BITS - left), ws0, lo, 0, left);
      }
    }

    /** set of a range from an array of values. */
    method SetValues(index: nat, values: seq<bool>) returns (total: nat)
      requires Valid()
      modifies data
      ensures Valid() && total == End(index, |values|) - index
      ensures Stored(old(data[..]), data[..], index, values[..total])
      ensures old(Padded()) ==> Padded()
    {
      ghost var ws0 := data[..];
      if index >= size { return 0; }
      total := if index + |values| > size then size - index else |values|;
      var w: nat, off: nat := index / WORD_BITS, index % WORD_BITS;
      for i := 0 to total
        invariant WORD_BITS * w + off == index + i && off < WORD_BITS && data.Length == capacity
        invariant Stored(ws0, data[..], index, values[..i])
      {
        OneMask(off);
        Masked(data[w], Shl(One(), off), off, off + 1);
        StoredNext(ws0, data[..], index, values, i, w, off);
        data[w] := Merged(if values[i] then Set else Unset, data[w], Shl(One(), off));
        off := off + 1;
        if off >= WORD_BITS { off, w := 0, w + 1; }
      }
    }

    // ------------------------------------------------------------------------
    // Single bits
    // ------------------------------------------------------------------------

    /** get: false behind the end. */
    method Get(index: nat) returns (b: bool)
      requires Valid()
      ensures b <==> index < size && Bit(data[..], index)
    {
      if index >= size { return false; }
      OneBitTest(data[index / WORD_BITS], index % WORD_BITS);
      b := AndW(data[index / WORD_BITS], Shl(One(), index % WORD_BITS)) != Zero();
    }

    /** set, unset and toggle of one bit: the old value, and nothing behind the end. */
    method ChangeBit(op: Op, index: nat) returns (prev: bool)
      requires Valid()
      modifies data
      ensures Valid() && (prev <==> index < size && Bit(old(data[..]), index))
      ensures Changed(op, old(data[..]), data[..], index, End(index, 1))
      ensures old(Padded()) ==> Padded()
    {
      NothingChanged(op, data[..], index);
      if index >= size { return false; }
      var w, k := index / WORD_BITS, index % WORD_BITS;
      OneBitTest(data[w], k);
      OneMask(k);
      prev := AndW(data[w], Shl(One(), k)) != Zero();
      Merge(op, w, Shl(One(), k), data[..], index, k, k + 1);
    }

    // ------------------------------------------------------------------------
    // All bits
    // ------------------------------------------------------------------------

    /** set_all. The bits behind the end stay zero exactly if there are bits at all, or no
        buffer. */
    method SetAll()
      requires Valid()
      modifies data
      ensures Valid() && forall i: nat {:trigger Bit(data[..], i)} :: i < WORD_BITS * capacity ==> (Bit(data[..], i) <==> i < size || size == 0)
      ensures Padded() <==> size > 0 || capacity == 0
    {
      ghost var ws0 := data[..];
      NothingChanged(Set, ws0, 0);
      Fill(Set, 0, capacity, Max(), ws0, 0);
      ghost var ws1 := data[..];
      var bits := size % WORD_BITS;
      if bits > 0 {
        LastWord(size, capacity);
        UpMask(bits);
        AndUp(Max(), bits);
        NothingChanged(Unset, ws1, WORD_BITS * (capacity - 1) + bits);
        AllOnes(ws0, ws1, capacity - 1);
        data[capacity - 1] := NotW(Shl(Max(), bits));
        MaxAnd(bits);
        OneWord(Unset, ws1, ws1, WORD_BITS * (capacity - 1) + bits, capacity - 1, bits, WORD_BITS, NotW(Shl(Max(), bits)));
      }
      AllSet(ws0, ws1, data[..], size, capacity);
      assert size == 0 && capacity > 0 ==> Bit(data[..], 0);
    }

    /** unset_all. */
    method UnsetAll()
      requires Valid()
      modifies data
      ensures Valid() && Padded() && forall i: nat :: i < size ==> !Bit(data[..], i)
    {
      NothingChanged(Unset, data[..], 0);
      Fill(Unset, 0, capacity, Zero(), data[..], 0);
    }

    /** clear: no bits, the same zeroed buffer. */
    method Clear()
      requires Valid()
      modifies `size, data
      ensures Valid() && Padded() && size == 0 && capacity == old(capacity)
    {
      size := 0;
      NothingChanged(Unset, data[..], 0);
      Fill(Unset, 0, capacity, Zero(), data[..], 0);
    }

    /** toggle_all: every bit, but not those behind the end. */
    method ToggleAll()
      requires Valid()
      modifies data
      ensures Valid() && Changed(Toggle, old(data[..]), data[..], 0, size)
      ensures old(Padded()) ==> Padded()
    {
      NothingChanged(Toggle, data[..], 0);
      ToggleRest(0, size, data[..], 0);
    }

    // ------------------------------------------------------------------------
    // Resizing
    // ------------------------------------------------------------------------

    method Flush()
      modifies `size, `capacity, `data
      ensures Valid() && Padded() && size == 0 && capacity == 0 && fresh(data)
    {
      data := new Word[0];
      size, capacity := 0, 0;
    }

    /** realloc: the common words stay, new words are zeroed by the caller. */
    method Realloc(cap: nat) returns (ok: bool)
      requires Valid()
      modifies `capacity, `data, `refused
      ensures refused == old(refused) + (if ok then 0 else 1)
      ensures !ok ==> capacity == old(capacity) && data == old(data)
      ensures ok ==> fresh(data) && data.Length == capacity == cap && Words(data[..])
      ensures ok ==> forall k :: 0 <= k < cap ==> data[k] == if k < old(capacity) then old(data[..])[k] else Zero()
    {
      var granted := *;
      if !granted {
        refused := refused + 1;
        return false;
      }
      var from := data;
      var have := capacity;
      var buf := new Word[cap](k requires 0 <= k reads from => if k < from.Length then from[k] else Zero());
      ghost var ws0 := data[..];
      forall k | 0 <= k < cap ensures |buf[k]| == WORD_BITS && buf[k] == if k < have then ws0[k] else Zero() {
        assert buf[k] == if k < from.Length then from[k] else Zero();
        assert k < have ==> |ws0[k]| == WORD_BITS;
      }
      data := buf;
      capacity := cap;
      ok := true;
    }

    /** resize: the buffer keeps what it has; zero is added, and the bits behind the new end
        of its last word are cleared. It fails only when it asks for memory, for another number
        of words, and is refused. */
    method Resize(n: nat) returns (ok: bool)
      requires Valid()
      modifies this, data
      ensures Valid() && (!ok ==> size == old(size) && data[..] == old(data[..]))
      ensures refused == old(refused) + (if ok then 0 else 1)
      ensures !ok ==> n > 0 && WordsFor(n) != old(capacity)
      ensures ok ==> size == n && capacity == WordsFor(n) && Padded()
      ensures ok ==> forall i: nat {:trigger Bit(data[..], i)} :: i < n ==>
        Bit(data[..], i) == (i < WORD_BITS * old(capacity) && Bit(old(data[..]), i))
    {
      if n == 0 {
        Flush();
        return true;
      }
      ghost var ws0, cap0 := data[..], capacity;
      var cap := WordsFor(n);
      var bits := n % WORD_BITS;
      ok := true;
      if cap != capacity {
        ok := Realloc(cap);
        if !ok { return; }
      }
      ghost var ws1 := data[..];
      if bits > 0 {
        LastWord(n, capacity);
        UpMask(bits);
        NothingChanged(Unset, ws1, WORD_BITS * (capacity - 1) + bits);
        Merge(Unset, capacity - 1, Shl(Max(), bits), ws1, WORD_BITS * (capacity - 1) + bits, bits, WORD_BITS);
      }
      size := n;
      Resized(ws0, ws1, data[..], n);
    }
  }

  /** set_all after clear() and the next resize: bits that were never set read true, as far as
      the old buffer went. */
  method ExposeStaleBits(b: BitSet, n: nat) returns (ok: bool)
    requires b.Valid() && n > 0
    modifies b, b.data
    ensures b.Valid() && (ok ==> b.size == n) && (ok <==> b.refused == old(b.refused))
    ensures ok ==> forall i: nat :: i < n ==> (Bit(b.data[..], i) <==> i < WORD_BITS * old(b.capacity))
  {
    b.Clear();
    b.SetAll();
    ghost var ws0 := b.data[..];
    ghost var cap0 := b.capacity;
    ok := b.Resize(n);
    if ok {
      forall i: nat | i < n ensures Bit(b.data[..], i) <==> i < WORD_BITS * cap0 {
        assert Bit(b.data[..], i) == (i < WORD_BITS * cap0 && Bit(ws0, i));
      }
    }
  }

  lemma LastWord(size: nat, capacity: nat)
    requires size > 0 && size % WORD_BITS > 0 && capacity == WordsFor(size)
    ensures capacity > 0 && WORD_BITS * (capacity - 1) + size % WORD_BITS == size
  {
  }

  lemma MaxAnd(bits: nat)
    requires bits <= WORD_BITS
    ensures ChangedWord(Unset, Max(), NotW(Shl(Max(), bits)), bits, WORD_BITS)
  {
    UpMask(bits);
    forall j | 0 <= j < WORD_BITS ensures NotW(Shl(Max(), bits))[j] == (j < bits) { assert Shl(Max(), bits)[j] == (bits <= j); }
  }

  lemma AllOnes(ws0: seq<Word>, ws1: seq<Word>, k: nat)
    requires Changed(Set, ws0, ws1, 0, WORD_BITS * |ws1|) && k < |ws1|
    ensures ws1[k] == Max()
  {
    forall j | 0 <= j < WORD_BITS ensures ws1[k][j] {
      var i := WORD_BITS * k + j;
      assert i / WORD_BITS == k && i % WORD_BITS == j;
      assert Bit(ws1, i);
    }
  }

  /** What set_all leaves. */
  lemma AllSet(ws0: seq<Word>, ws1: seq<Word>, ws2: seq<Word>, size: nat, capacity: nat)
    requires Changed(Set, ws0, ws1, 0, WORD_BITS * capacity) && |ws1| == capacity && size <= WORD_BITS * capacity
    requires size > 0 ==> capacity == WordsFor(size)
    requires if size % WORD_BITS > 0 then Changed(Unset, ws1, ws2, size, WORD_BITS * capacity) else ws2 == ws1
    ensures |ws2| == capacity
    ensures forall i: nat {:trigger Bit(ws2, i)} :: i < WORD_BITS * capacity ==> (Bit(ws2, i) <==> i < size || size == 0)
  {
    forall i: nat {:trigger Bit(ws2, i)} | i < WORD_BITS * capacity ensures Bit(ws2, i) <==> i < size || size == 0 {
      assert Bit(ws1, i);
    }
  }

  /** What resize leaves. */
  lemma Resized(ws0: seq<Word>, ws1: seq<Word>, ws2: seq<Word>, n: nat)
    requires n > 0 && |ws1| == WordsFor(n)
    requires forall k :: 0 <= k < |ws1| ==> ws1[k] == if k < |ws0| then ws0[k] else Zero()
    requires if n % WORD_BITS > 0 then Changed(Unset, ws1, ws2, n, WORD_BITS * |ws1|) else ws2 == ws1
    ensures |ws2| == |ws1|
    ensures forall i: nat {:trigger Bit(ws2, i)} :: i < WORD_BITS * |ws2| ==>
      (Bit(ws2, i) <==> i < n && i < WORD_BITS * |ws0| && Bit(ws0, i))
  {
    forall i: nat {:trigger Bit(ws2, i)} | i < WORD_BITS * |ws2|
      ensures Bit(ws2, i) <==> i < n && i < WORD_BITS * |ws0| && Bit(ws0, i)
    {
      var k := i / WORD_BITS;
      assert Bit(ws1, i) == At(ws1[k], i % WORD_BITS);
      assert k < |ws0| <==> i < WORD_BITS * |ws0|;
    }
  }

  /** The bits from index on are the values, the others are as before. */
  ghost predicate Stored(ws0: seq<Word>, ws: seq<Word>, index: nat, values: seq<bool>) {
    && |ws| == |ws0| && Words(ws)
    && forall i: nat {:trigger Bit(ws, i)} :: i < WORD_BITS * |ws| ==>
      Bit(ws, i) == if index <= i < index + |values| then values[i - index] else Bit(ws0, i)
  }

  lemma StoredNext(ws0: seq<Word>, ws: seq<Word>, index: nat, values: seq<bool>, n: nat, k: nat, a: nat)
    requires n < |values| && k < |ws| && a < WORD_BITS && WORD_BITS * k + a == index + n && Stored(ws0, ws, index, values[..n])
    requires IsMask(Shl(One(), a), a, a + 1)
    ensures var op := if values[n] then Set else Unset;
      Stored(ws0, ws[k := Merged(op, ws[k], Shl(One(), a))], index, values[..n + 1])
  {
    var op := if values[n] then Set else Unset;
    var ws' := ws[k := Merged(op, ws[k], Shl(One(), a))];
    Masked(ws[k], Shl(One(), a), a, a + 1);
    NothingChanged(op, ws, index + n);
    OneWord(op, ws, ws, index + n, k, a, a + 1, Merged(op, ws[k], Shl(One(), a)));
    forall i: nat {:trigger Bit(ws', i)} | i < WORD_BITS * |ws'|
      ensures Bit(ws', i) == if index <= i < index + n + 1 then values[i - index] else Bit(ws0, i)
    {
      assert Bit(ws', i) == if index + n <= i < index + n + 1 then Apply(op, Bit(ws, i)) else Bit(ws, i);
      assert Bit(ws, i) == if index <= i < index + n then values[..n][i - index] else Bit(ws0, i);
    }
  }

  /** toggle of the same range twice gives back the whole buffer. */
  method ToggleTwice(b: BitSet, index: nat, count: nat) returns (m: nat, n: nat)
    requires b.Valid()
    modifies b.data
    ensures b.Valid() && b.data[..] == old(b.data[..]) && m == n
  {
    ghost var ws0 := b.data[..];
    m := b.ToggleRange(index, count);
    ghost var ws1 := b.data[..];
    n := b.ToggleRange(index, count);
    ToggledTwice(ws0, ws1, b.data[..], index, b.End(index, count));
  }
}
