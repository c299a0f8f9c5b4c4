/** Bulk pushes undone by bulk pops. */
module DequeRoundTrips {
  /* What a bulk push adds, a bulk pop of as many items takes off again: the data come back,
     and the deque holds what it held before, wherever the chunks begin and end. */

  import opened Deque
  import opened DequeChunks
  import opened DequeLists

  lemma SameParts(a: seq<Item>, b: seq<Item>, c: seq<Item>, d: seq<Item>)
    requires a + b == c + d && |b| == |d|
    ensures a == c && b == d
  {
    assert a == (a + b)[..|a|] && c == (c + d)[..|a|];
    assert b == (a + b)[|a|..] && d == (c + d)[|a|..];
  }

  method PushTakeBack(d: Deque, data: seq<Item>) returns (r: Request, taken: seq<Item>)
    requires d.Valid() && !d.AsksForNone(|data|)
    modifies d
    ensures !r.Fault? && d.Valid() && d.Contents() == old(d.Contents())
    ensures r.Acquired? ==> taken == data
  {
    r := d.PushBackMany(data);
    taken := [];
    if r.Acquired? {
      taken := d.TakeBack(|data|);
      SameParts(old(d.Contents()), data, d.Contents(), taken);
    }
  }

  method PushPopBack(d: Deque, data: seq<Item>) returns (r: Request, popped: seq<Item>)
    requires d.Valid() && !d.AsksForNone(|data|)
    modifies d
    ensures !r.Fault? && d.Valid() && d.Contents() == old(d.Contents())
    ensures r.Acquired? ==> popped == Reversed(data)
  {
    r := d.PushBackMany(data);
    popped := [];
    if r.Acquired? {
      popped := d.PopBackMany(|data|);
      SameParts(old(d.Contents()), data, d.Contents(), Reversed(popped));
      ReversedTwice(popped);
    }
  }

  /** With turn it is push_front, without it prepend. */
  method PushPopFront(d: Deque, data: seq<Item>, turn: bool) returns (r: Request, popped: seq<Item>)
    requires d.Valid() && (d.Contents() == [] ==> 0 < |data| <= d.chunkSize)
    modifies d
    ensures !r.Fault? && d.Valid() && d.Contents() == old(d.Contents())
    ensures r.Acquired? ==> popped == Turned(data, turn)
  {
    r := d.PushFrontMany(data, turn);
    popped := [];
    if r.Acquired? {
      popped := d.PopFrontMany(|data|);
      SameParts(Turned(data, turn), old(d.Contents()), popped, d.Contents());
    }
  }

  /** The room at the back: in the last chunk, and in the recycled ones. */
  ghost function RoomBehind(d: Deque): nat
    requires d.Valid()
    reads d
  {
    LastFits(Data(d.mem, d.used), d.chunkSize);
    (if d.used == [] then 0 else d.chunkSize - LastOf(Data(d.mem, d.used)).tail) + d.idle * d.chunkSize
  }

  lemma LastFits(cs: seq<Chunk>, size: nat)
    requires Dense(cs, size)
    ensures cs != [] ==> LastOf(cs).tail <= size
  {
    if cs != [] { EndsFit(cs, size); }
  }

  /** What fits into the room at the back is stored without asking for memory. */
  method PushWhatFits(d: Deque, data: seq<Item>) returns (r: Request)
    requires d.Valid() && !d.AsksForNone(|data|) && |data| <= RoomBehind(d)
    modifies d
    ensures r.Acquired? && d.Valid() && d.Contents() == old(d.Contents()) + data
    ensures d.refused == old(d.refused) && d.chunks == old(d.chunks)
  {
    LastFits(Data(d.mem, d.used), d.chunkSize);
    BackFits(Data(d.mem, d.used), d.chunkSize, |data|, d.idle);
    r := d.PushBackMany(data);
  }

  /** reserve() on an empty deque, and then a bulk push of no more than was reserved: if the
      memory could be reserved, the push succeeds and asks for none. */
  method ReserveThenPush(d: Deque, capacity: nat, data: seq<Item>) returns (ok: bool, r: Request)
    requires d.Valid() && d.Contents() == [] && 0 < |data| <= capacity
    modifies d
    ensures ok <==> d.refused == old(d.refused)
    ensures ok ==> r.Acquired? && d.Valid() && d.Contents() == data
    ensures !ok ==> d.Valid() && d.Contents() == []
  {
    ok := d.Reserve(capacity);
    r := NoMemory;
    if !ok { return; }
    NoItems(Data(d.mem, d.used), d.chunkSize);
    r := PushWhatFits(d, data);
  }
}
