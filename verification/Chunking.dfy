/** How writers cut the caller's bytes into blocks, independent of how the blocks are encoded. */
module Chunking {
  import opened Bytes
  import opened StreamFormat
  import opened StreamSpec

  /** `data` cut into blocks of `size`, the last one possibly shorter. */
  function Pieces(data: seq<byte>, size: nat): seq<Item>
    requires size >= 1
    decreases |data|
  {
    if data == [] then []
    else if |data| <= size then [Data(data)]
    else [Data(data[..size])] + Pieces(data[size..], size)
  }

  /** The full blocks of `data` and what is left of it. */
  function Cut(data: seq<byte>, size: nat): (seq<Item>, seq<byte>)
    requires size >= 1
    decreases |data|
  {
    if |data| < size then ([], data)
    else
      var (blocks, rest) := Cut(data[size..], size);
      ([Data(data[..size])] + blocks, rest)
  }

  /** What a writer holds: input not yet cut into blocks, and the items before it. */
  datatype Pending = Pending(items: seq<Item>, buffer: seq<byte>)

  /** A `write` call. */
  function Accept(s: Pending, p: seq<byte>, size: nat): Pending
    requires size >= 1
  {
    var (blocks, rest) := Cut(s.buffer + p, size);
    Pending(s.items + blocks, rest)
  }

  /** A `write` call of a writer that flushes on write. */
  function AcceptNow(s: Pending, p: seq<byte>, size: nat): Pending
    requires size >= 1
  {
    Pending(s.items + Pieces(p, size), s.buffer)
  }

  /** Everything buffered becomes items. */
  function Flushed(s: Pending, size: nat): Pending
    requires size >= 1
  {
    Pending(s.items + Pieces(s.buffer, size), [])
  }

  /** A user chunk goes after the data written before it. */
  function WithUser(s: Pending, id: byte, body: seq<byte>, size: nat): Pending
    requires size >= 1
  {
    var f := Flushed(s, size);
    Pending(f.items + [User(id, body)], f.buffer)
  }

  // -------- nothing is lost, added or reordered --------

  predicate Fits(s: Pending, size: nat) { ValidItems(s.items, size) && |s.buffer| < size }

  lemma {:induction false} ContentConcat(a: seq<Item>, b: seq<Item>)
    ensures Content(a + b) == Content(a) + Content(b)
    decreases |b|
  {
    if b == [] {
      assert a + b == a;
    } else {
      var all := a + b;
      assert all[..|all| - 1] == a + b[..|b| - 1];
      ContentConcat(a, b[..|b| - 1]);
    }
  }

  lemma {:induction false} ItemsConcat(codec: Codec, a: seq<Item>, b: seq<Item>)
    ensures ItemsBytes(codec, a + b) == ItemsBytes(codec, a) + ItemsBytes(codec, b)
    decreases |b|
  {
    hide ItemBytes;
    if b == [] {
      assert a + b == a;
    } else {
      var all := a + b;
      assert all[..|all| - 1] == a + b[..|b| - 1];
      ItemsConcat(codec, a, b[..|b| - 1]);
    }
  }

  lemma ContentOfOne(block: seq<byte>)
    ensures Content([Data(block)]) == block
  {
    assert Content([]) == [];
  }

  lemma {:induction false} PiecesContent(data: seq<byte>, size: nat)
    requires size >= 1
    ensures Content(Pieces(data, size)) == data && (size <= MAX_BLOCK_SIZE ==> ValidItems(Pieces(data, size), size))
    decreases |data|
  {
    if |data| > size {
      ContentOfOne(data[..size]);
      PiecesContent(data[size..], size);
      ContentConcat([Data(data[..size])], Pieces(data[size..], size));
    } else {
      ContentOfOne(data);
    }
  }

  lemma {:induction false} CutContent(data: seq<byte>, size: nat)
    requires 1 <= size
    ensures var (blocks, rest) := Cut(data, size);
            Content(blocks) + rest == data && |rest| < size && ValidItems(blocks, size)
    decreases |data|
  {
    if |data| >= size {
      var (blocks, rest) := Cut(data[size..], size);
      ContentOfOne(data[..size]);
      CutContent(data[size..], size);
      ContentConcat([Data(data[..size])], blocks);
      assert data == data[..size] + (Content(blocks) + rest);
    }
  }

  lemma ValidConcat(a: seq<Item>, b: seq<Item>, size: nat)
    requires ValidItems(a, size) && ValidItems(b, size)
    ensures ValidItems(a + b, size)
  {
  }

  /** Writing keeps the blocks within the limit and all bytes in order. */
  lemma AcceptKeeps(s: Pending, p: seq<byte>, size: nat)
    requires 1 <= size && Fits(s, size)
    ensures var r := Accept(s, p, size);
            Fits(r, size) && Content(r.items) + r.buffer == Content(s.items) + s.buffer + p
  {
    hide Cut, Content, ValidItems;
    var (blocks, rest) := Cut(s.buffer + p, size);
    CutContent(s.buffer + p, size);
    ContentConcat(s.items, blocks);
    ValidConcat(s.items, blocks, size);
    assert Content(s.items) + Content(blocks) + rest == Content(s.items) + (s.buffer + p);
  }

  lemma AcceptNowKeeps(s: Pending, p: seq<byte>, size: nat)
    requires 1 <= size <= MAX_BLOCK_SIZE && Fits(s, size) && s.buffer == []
    ensures var r := AcceptNow(s, p, size); Fits(r, size) && Content(r.items) == Content(s.items) + p && r.buffer == []
  {
    hide Pieces, Content, ValidItems;
    PiecesContent(p, size);
    ContentConcat(s.items, Pieces(p, size));
    ValidConcat(s.items, Pieces(p, size), size);
  }

  /** So does flushing, which empties the buffer. */
  lemma FlushKeeps(s: Pending, size: nat)
    requires 1 <= size <= MAX_BLOCK_SIZE && Fits(s, size)
    ensures var r := Flushed(s, size); Fits(r, size) && Content(r.items) == Content(s.items) + s.buffer && r.buffer == []
  {
    hide Pieces, Content, ValidItems;
    PiecesContent(s.buffer, size);
    ContentConcat(s.items, Pieces(s.buffer, size));
    ValidConcat(s.items, Pieces(s.buffer, size), size);
  }

  predicate Full(item: Item, size: nat) { item.Data? && |item.block| == size }

  lemma {:induction false} CutFull(data: seq<byte>, size: nat)
    requires size >= 1
    ensures forall b <- Cut(data, size).0 :: Full(b, size)
    decreases |data|
  {
    if |data| >= size {
      CutFull(data[size..], size);
    }
  }

  lemma {:induction false} PieceFull(data: seq<byte>, size: nat, i: nat)
    requires size >= 1 && i + 1 < |Pieces(data, size)|
    ensures Full(Pieces(data, size)[i], size)
    decreases |data|
  {
    FirstPiece(data, size);
    if i > 0 {
      PieceFull(data[size..], size, i - 1);
    }
  }

  /** A buffering `write` adds only full blocks, and items once added stay. */
  lemma AcceptFills(s: Pending, p: seq<byte>, size: nat)
    requires size >= 1
    ensures var r := Accept(s, p, size);
            s.items <= r.items && forall i :: |s.items| <= i < |r.items| ==> Full(r.items[i], size)
  {
    hide Cut;
    CutFull(s.buffer + p, size);
    var blocks := Cut(s.buffer + p, size).0;
    forall i | |s.items| <= i < |s.items + blocks| ensures Full((s.items + blocks)[i], size) {
      assert blocks[i - |s.items|] in blocks;
    }
  }

  /** Flushing adds full blocks but for the last one. */
  lemma FlushFills(s: Pending, size: nat)
    requires size >= 1
    ensures var r := Flushed(s, size);
            s.items <= r.items && forall i :: |s.items| <= i < |r.items| - 1 ==> Full(r.items[i], size)
  {
    hide Pieces;
    var p := Pieces(s.buffer, size);
    forall i | |s.items| <= i < |s.items + p| - 1 ensures Full((s.items + p)[i], size) {
      PieceFull(s.buffer, size, i - |s.items|);
    }
  }

  lemma UserKeeps(s: Pending, id: byte, body: seq<byte>, size: nat)
    requires 1 <= size <= MAX_BLOCK_SIZE && Fits(s, size) && ValidItem(User(id, body), size)
    ensures var r := WithUser(s, id, body, size);
            Fits(r, size) && Content(r.items) == Content(s.items) + s.buffer && r.buffer == []
  {
    hide Flushed;
    FlushKeeps(s, size);
    var f, user := Flushed(s, size), [User(id, body)];
    assert Content(f.items + user) == Content(f.items) + [] by {
      assert (f.items + user)[..|f.items|] == f.items;
    }
    ValidConcat(f.items, user, size);
  }

  // -------- facts the writers' loops use --------

  predicate CutsAt(data: seq<byte>, n: nat, size: nat)
    requires size >= 1 && n <= |data|
  {
    Cut(data, size) == (Pieces(data[..n], size) + Cut(data[n..], size).0, Cut(data[n..], size).1)
  }

  lemma CutsLater(data: seq<byte>, n: nat, size: nat)
    requires 1 <= size <= n <= |data| && CutsAt(data[size..], n - size, size)
    ensures CutsAt(data, n, size)
  {
    hide Cut, Pieces;
    var rest := data[size..];
    assert rest[n - size..] == data[n..];
    assert rest[..n - size] == data[..n][size..];
    assert data[..n][..size] == data[..size];
    FirstPiece(data[..n], size);
    OneCut(data, size);
    var first, middle, end := [Data(data[..size])], Pieces(rest[..n - size], size), Cut(data[n..], size).0;
    assert first + (middle + end) == first + middle + end;
  }

  /** Whole blocks taken straight from the input are cut the same way as through the buffer. */
  lemma {:induction false} WholeBlocks(data: seq<byte>, q: nat, size: nat)
    requires size >= 1 && q * size <= |data|
    ensures CutsAt(data, q * size, size)
    decreases q
  {
    if q == 0 {
      assert data[0..] == data;
      assert Pieces([], size) + Cut(data, size).0 == Cut(data, size).0;
    } else {
      assert q * size == size + (q - 1) * size;
      WholeBlocks(data[size..], q - 1, size);
      CutsLater(data, q * size, size);
    }
  }

  lemma OneCut(data: seq<byte>, size: nat)
    requires size >= 1 && |data| >= size
    ensures Cut(data, size) == ([Data(data[..size])] + Cut(data[size..], size).0, Cut(data[size..], size).1)
  {
  }

  lemma FirstPiece(data: seq<byte>, size: nat)
    requires size >= 1 && |data| >= size
    ensures Pieces(data, size) == [Data(data[..size])] + Pieces(data[size..], size)
  {
    if |data| == size {
      assert data[..size] == data;
      assert data[size..] == [];
    }
  }

  /** A full buffer is one block. */
  lemma FullBuffer(buffer: seq<byte>, p: seq<byte>, size: nat)
    requires size >= 1 && |buffer| == size
    ensures Cut(buffer + p, size) == (Pieces(buffer, size) + Cut(p, size).0, Cut(p, size).1)
  {
    assert (buffer + p)[..size] == buffer;
    assert (buffer + p)[size..] == p;
  }
}
