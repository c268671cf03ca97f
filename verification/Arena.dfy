/**
 * The bump allocator: blocks one behind the other in a byte arena, each with a flag byte, its size and the arena's end
 * address in front of its payload.
 */
module Arena {
  import opened Arithmetic
  import opened CStrings

  type byte = x: int | 0 <= x < 256

  /** Flag, size and maximum: one byte and two 64-bit integers. */
  const HEADER := 17

  function Pow256(n: nat): (p: nat)
    ensures p > 0
  {
    if n == 0 then 1 else 256 * Pow256(n - 1)
  }

  /** The n low bytes of v, lowest first. */
  function ToBytes(v: nat, n: nat): (bs: seq<byte>)
    ensures |bs| == n
  {
    if n == 0 then [] else [v % 256] + ToBytes(v / 256, n - 1)
  }

  function FromBytes(bs: seq<byte>): nat {
    if bs == [] then 0 else bs[0] + 256 * FromBytes(bs[1..])
  }

  lemma {:induction false} BytesRoundTrip(v: nat, n: nat)
    ensures FromBytes(ToBytes(v, n)) == v <==> v < Pow256(n)
    ensures FromBytes(ToBytes(v, n)) < Pow256(n)
  {
    if n > 0 {
      BytesRoundTrip(v / 256, n - 1);
      assert ToBytes(v, n)[1..] == ToBytes(v / 256, n - 1);
    }
  }

  /** Byte i of a number is its i-th digit to the base 256, the lowest first. */
  lemma {:induction false} BytesAre(v: nat, n: nat, i: nat)
    requires i < n
    ensures ToBytes(v, n)[i] == (v / Pow256(i)) % 256
  {
    if i > 0 {
      BytesAre(v / 256, n - 1, i - 1);
      DivideTwice(v, Pow256(i - 1));
    }
  }

  lemma DivideTwice(v: nat, p: nat)
    requires p > 0
    ensures (v / 256) / p == v / (256 * p)
  {
    var q, r := v / 256, v % 256;
    var a, b := q / p, q % p;
    assert v == 256 * q + r && q == p * a + b;
    assert v == a * (256 * p) + (256 * b + r) by {
      assert 256 * (p * a + b) == a * (256 * p) + 256 * b;
    }
    assert 0 <= 256 * b + r < 256 * p;
    QuotientUnique(v, 256 * p, a, 256 * b + r);
  }

  lemma WordRoundTrip(v: u64)
    ensures FromBytes(ToBytes(v, 8)) == v
  {
    assert Pow256(4) == 0x1_0000_0000;
    assert Pow256(8) == 0x1_0000_0000_0000_0000;
    BytesRoundTrip(v, 8);
  }

  /** The header macros: `meta_of` and `max_of` from a header, `size_of` and `max_of_am` from a payload. */
  function MetaOf(mem: seq<byte>, header: nat): nat
    requires header + HEADER <= |mem|
  {
    FromBytes(mem[header + 1..header + 9])
  }

  function MaxOf(mem: seq<byte>, header: nat): nat
    requires header + HEADER <= |mem|
  {
    FromBytes(mem[header + 9..header + 17])
  }

  function SizeOf(mem: seq<byte>, payload: nat): nat
    requires HEADER <= payload <= |mem|
  {
    FromBytes(mem[payload - 16..payload - 8])
  }

  function MaxOfPayload(mem: seq<byte>, payload: nat): nat
    requires HEADER <= payload <= |mem|
  {
    FromBytes(mem[payload - 8..payload])
  }

  /** The layout of a header: a flag byte, the size, and the arena's end, then the payload. */
  lemma HeaderLayout(before: seq<byte>, flag: byte, size: u64, max: u64, payload: seq<byte>)
    ensures var mem := before + [flag] + ToBytes(size, 8) + ToBytes(max, 8) + payload;
            && MetaOf(mem, |before|) == SizeOf(mem, |before| + HEADER) == size
            && MaxOf(mem, |before|) == MaxOfPayload(mem, |before| + HEADER) == max
            && mem[|before|] == flag && mem[|before| + HEADER..] == payload
  {
    hide ToBytes;
    hide FromBytes;
    WordRoundTrip(size);
    WordRoundTrip(max);
    var mem, h := before + [flag] + ToBytes(size, 8) + ToBytes(max, 8) + payload, |before|;
    assert mem[h + 1..h + 9] == ToBytes(size, 8) && mem[h + 9..h + 17] == ToBytes(max, 8);
  }

  /** A block by the offset of its header and the size of its payload. */
  datatype Block = Block(at: nat, size: nat) {
    function End(): nat {
      at + HEADER + size
    }
  }

  /** The blocks tile the arena from off to end, and the headers say so. */
  ghost predicate Laid(mem: seq<byte>, off: nat, blocks: seq<Block>, end: nat, max: nat)
    decreases |blocks|
  {
    if blocks == [] then off == end <= |mem|
    else
      var b := blocks[0];
      && b.at == off && b.End() <= end <= |mem| && b.size > 0
      && MetaOf(mem, off) == b.size && MaxOf(mem, off) == max
      && Laid(mem, b.End(), blocks[1..], end, max)
  }

  /** The walk over the headers: from block to block by size plus header. */
  function Walk(mem: seq<byte>, off: nat, end: nat): seq<Block>
    decreases end - off
  {
    if off >= end || off + HEADER > |mem| then []
    else
      var b := Block(off, MetaOf(mem, off));
      [b] + Walk(mem, b.End(), end)
  }

  /** The walk visits exactly the allocations, in order. */
  lemma {:induction false} WalkVisitsBlocks(mem: seq<byte>, off: nat, blocks: seq<Block>, end: nat, max: nat)
    requires Laid(mem, off, blocks, end, max)
    ensures Walk(mem, off, end) == blocks
    decreases |blocks|
  {
    if blocks != [] {
      WalkVisitsBlocks(mem, blocks[0].End(), blocks[1..], end, max);
    }
  }

  /** Blocks lie between the bounds and never overlap: each ends before any later one begins. */
  lemma {:induction false} BlocksAreDisjoint(mem: seq<byte>, off: nat, blocks: seq<Block>, end: nat, max: nat)
    requires Laid(mem, off, blocks, end, max)
    ensures forall i :: 0 <= i < |blocks| ==> off <= blocks[i].at && blocks[i].End() <= end
    ensures forall i, j :: 0 <= i < j < |blocks| ==> blocks[i].End() <= blocks[j].at
    decreases |blocks|
  {
    if blocks != [] {
      BlocksAreDisjoint(mem, blocks[0].End(), blocks[1..], end, max);
      assert forall i :: 1 <= i < |blocks| ==> blocks[i] == blocks[1..][i - 1];
    }
  }

  /** Whether offset q holds part of a size or maximum. */
  ghost predicate InHeader(blocks: seq<Block>, q: nat) {
    exists i :: 0 <= i < |blocks| && blocks[i].at + 1 <= q < blocks[i].at + HEADER
  }

  /** Only the header words matter for the layout. */
  lemma {:induction false} LaidDependsOnHeaders(
    mem: seq<byte>, other: seq<byte>, off: nat, blocks: seq<Block>, end: nat, max: nat)
    requires Laid(mem, off, blocks, end, max) && |other| == |mem|
    requires forall q: nat :: q < |mem| && InHeader(blocks, q) ==> other[q] == mem[q]
    ensures Laid(other, off, blocks, end, max)
    decreases |blocks|
  {
    if blocks != [] {
      var b, rest := blocks[0], blocks[1..];
      forall q: nat | q < |mem| && InHeader(rest, q) ensures other[q] == mem[q] {
        var i :| 0 <= i < |rest| && rest[i].at + 1 <= q < rest[i].at + HEADER;
        assert blocks[i + 1] == rest[i];
        assert InHeader(blocks, q);
      }
      forall q: nat | off + 1 <= q < off + HEADER ensures other[q] == mem[q] {
        assert InHeader(blocks, q);
      }
      assert other[off + 1..off + 9] == mem[off + 1..off + 9];
      assert other[off + 9..off + 17] == mem[off + 9..off + 17];
      LaidDependsOnHeaders(mem, other, b.End(), rest, end, max);
    }
  }

  /** Bytes behind the tiled part do not matter. */
  lemma LaidBehindIndex(mem: seq<byte>, other: seq<byte>, blocks: seq<Block>, end: nat, max: nat)
    requires Laid(mem, 0, blocks, end, max) && |other| == |mem| && end <= |mem| && other[..end] == mem[..end]
    ensures Laid(other, 0, blocks, end, max)
  {
    BlocksAreDisjoint(mem, 0, blocks, end, max);
    forall q: nat | q < |mem| && InHeader(blocks, q) ensures other[q] == mem[q] {
      var i :| 0 <= i < |blocks| && blocks[i].at + 1 <= q < blocks[i].at + HEADER;
      assert blocks[i].End() <= end;
      assert other[q] == other[..end][q] && mem[q] == mem[..end][q];
    }
    LaidDependsOnHeaders(mem, other, 0, blocks, end, max);
  }

  /** A block added at the end of the tiling. */
  lemma {:induction false} LaidAppend(mem: seq<byte>, off: nat, blocks: seq<Block>, end: nat, max: nat, b: Block)
    requires Laid(mem, off, blocks, end, max)
    requires b.at == end && b.size > 0 && b.End() <= |mem| && MetaOf(mem, end) == b.size && MaxOf(mem, end) == max
    ensures Laid(mem, off, blocks + [b], b.End(), max)
    decreases |blocks|
  {
    if blocks == [] {
      assert [b][1..] == [];
    } else {
      assert (blocks + [b])[1..] == blocks[1..] + [b];
      LaidAppend(mem, blocks[0].End(), blocks[1..], end, max, b);
    }
  }

  // ---- which requests are served inside the arena ----

  /**
   * What a request leads to: null for no bytes, a payload offset, the next arena when this one is full, or a block that
   * sticks out: the code asks only whether the arena is full.
   */
  datatype Grant = Null | Payload(at: nat) | NextArena | SticksOut(payload: nat) | HeaderOutside

  function Granted(index: nat, size: nat, capacity: nat): Grant {
    if size == 0 then Null
    else if capacity <= index then NextArena
    else if index + HEADER > capacity then HeaderOutside
    else if index + HEADER + size > capacity then SticksOut(index + HEADER)
    else Payload(index + HEADER)
  }

  /** `index += totalSize`, both unsigned 64-bit integers. */
  function Advanced(index: nat, size: u64): u64 {
    (index + size + HEADER) % 0x1_0000_0000_0000_0000
  }

  /** After a block that sticks out, the arena counts as full exactly when the index has not wrapped around. */
  lemma StickingFillsExactly(index: nat, size: u64, next: nat, capacity: u64)
    requires Granted(index, size, capacity).SticksOut? && next > 0
    ensures Granted(Advanced(index, size), next, capacity) == NextArena
       <==> index + size + HEADER < 0x1_0000_0000_0000_0000
  {
  }

  /** The bytes that a list of requests takes, headers included. */
  function Total(sizes: seq<nat>): nat {
    if sizes == [] then 0 else (if sizes[0] == 0 then 0 else HEADER + sizes[0]) + Total(sizes[1..])
  }

  /** Every request in turn is answered with null or a payload inside the arena. */
  predicate AllServed(index: nat, sizes: seq<nat>, capacity: nat)
    decreases |sizes|
  {
    sizes == [] ||
    match Granted(index, sizes[0], capacity)
    case Null => AllServed(index, sizes[1..], capacity)
    case Payload(at) => AllServed(at + sizes[0], sizes[1..], capacity)
    case NextArena => false
    case SticksOut(_) => false
    case HeaderOutside => false
  }

  /** A run of requests stays inside exactly when its blocks fit together into what is left. */
  lemma {:induction false} AllServedExactly(index: nat, sizes: seq<nat>, capacity: nat)
    requires index <= capacity
    ensures AllServed(index, sizes, capacity) <==> index + Total(sizes) <= capacity
    decreases |sizes|
  {
    if sizes != [] {
      match Granted(index, sizes[0], capacity)
      case Null => AllServedExactly(index, sizes[1..], capacity);
      case Payload(at) => AllServedExactly(at + sizes[0], sizes[1..], capacity);
      case NextArena =>
      case SticksOut(_) =>
      case HeaderOutside =>
    }
  }

  /** A header written at the end of the tiling, and nothing in front of it, extends the tiling by its block. */
  lemma LaidWithNew(before: seq<byte>, after: seq<byte>, blocks: seq<Block>, start: nat, size: nat, max: nat)
    requires Laid(before, 0, blocks, start, max) && |after| == |before| && size > 0
    requires start + HEADER + size <= |before| && after[..start] == before[..start]
    requires MetaOf(after, start) == size && MaxOf(after, start) == max
    ensures Laid(after, 0, blocks + [Block(start, size)], start + HEADER + size, max)
  {
    hide Laid;
    hide MetaOf;
    hide MaxOf;
    LaidBehindIndex(before, after, blocks, start, max);
    LaidAppend(after, 0, blocks, start, max, Block(start, size));
  }

  class Memory {
    const mem: array<byte>
    /** The address of the arena's first byte. */
    const base: u64
    var index: nat
    ghost var blocks: seq<Block>

    ghost predicate Valid()
      reads this, mem
    {
      && base + mem.Length < 0x1_0000_0000_0000_0000
      && Laid(mem[..], 0, blocks, index, base + mem.Length)
    }

    constructor (capacity: nat, base: u64)
      requires base + capacity < 0x1_0000_0000_0000_0000
      ensures Valid() && blocks == [] && index == 0 && mem.Length == capacity && fresh(mem)
    {
      mem := new byte[capacity](_ => 0);
      this.base := base;
      index, blocks := 0, [];
    }

    /** A store of one 64-bit integer, lowest byte first. */
    method StoreWord(at: nat, v: u64)
      requires at + 8 <= mem.Length
      modifies mem
      ensures mem[..] == old(mem[..])[..at] + ToBytes(v, 8) + old(mem[..])[at + 8..]
    {
      var bs, i := ToBytes(v, 8), 0;
      while i < 8
        invariant i <= 8
        invariant mem[..] == old(mem[..])[..at] + bs[..i] + old(mem[..])[at + i..]
      {
        mem[at + i] := bs[i];
        i := i + 1;
      }
      assert bs[..8] == bs;
    }

    /** The three header stores of a block at start. */
    method WriteHeader(start: nat, size: u64)
      requires start + HEADER <= mem.Length && base + mem.Length < 0x1_0000_0000_0000_0000
      modifies mem
      ensures mem[start] == 1
      ensures MetaOf(mem[..], start) == size && MaxOf(mem[..], start) == base + mem.Length
      ensures mem[..start] == old(mem[..start]) && mem[start + HEADER..] == old(mem[start + HEADER..])
    {
      hide ToBytes;
      hide FromBytes;
      hide MetaOf;
      hide MaxOf;
      ghost var before := mem[..];
      mem[start] := 1;
      ghost var flagged := mem[..];
      StoreWord(start + 1, size);
      ghost var sized := mem[..];
      StoreWord(start + 9, base + mem.Length);
      HeaderIsWritten(before, flagged, sized, mem[..], start, size, base + mem.Length);
      assert mem[..start] == mem[..][..start] && mem[start + HEADER..] == mem[..][start + HEADER..];
    }

    /** The header stores and the new index; the block may stick out. */
    method Place(size: u64) returns (payload: nat)
      requires index + HEADER <= mem.Length && base + mem.Length < 0x1_0000_0000_0000_0000
      modifies `index, mem
      ensures payload == old(index) + HEADER && index == Advanced(old(index), size)
      ensures mem[old(index)] == 1
      ensures SizeOf(mem[..], payload) == size == MetaOf(mem[..], old(index))
      ensures MaxOfPayload(mem[..], payload) == base + mem.Length == MaxOf(mem[..], old(index))
      ensures mem[..old(index)] == old(mem[..index]) && mem[payload..] == old(mem[index + HEADER..])
    {
      var start := index;
      WriteHeader(start, size);
      index := Advanced(start, size);
      payload := start + HEADER;
    }

    /** The in-arena path of `bMalloc`; a header that would itself be outside is not written. */
    method BMalloc(size: u64) returns (grant: Grant)
      requires Valid()
      modifies this, mem
      ensures grant == Granted(old(index), size, mem.Length) && (!grant.SticksOut? ==> Valid())
      ensures !grant.Payload? && !grant.SticksOut? ==>
                mem[..] == old(mem[..]) && blocks == old(blocks) && index == old(index)
      ensures grant.SticksOut? ==>
                && index == Advanced(old(index), size) && mem[old(index)] == 1
                && MetaOf(mem[..], old(index)) == size && MaxOf(mem[..], old(index)) == base + mem.Length
                && mem[..old(index)] == old(mem[..index]) && mem[grant.payload..] == old(mem[index + HEADER..])
      ensures grant.Payload? ==>
                && blocks == old(blocks) + [Block(old(index), size)] && index == grant.at + size
                && mem[old(index)] == 1
                && SizeOf(mem[..], grant.at) == size == MetaOf(mem[..], old(index))
                && MaxOfPayload(mem[..], grant.at) == base + mem.Length
                && mem[..old(index)] == old(mem[..index]) && mem[grant.at..] == old(mem[index + HEADER..])
    {
      hide Laid;
      hide MetaOf;
      hide MaxOf;
      hide SizeOf;
      hide MaxOfPayload;
      if size == 0 {
        return Null;
      }
      if mem.Length <= index {
        return NextArena;
      }
      if index + HEADER > mem.Length {
        return HeaderOutside;
      }
      ghost var before, start := mem[..], index;
      var payload := Place(size);
      if payload + size > mem.Length {
        return SticksOut(payload);
      }
      grant := Payload(payload);
      blocks := blocks + [Block(start, size)];
      assert mem[..][..start] == before[..start];
      LaidWithNew(before, mem[..], old(blocks), start, size, base + mem.Length);
    }

    /** `bFree`: one flag byte changes, nothing else; the layout stays. */
    method BFree(payload: nat, ghost k: nat)
      requires Valid() && k < |blocks| && payload == blocks[k].at + HEADER
      modifies mem
      ensures Valid() && blocks == old(blocks) && index == old(index)
      ensures payload - HEADER < mem.Length && mem[..] == old(mem[..])[payload - HEADER := 0]
    {
      BlocksAreDisjoint(mem[..], 0, blocks, index, base + mem.Length);
      ghost var before := mem[..];
      mem[payload - HEADER] := 0;
      assert !InHeader(blocks, payload - HEADER);
      LaidDependsOnHeaders(before, mem[..], 0, blocks, index, base + mem.Length);
    }

    /** A write of the program into its payload leaves every header and every other payload alone. */
    method WritePayload(payload: nat, i: nat, v: byte, ghost k: nat)
      requires Valid() && k < |blocks| && payload == blocks[k].at + HEADER && i < blocks[k].size
      modifies mem
      ensures Valid() && blocks == old(blocks) && index == old(index)
      ensures payload + i < mem.Length && mem[..] == old(mem[..])[payload + i := v]
      ensures forall j :: 0 <= j < |blocks| && j != k ==>
                && blocks[j].End() <= mem.Length
                && mem[blocks[j].at..blocks[j].End()] == old(mem[blocks[j].at..blocks[j].End()])
    {
      BlocksAreDisjoint(mem[..], 0, blocks, index, base + mem.Length);
      ghost var before := mem[..];
      mem[payload + i] := v;
      OnlyItsBlock(blocks, k, payload + i);
      LaidDependsOnHeaders(before, mem[..], 0, blocks, index, base + mem.Length);
      forall j | 0 <= j < |blocks| && j != k
        ensures mem[blocks[j].at..blocks[j].End()] == before[blocks[j].at..blocks[j].End()]
      {
        assert !(blocks[j].at <= payload + i < blocks[j].End());
      }
    }

    /** At every moment the walk over the bytes finds the allocations made so far, in order. */
    lemma WalkFindsAllocations()
      requires Valid()
      ensures Walk(mem[..], 0, index) == blocks
    {
      WalkVisitsBlocks(mem[..], 0, blocks, index, base + mem.Length);
    }
  }

  /** A byte of one block's payload lies in no header and in no other block. */
  lemma OnlyItsBlock(blocks: seq<Block>, k: nat, at: nat)
    requires forall i, j :: 0 <= i < j < |blocks| ==> blocks[i].End() <= blocks[j].at
    requires k < |blocks| && blocks[k].at + HEADER <= at < blocks[k].End()
    ensures forall j :: 0 <= j < |blocks| && j != k ==> !(blocks[j].at <= at < blocks[j].End())
    ensures !InHeader(blocks, at)
  {
    forall j | 0 <= j < |blocks| && j != k ensures !(blocks[j].at <= at < blocks[j].End()) {
      if j < k {
        assert blocks[j].End() <= blocks[k].at;
      } else {
        assert blocks[k].End() <= blocks[j].at;
      }
    }
  }

  /** The three stores of a header, seen together. */
  lemma HeaderIsWritten(
    before: seq<byte>, flagged: seq<byte>, sized: seq<byte>, after: seq<byte>, start: nat, size: u64, max: u64)
    requires start + HEADER <= |before| && flagged == before[start := 1]
    requires sized == flagged[..start + 1] + ToBytes(size, 8) + flagged[start + 9..]
    requires after == sized[..start + 9] + ToBytes(max, 8) + sized[start + 17..]
    ensures |after| == |before| && after[start] == 1
    ensures MetaOf(after, start) == size && MaxOf(after, start) == max
    ensures after[..start] == before[..start] && after[start + HEADER..] == before[start + HEADER..]
  {
    hide ToBytes;
    hide FromBytes;
    WordRoundTrip(size);
    WordRoundTrip(max);
    assert after[start + 1..start + 9] == ToBytes(size, 8);
    assert after[start + 9..start + 17] == ToBytes(max, 8);
  }
}
