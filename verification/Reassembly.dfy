/** Data at offsets of a transfer: pieces, memories they are written to, and ranges they cover. */
module Reassembly {
  import opened Words

  /** IOMemoryDescriptor::writeBytes: bytes beyond the end of the buffer are dropped. */
  function WriteBytes(buffer: seq<byte>, offset: nat, data: seq<byte>): (r: seq<byte>)
    ensures |r| == |buffer|
    ensures forall i :: 0 <= i < |buffer| ==>
      r[i] == if offset <= i < offset + |data| then data[i - offset] else buffer[i]
  {
    seq(|buffer|, i requires 0 <= i < |buffer| =>
      if offset <= i < offset + |data| then data[i - offset] else buffer[i])
  }

  // ----- pieces -----

  /** Data at an offset of the transfer. */
  datatype Piece = Piece(offset: nat, data: seq<byte>)

  function Holds(p: Piece, i: nat): nat {
    if p.offset <= i < p.offset + |p.data| then 1 else 0
  }

  /** How many of the pieces carry byte i. */
  function Copies(ps: seq<Piece>, i: nat): nat {
    if ps == [] then 0 else Holds(ps[0], i) + Copies(ps[1..], i)
  }

  /** The target writes each piece at its offset. */
  function Reassemble(memory: seq<byte>, ps: seq<Piece>): (r: seq<byte>)
    ensures |r| == |memory|
    decreases |ps|
  {
    if ps == [] then memory else Reassemble(WriteBytes(memory, ps[0].offset, ps[0].data), ps[1..])
  }

  /** p is a slice of the buffer at its own place. */
  ghost predicate SliceOf(p: Piece, buffer: seq<byte>) {
    p.offset + |p.data| <= |buffer| && p.data == buffer[p.offset..p.offset + |p.data|]
  }

  lemma {:induction false} ReassembledByte(memory: seq<byte>, ps: seq<Piece>, buffer: seq<byte>, i: nat)
    requires |memory| == |buffer| && i < |buffer|
    requires forall p :: p in ps ==> SliceOf(p, buffer)
    requires Copies(ps, i) > 0 || memory[i] == buffer[i]
    ensures Reassemble(memory, ps)[i] == buffer[i]
    decreases |ps|
  {
    if ps != [] {
      assert ps[0] in ps && SliceOf(ps[0], buffer);
      ReassembledByte(WriteBytes(memory, ps[0].offset, ps[0].data), ps[1..], buffer, i);
    }
  }

  /** Slices that together carry every byte rebuild the buffer in any memory. */
  lemma Reassembled(memory: seq<byte>, ps: seq<Piece>, buffer: seq<byte>)
    requires |memory| == |buffer|
    requires forall p :: p in ps ==> SliceOf(p, buffer)
    requires forall i :: 0 <= i < |buffer| ==> Copies(ps, i) > 0
    ensures Reassemble(memory, ps) == buffer
  {
    forall i | 0 <= i < |buffer|
      ensures Reassemble(memory, ps)[i] == buffer[i]
    {
      ReassembledByte(memory, ps, buffer, i);
    }
  }

  lemma {:induction false} CopiesAppend(a: seq<Piece>, b: seq<Piece>, i: nat)
    ensures Copies(a + b, i) == Copies(a, i) + Copies(b, i)
    decreases |a|
  {
    if a == [] {
      assert a + b == b;
    } else {
      assert (a + b)[1..] == a[1..] + b;
      CopiesAppend(a[1..], b, i);
    }
  }

  // ----- ranges -----

  datatype Range = Range(offset: nat, length: nat)

  /** How often byte i is asked for. */
  function Wanted(rs: seq<Range>, i: nat): nat {
    if rs == [] then 0
    else (if rs[0].offset <= i < rs[0].offset + rs[0].length then 1 else 0) + Wanted(rs[1..], i)
  }

  function Length(rs: seq<Range>): nat {
    if rs == [] then 0 else rs[0].length + Length(rs[1..])
  }

  /** The ranges cover lo .. hi - 1 once and nothing else, in any order and in pieces of any size. */
  ghost predicate Tiles(rs: seq<Range>, lo: nat, hi: nat) {
    (forall r :: r in rs ==> r.offset + r.length <= hi) &&
    forall i: nat :: Wanted(rs, i) == if lo <= i < hi then 1 else 0
  }

  lemma {:induction false} WantedAppend(a: seq<Range>, b: seq<Range>, i: nat)
    ensures Wanted(a + b, i) == Wanted(a, i) + Wanted(b, i)
    decreases |a|
  {
    if a == [] {
      assert a + b == b;
    } else {
      assert (a + b)[1..] == a[1..] + b;
      WantedAppend(a[1..], b, i);
    }
  }

  lemma {:induction false} LengthAppend(a: seq<Range>, b: seq<Range>)
    ensures Length(a + b) == Length(a) + Length(b)
    decreases |a|
  {
    if a == [] {
      assert a + b == b;
    } else {
      assert (a + b)[1..] == a[1..] + b;
      LengthAppend(a[1..], b);
    }
  }

  lemma OneRange(r: Range, i: nat)
    ensures Wanted([r], i) == if r.offset <= i < r.offset + r.length then 1 else 0
    ensures Length([r]) == r.length
  {
    assert Wanted([r], i) == (if r.offset <= i < r.offset + r.length then 1 else 0) + Wanted([], i);
    assert Length([r]) == r.length + Length([]);
  }

  /** The bytes below n that are wanted, counted one by one. */
  function WantedBelow(rs: seq<Range>, n: nat): nat {
    if n == 0 then 0 else WantedBelow(rs, n - 1) + Wanted(rs, n - 1)
  }

  function Overlap(r: Range, n: nat): nat {
    if n <= r.offset then 0 else if n < r.offset + r.length then n - r.offset else r.length
  }

  lemma {:induction false} WantedBelowStep(rs: seq<Range>, n: nat)
    requires rs != []
    ensures WantedBelow(rs, n) == Overlap(rs[0], n) + WantedBelow(rs[1..], n)
    decreases n
  {
    if n > 0 {
      WantedBelowStep(rs, n - 1);
    }
  }

  lemma {:induction false} NothingWanted(n: nat)
    ensures WantedBelow([], n) == 0
    decreases n
  {
    if n > 0 {
      NothingWanted(n - 1);
    }
  }

  /** Counting by bytes and counting by ranges agree. */
  lemma {:induction false} WantedBothWays(rs: seq<Range>, n: nat)
    requires forall r :: r in rs ==> r.offset + r.length <= n
    ensures WantedBelow(rs, n) == Length(rs)
    decreases |rs|
  {
    if rs == [] {
      NothingWanted(n);
    } else {
      assert rs[0] in rs;
      WantedBelowStep(rs, n);
      WantedBothWays(rs[1..], n);
    }
  }

  lemma {:induction false} TiledBelow(rs: seq<Range>, lo: nat, hi: nat, n: nat)
    requires Tiles(rs, lo, hi) && lo <= hi && n <= hi
    ensures WantedBelow(rs, n) == if n <= lo then 0 else n - lo
    decreases n
  {
    if n > 0 {
      TiledBelow(rs, lo, hi, n - 1);
    }
  }

  /** Ranges that tile an interval have its length in total. */
  lemma TilesLength(rs: seq<Range>, lo: nat, hi: nat)
    requires Tiles(rs, lo, hi) && lo <= hi
    ensures Length(rs) == hi - lo
  {
    TiledBelow(rs, lo, hi, hi);
    WantedBothWays(rs, hi);
  }

  /** The pieces are slices of the buffer and carry each byte as often as the ranges want it. */
  ghost predicate Delivers(ps: seq<Piece>, buffer: seq<byte>, rs: seq<Range>) {
    (forall p :: p in ps ==> SliceOf(p, buffer)) && forall i: nat :: Copies(ps, i) == Wanted(rs, i)
  }

  lemma DeliversMore(a: seq<Piece>, b: seq<Piece>, buffer: seq<byte>, r: seq<Range>, s: seq<Range>)
    requires Delivers(a, buffer, r) && Delivers(b, buffer, s)
    ensures Delivers(a + b, buffer, r + s)
  {
    hide Copies, Wanted;
    forall i: nat
      ensures Copies(a + b, i) == Wanted(r + s, i)
    {
      CopiesAppend(a, b, i);
      WantedAppend(r, s, i);
    }
  }
}
