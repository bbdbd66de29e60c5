/** The parameter buffer between iSCSIHBAInterface.c and iSCSIHBAUserClient.cpp: a header of 64-bit
    sizes followed by the values. */
module Packing {
  import opened Words
  import opened Hba

  /** A parameter whose size fits the header. */
  type Param = s: seq<byte> | |s| < 0x1_0000_0000_0000_0000

  const SIZE_BYTES: nat := 8

  // ----- sizes in memory -----

  /** The k bytes of n in little-endian memory. */
  function Little(n: nat, k: nat): (s: seq<byte>)
    ensures |s| == k
    decreases k, n
  {
    if k == 0 then [] else [n % 0x100] + Little(n / 0x100, k - 1)
  }

  function FromLittle(s: seq<byte>): nat {
    if s == [] then 0 else s[0] + 0x100 * FromLittle(s[1..])
  }

  lemma PowerOfBytes(k: nat)
    ensures Pow2(8 * (k + 1)) == 0x100 * Pow2(8 * k)
  {
    hide Pow2;
    Pow2Add(8 * k, 8);
    Pow2Values();
  }

  lemma {:induction false} FromLittleOfLittle(n: nat, k: nat)
    requires n < Pow2(8 * k)
    ensures FromLittle(Little(n, k)) == n
    decreases k
  {
    if k > 0 {
      PowerOfBytes(k - 1);
      hide Pow2;
      assert n / 0x100 < Pow2(8 * (k - 1));
      FromLittleOfLittle(n / 0x100, k - 1);
    }
  }

  function SizeField(n: u64): (s: seq<byte>)
    ensures |s| == SIZE_BYTES
  {
    Little(n, SIZE_BYTES)
  }

  lemma SizeFieldRoundTrip(n: u64)
    ensures FromLittle(SizeField(n)) == n
  {
    Pow2Values();
    Pow2Add(32, 32);
    FromLittleOfLittle(n, SIZE_BYTES);
  }

  /** The least significant byte of a size comes first. */
  lemma SizesAreLittleEndian()
    ensures SizeField(0x0807_0605_0403_0201) == [1, 2, 3, 4, 5, 6, 7, 8]
  {
    hide Little;
    LittleStep(0x0807_0605_0403_0201, 7);
    LittleStep(0x0807_0605_0403_02, 6);
    LittleStep(0x0807_0605_0403, 5);
    LittleStep(0x0807_0605_04, 4);
    LittleStep(0x0807_0605, 3);
    LittleStep(0x0807_06, 2);
    LittleStep(0x0807, 1);
    LittleStep(0x08, 0);
  }

  lemma LittleStep(n: nat, k: nat)
    ensures Little(n, k + 1) == [n % 0x100] + Little(n / 0x100, k)
  {}

  // ----- the packed form -----

  function Header(params: seq<Param>): (h: seq<byte>)
    ensures |h| == SIZE_BYTES * |params|
  {
    if params == [] then [] else Header(params[..|params| - 1]) + SizeField(|params[|params| - 1]|)
  }

  function Values(params: seq<Param>): seq<byte> {
    if params == [] then [] else Values(params[..|params| - 1]) + params[|params| - 1]
  }

  function Packed(params: seq<Param>): seq<byte> {
    Header(params) + Values(params)
  }

  lemma HeaderStep(params: seq<Param>, n: nat)
    requires n < |params|
    ensures Header(params[..n + 1]) == Header(params[..n]) + SizeField(|params[n]|)
    ensures Values(params[..n + 1]) == Values(params[..n]) + params[n]
  {
    assert params[..n + 1][..n] == params[..n];
  }

  /** Field n of the header is the size of parameter n. */
  lemma {:induction false} HeaderAt(params: seq<Param>, n: nat, m: nat)
    requires n < m <= |params|
    ensures Header(params[..m])[SIZE_BYTES * n..SIZE_BYTES * n + SIZE_BYTES] == SizeField(|params[n]|)
    decreases m
  {
    hide Header, Values, SizeField;
    HeaderStep(params, m - 1);
    if n == m - 1 {
      SliceOfSuffix(Header(params[..m - 1]), SizeField(|params[m - 1]|));
    } else {
      HeaderAt(params, n, m - 1);
      SliceOfPrefix(Header(params[..m - 1]), SizeField(|params[m - 1]|), SIZE_BYTES * n, SIZE_BYTES * n + SIZE_BYTES);
    }
  }

  lemma SliceOfPrefix(a: seq<byte>, b: seq<byte>, lo: nat, hi: nat)
    requires lo <= hi <= |a|
    ensures (a + b)[lo..hi] == a[lo..hi]
  {}

  lemma SliceOfSuffix(a: seq<byte>, b: seq<byte>)
    ensures (a + b)[|a|..|a| + |b|] == b
  {}

  /** Parameter n stands where the values before it end. */
  lemma {:induction false} ValueAt(params: seq<Param>, n: nat, m: nat)
    requires n < m <= |params|
    ensures
      var at := |Values(params[..n])|;
      at + |params[n]| <= |Values(params[..m])| && Values(params[..m])[at..at + |params[n]|] == params[n]
    decreases m
  {
    hide Header, Values, SizeField;
    HeaderStep(params, m - 1);
    if n == m - 1 {
      SliceOfSuffix(Values(params[..m - 1]), params[m - 1]);
    } else {
      ValueAt(params, n, m - 1);
      var at := |Values(params[..n])|;
      SliceOfPrefix(Values(params[..m - 1]), params[m - 1], at, at + |params[n]|);
    }
  }

  lemma PackedNothing()
    ensures Header([]) == [] && Values([]) == []
  {}

  lemma ValuesFit(params: seq<Param>, n: nat)
    requires n < |params|
    ensures |Values(params[..n])| + |params[n]| <= |Values(params)|
  {
    ValueAt(params, n, |params|);
    assert params[..|params|] == params;
  }

  // ----- packing -----

  /** memcpy into a buffer at a position. */
  method Copy(buf: array<byte>, at: nat, s: seq<byte>)
    requires at + |s| <= buf.Length
    modifies buf
    ensures buf[at..at + |s|] == s
    ensures buf[..at] == old(buf[..at]) && buf[at + |s|..] == old(buf[at + |s|..])
  {
    for i := 0 to |s|
      invariant buf[..at] == old(buf[..at]) && buf[at + |s|..] == old(buf[at + |s|..])
      invariant buf[at..at + i] == s[..i]
    {
      buf[at + i] := s[i];
    }
  }

  /** The pack loops of iSCSIHBAInterfaceCreateSession and iSCSIHBAInterfaceCreateConnection. */
  method Pack(params: seq<Param>) returns (inputStruct: array<byte>)
    ensures fresh(inputStruct) && inputStruct[..] == Packed(params)
  {
    hide Header, Values, SizeField;
    PackedNothing();
    var header := SIZE_BYTES * |params|;
    var inputStructSize := header;
    assert params[..0] == [];
    for idx := 0 to |params|
      invariant inputStructSize == header + |Values(params[..idx])|
    {
      HeaderStep(params, idx);
      inputStructSize := inputStructSize + |params[idx]|;
    }
    inputStruct := new byte[inputStructSize];
    var pos := header;
    assert params[..|params|] == params;
    for idx := 0 to |params|
      invariant pos == header + |Values(params[..idx])|
      invariant pos <= inputStructSize
      invariant inputStruct[..SIZE_BYTES * idx] == Header(params[..idx])
      invariant inputStruct[header..pos] == Values(params[..idx])
    {
      ValuesFit(params, idx);
      HeaderStep(params, idx);
      pos := PackOne(inputStruct, params[idx], idx, header, pos);
    }
    assert inputStruct[..] == inputStruct[..header] + inputStruct[header..];
  }

  /** One pass of the second loop: the value goes to pos, its size into header field idx. */
  method PackOne(buf: array<byte>, param: Param, idx: nat, header: nat, pos: nat) returns (next: nat)
    requires SIZE_BYTES * idx + SIZE_BYTES <= header <= pos && pos + |param| <= buf.Length
    modifies buf
    ensures next == pos + |param|
    ensures buf[..SIZE_BYTES * idx + SIZE_BYTES] == old(buf[..SIZE_BYTES * idx]) + SizeField(|param|)
    ensures buf[header..next] == old(buf[header..pos]) + param
  {
    hide SizeField;
    ghost var s0, lo := buf[..], SIZE_BYTES * idx;
    Copy(buf, pos, param);
    next := pos + |param|;
    ghost var s1 := buf[..];
    assert s1[..pos] == s0[..pos] && s1[pos..next] == param;
    Copy(buf, SIZE_BYTES * idx, SizeField(|param|));
    ghost var s2 := buf[..];
    assert s2[..lo] == s1[..lo] && s2[lo..lo + SIZE_BYTES] == SizeField(|param|);
    assert s2[lo + SIZE_BYTES..] == s1[lo + SIZE_BYTES..];
    PackedLow(s0, s1, s2, lo, pos, SizeField(|param|));
    PackedHigh(s0, s1, s2, lo + SIZE_BYTES, header, pos, param);
    assert buf[..lo + SIZE_BYTES] == s2[..lo + SIZE_BYTES] && buf[header..next] == s2[header..next];
    assert old(buf[..lo]) == s0[..lo] && old(buf[header..pos]) == s0[header..pos];
  }

  /** The header part of a buffer before the two copies, between them and after them. */
  lemma PackedLow(s0: seq<byte>, s1: seq<byte>, s2: seq<byte>, lo: nat, pos: nat, field: seq<byte>)
    requires lo + |field| <= pos <= |s0| == |s1| == |s2|
    requires s1[..pos] == s0[..pos] && s2[..lo] == s1[..lo] && s2[lo..lo + |field|] == field
    ensures s2[..lo + |field|] == s0[..lo] + field
  {
    LowerSlice(s1, s0, pos, 0, lo);
    Joined(s2, lo, lo + |field|);
  }

  /** Its value part. */
  lemma PackedHigh(s0: seq<byte>, s1: seq<byte>, s2: seq<byte>, hi: nat, header: nat, pos: nat, value: seq<byte>)
    requires hi <= header <= pos && pos + |value| <= |s0| == |s1| == |s2|
    requires s1[..pos] == s0[..pos] && s1[pos..pos + |value|] == value && s2[hi..] == s1[hi..]
    ensures s2[header..pos + |value|] == s0[header..pos] + value
  {
    var next := pos + |value|;
    UpperSlice(s2, s1, hi, header, next);
    LowerSlice(s1, s0, pos, header, pos);
    assert s1[header..next] == s1[header..pos] + s1[pos..next];
  }

  lemma Joined(s: seq<byte>, b: nat, c: nat)
    requires b <= c <= |s|
    ensures s[..c] == s[..b] + s[b..c]
  {}

  lemma LowerSlice(s: seq<byte>, t: seq<byte>, n: nat, a: nat, b: nat)
    requires a <= b <= n <= |s| && n <= |t| && s[..n] == t[..n]
    ensures s[a..b] == t[a..b] && s[..b] == t[..b]
  {
    forall i | 0 <= i < n
      ensures s[i] == t[i]
    {
      assert s[..n][i] == t[..n][i];
    }
  }

  lemma UpperSlice(s: seq<byte>, t: seq<byte>, n: nat, a: nat, b: nat)
    requires n <= a <= b <= |s| == |t| && s[n..] == t[n..]
    ensures s[a..b] == t[a..b]
  {
    forall i | n <= i < |s|
      ensures s[i] == t[i]
    {
      assert s[n..][i - n] == t[n..][i - n];
    }
  }

  // ----- unpacking -----

  datatype Unpacked = BadArgument | Unpacked(params: seq<nat>, paramSize: seq<nat>)

  /** Where parameter n starts, by the sizes in the header. */
  function Start(input: seq<byte>, numParams: nat, n: nat): nat
    requires n <= numParams && SIZE_BYTES * numParams <= |input|
  {
    if n == 0 then SIZE_BYTES * numParams else Start(input, numParams, n - 1) + Size(input, n - 1)
  }

  function Size(input: seq<byte>, n: nat): nat
    requires SIZE_BYTES * n + SIZE_BYTES <= |input|
  {
    FromLittle(input[SIZE_BYTES * n..SIZE_BYTES * n + SIZE_BYTES])
  }

  lemma StartAtHeader(input: seq<byte>, numParams: nat)
    requires SIZE_BYTES * numParams <= |input|
    ensures Start(input, numParams, 0) == SIZE_BYTES * numParams
  {}

  lemma StartSteps(input: seq<byte>, numParams: nat, n: nat)
    requires n < numParams && SIZE_BYTES * numParams <= |input|
    ensures Start(input, numParams, n + 1) == Start(input, numParams, n) + Size(input, n)
  {
    hide Size;
  }

  /** The unpack loops of CreateSession (six parameters or more) and CreateConnection (five or more):
      positions and sizes, without looking at the values. */
  method Unpack(input: seq<byte>, numParams: nat, expected: nat) returns (r: Unpacked)
    requires numParams >= expected ==> SIZE_BYTES * numParams <= |input|
    ensures r.BadArgument? <==> numParams < expected
    ensures r.Unpacked? ==>
      |r.params| == |r.paramSize| == numParams &&
      forall n :: 0 <= n < numParams ==> r.params[n] == Start(input, numParams, n) && r.paramSize[n] == Size(input, n)
  {
    hide Start, Size;
    if numParams < expected {
      return BadArgument;
    }
    var params, paramSize := [], [];
    var inputPos := SIZE_BYTES * numParams;
    assert inputPos == Start(input, numParams, 0) by {
      StartAtHeader(input, numParams);
    }
    for idx := 0 to numParams
      invariant |params| == |paramSize| == idx && inputPos == Start(input, numParams, idx)
      invariant forall n :: 0 <= n < idx ==> params[n] == Start(input, numParams, n) && paramSize[n] == Size(input, n)
    {
      StartSteps(input, numParams, idx);
      paramSize := paramSize + [Size(input, idx)];
      params := params + [inputPos];
      inputPos := inputPos + paramSize[idx];
    }
    r := Unpacked(params, paramSize);
  }

  lemma SizeInPacked(params: seq<Param>, n: nat)
    requires n < |params|
    ensures Size(Packed(params), n) == |params[n]|
  {
    hide SizeField, Header, Values, FromLittle;
    assert params[..|params|] == params;
    HeaderAt(params, n, |params|);
    SliceOfPrefix(Header(params), Values(params), SIZE_BYTES * n, SIZE_BYTES * n + SIZE_BYTES);
    SizeFieldRoundTrip(|params[n]|);
  }

  lemma {:induction false} StartOfPacked(params: seq<Param>, n: nat)
    requires n <= |params|
    ensures Start(Packed(params), |params|, n) == SIZE_BYTES * |params| + |Values(params[..n])|
    ensures n < |params| ==> Size(Packed(params), n) == |params[n]|
    decreases n
  {
    hide SizeField, Header, Values, Size, Start;
    if n < |params| {
      SizeInPacked(params, n);
    }
    if n == 0 {
      StartAtHeader(Packed(params), |params|);
      PackedNothing();
      assert params[..0] == [];
    } else {
      StartSteps(Packed(params), |params|, n - 1);
      StartOfPacked(params, n - 1);
      SizeInPacked(params, n - 1);
      HeaderStep(params, n - 1);
    }
  }

  /** For any number of parameters of any sizes, what unpacking points at is what was packed. */
  lemma PackingRoundTrip(params: seq<Param>, n: nat)
    requires n < |params|
    ensures
      var input := Packed(params);
      var at, size := Start(input, |params|, n), Size(input, n);
      at + size <= |input| && input[at..at + size] == params[n]
  {
    hide Header, Values, Start, Size;
    StartOfPacked(params, n);
    assert params[..|params|] == params;
    ValueAt(params, n, |params|);
    var at, header := |Values(params[..n])|, SIZE_BYTES * |params|;
    assert Packed(params)[header + at..header + at + |params[n]|] == Values(params)[at..at + |params[n]|];
  }
}
