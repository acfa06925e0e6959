/** IP addresses and prefixes at the level of bytes and bits, as `netip` and the management
    allocator handle them: bit 0 is the most significant bit of the first byte.
  */
module Addresses {

  type Byte = bv8

  /** `1 << (7 - k)`: the mask of bit `k` of a byte. */
  function Mask(k: nat): Byte
    requires k < 8
  {
    if k == 0 then 0x80 else if k == 1 then 0x40 else if k == 2 then 0x20 else if k == 3 then 0x10
    else if k == 4 then 0x08 else if k == 5 then 0x04 else if k == 6 then 0x02 else 0x01
  }

  predicate BitOf(b: Byte, k: nat)
    requires k < 8
  {
    b & Mask(k) != 0
  }

  function WithBit(b: Byte, k: nat, v: bool): Byte
    requires k < 8
  {
    if v then b | Mask(k) else b & !Mask(k)
  }

  lemma BitOfWithBit(b: Byte, k: nat, v: bool, j: nat)
    requires k < 8 && j < 8
    ensures BitOf(WithBit(b, k, v), j) == if j == k then v else BitOf(b, j)
  {
  }

  lemma SameBitsSameByte(a: Byte, b: Byte)
    requires BitOf(a, 0) == BitOf(b, 0) && BitOf(a, 1) == BitOf(b, 1)
    requires BitOf(a, 2) == BitOf(b, 2) && BitOf(a, 3) == BitOf(b, 3)
    requires BitOf(a, 4) == BitOf(b, 4) && BitOf(a, 5) == BitOf(b, 5)
    requires BitOf(a, 6) == BitOf(b, 6) && BitOf(a, 7) == BitOf(b, 7)
    ensures a == b
  {
  }

  // ---------------------------------------------------------------- byte strings

  predicate Bit(bytes: seq<Byte>, i: nat)
    requires i < 8 * |bytes|
  {
    BitOf(bytes[i / 8], i % 8)
  }

  function SetBit(bytes: seq<Byte>, i: nat, v: bool): seq<Byte>
    requires i < 8 * |bytes|
  {
    bytes[i / 8 := WithBit(bytes[i / 8], i % 8, v)]
  }

  lemma BitOfSetBit(bytes: seq<Byte>, i: nat, v: bool, j: nat)
    requires i < 8 * |bytes| && j < 8 * |bytes|
    ensures Bit(SetBit(bytes, i, v), j) == if j == i then v else Bit(bytes, j)
  {
    if i / 8 == j / 8 {
      BitOfWithBit(bytes[i / 8], i % 8, v, j % 8);
    }
  }

  lemma BitInByte(bytes: seq<Byte>, n: nat, k: nat)
    requires n < |bytes| && k < 8
    ensures Bit(bytes, 8 * n + k) == BitOf(bytes[n], k)
  {
    assert (8 * n + k) / 8 == n && (8 * n + k) % 8 == k;
  }

  ghost predicate SameBits(a: seq<Byte>, b: seq<Byte>) {
    |a| == |b| && forall i: nat :: i < 8 * |a| ==> Bit(a, i) == Bit(b, i)
  }

  lemma SameBitsSameBytes(a: seq<Byte>, b: seq<Byte>)
    requires SameBits(a, b)
    ensures a == b
  {
    forall n | 0 <= n < |a| ensures a[n] == b[n] {
      SameBitsAt(a, b, n);
    }
  }

  lemma SameBitsAt(a: seq<Byte>, b: seq<Byte>, n: nat)
    requires SameBits(a, b) && n < |a|
    ensures a[n] == b[n]
  {
    forall k: nat | k < 8 ensures BitOf(a[n], k) == BitOf(b[n], k) {
      BitInByte(a, n, k);
      BitInByte(b, n, k);
      assert Bit(a, 8 * n + k) == Bit(b, 8 * n + k);
    }
    SameBitsSameByte(a[n], b[n]);
  }

  /** Bits `from` up to `end` replaced by the pattern, one after the other. */
  function Overwrite(bytes: seq<Byte>, from: nat, end: nat, pattern: nat -> bool): (r: seq<Byte>)
    requires from <= end <= 8 * |bytes|
    ensures |r| == |bytes|
    decreases end - from
  {
    if from == end then bytes
    else SetBit(Overwrite(bytes, from, end - 1, pattern), end - 1, pattern(end - 1))
  }

  lemma {:induction false} BitOfOverwrite(bytes: seq<Byte>, from: nat, end: nat, pattern: nat -> bool, i: nat)
    requires from <= end <= 8 * |bytes| && i < 8 * |bytes|
    ensures Bit(Overwrite(bytes, from, end, pattern), i) ==
              (if from <= i < end then pattern(i) else Bit(bytes, i))
    decreases end - from
  {
    if from < end {
      BitOfOverwrite(bytes, from, end - 1, pattern, i);
      BitOfSetBit(Overwrite(bytes, from, end - 1, pattern), end - 1, pattern(end - 1), i);
    }
  }

  // ---------------------------------------------------------------- addresses and prefixes

  function BitLen(v4: bool): nat { if v4 then 32 else 128 }

  datatype RawAddr = RawAddr(v4: bool, bytes: seq<Byte>, zone: string)

  type Addr = a: RawAddr | 8 * |a.bytes| == BitLen(a.v4) witness RawAddr(true, [0, 0, 0, 0], "")

  datatype RawPrefix = RawPrefix(addr: Addr, bits: nat)

  type Prefix = p: RawPrefix | p.bits <= BitLen(p.addr.v4) witness RawPrefix(RawAddr(true, [0, 0, 0, 0], ""), 0)

  /** `netip.Prefix.Contains`: same family, no zone, and the same leading bits. */
  predicate Contains(p: Prefix, a: Addr) {
    && a.v4 == p.addr.v4 && a.zone == ""
    && forall i: nat | i < p.bits :: Bit(a.bytes, i) == Bit(p.addr.bytes, i)
  }

  /** The address with the host bits of `p` set from the pattern. */
  function HostBits(p: Prefix, pattern: nat -> bool): (a: Addr)
    ensures a.v4 == p.addr.v4 && a.zone == ""
  {
    RawAddr(p.addr.v4, Overwrite(p.addr.bytes, p.bits, BitLen(p.addr.v4), pattern), "")
  }

  const Zeros: nat -> bool := _ => false

  const Ones: nat -> bool := _ => true

  function First(p: Prefix): Addr { HostBits(p, Zeros) }

  function Last(p: Prefix): Addr { HostBits(p, Ones) }

  function Masked(p: Prefix): Prefix { RawPrefix(First(p), p.bits) }

  /** An address of the family of `p` is fixed by its bits. */
  lemma SameBitsSameAddr(a: Addr, b: Addr)
    requires a.v4 == b.v4 && a.zone == b.zone
    requires forall i: nat :: i < BitLen(a.v4) ==> Bit(a.bytes, i) == Bit(b.bytes, i)
    ensures a == b
  {
    SameBitsSameBytes(a.bytes, b.bytes);
  }

  lemma BitOfHostBits(p: Prefix, pattern: nat -> bool, i: nat)
    requires i < BitLen(p.addr.v4)
    ensures Bit(HostBits(p, pattern).bytes, i) == if i < p.bits then Bit(p.addr.bytes, i) else pattern(i)
  {
    BitOfOverwrite(p.addr.bytes, p.bits, BitLen(p.addr.v4), pattern, i);
  }

  lemma HostBitsContained(p: Prefix, pattern: nat -> bool)
    ensures Contains(p, HostBits(p, pattern))
  {
    forall i: nat | i < p.bits ensures Bit(HostBits(p, pattern).bytes, i) == Bit(p.addr.bytes, i) {
      BitOfHostBits(p, pattern, i);
    }
  }

  /** Masking clears host bits only, so it changes neither the set of members nor the ends. */
  lemma MaskedSame(p: Prefix)
    ensures forall a: Addr :: Contains(Masked(p), a) <==> Contains(p, a)
    ensures First(Masked(p)) == First(p) && Last(Masked(p)) == Last(p)
  {
    HostBitsContained(p, Zeros);
    HostBitsSame(Masked(p), p, Zeros);
    HostBitsSame(Masked(p), p, Ones);
  }

  lemma HostBitsSame(p: Prefix, q: Prefix, pattern: nat -> bool)
    requires p.bits == q.bits && p.addr.v4 == q.addr.v4
    requires forall i: nat :: i < p.bits ==> Bit(p.addr.bytes, i) == Bit(q.addr.bytes, i)
    ensures HostBits(p, pattern) == HostBits(q, pattern)
  {
    var a, b := HostBits(p, pattern), HostBits(q, pattern);
    forall i: nat | i < BitLen(a.v4) ensures Bit(a.bytes, i) == Bit(b.bytes, i) {
      BitOfHostBits(p, pattern, i);
      BitOfHostBits(q, pattern, i);
    }
    SameBitsSameAddr(a, b);
  }

  /** `inner` is a range within `outer`. */
  predicate Nested(inner: Prefix, outer: Prefix) {
    outer.bits <= inner.bits && Contains(outer, First(inner))
  }

  /** Membership in a nested range implies membership in the subnet. */
  lemma NestedContains(inner: Prefix, outer: Prefix, a: Addr)
    requires Nested(inner, outer) && Contains(inner, a)
    ensures Contains(outer, a)
  {
    forall i: nat | i < outer.bits ensures Bit(a.bytes, i) == Bit(outer.addr.bytes, i) {
      BitOfHostBits(inner, Zeros, i);
    }
  }

  /** The subnet's first and last addresses are in a nested range only as its own first and last. */
  lemma NestedEnds(inner: Prefix, outer: Prefix, pattern: nat -> bool)
    requires Nested(inner, outer) && Contains(inner, HostBits(outer, pattern))
    requires forall i: nat, j: nat :: pattern(i) == pattern(j)
    ensures HostBits(inner, pattern) == HostBits(outer, pattern)
  {
    var a, b := HostBits(inner, pattern), HostBits(outer, pattern);
    forall i: nat | i < BitLen(a.v4) ensures Bit(a.bytes, i) == Bit(b.bytes, i) {
      BitOfHostBits(inner, pattern, i);
      BitOfHostBits(outer, pattern, i);
    }
    SameBitsSameAddr(a, b);
  }

  // ---------------------------------------------------------------- the loops over bits

  /** A SHA-256 digest. */
  type Digest = d: seq<Byte> | |d| == 32 witness seq(32, _ => 0)

  predicate DigestBit(digest: Digest, i: int) {
    0 <= i < 256 && Bit(digest, i)
  }

  method CopyHashBit(destination: array<Byte>, digest: Digest, destinationBit: nat, digestBit: nat)
    requires destinationBit < 8 * destination.Length && digestBit < 256
    modifies destination
    ensures destination[..] == SetBit(old(destination[..]), destinationBit, Bit(digest, digestBit))
  {
    var destinationMask := Mask(destinationBit % 8);
    var digestMask := Mask(digestBit % 8);
    if digest[digestBit / 8] & digestMask != 0 {
      destination[destinationBit / 8] := destination[destinationBit / 8] | destinationMask;
    } else {
      destination[destinationBit / 8] := destination[destinationBit / 8] & !destinationMask;
    }
  }

  function DigestFrom(digest: Digest, start: nat): nat -> bool {
    i => DigestBit(digest, i - start)
  }

  lemma DigestFromAt(digest: Digest, start: nat, i: nat)
    requires start <= i < start + 256
    ensures DigestFrom(digest, start)(i) == Bit(digest, i - start)
  {
    assert DigestBit(digest, i - start) == Bit(digest, i - start);
    var f := DigestFrom(digest, start);
    assert f(i) == DigestBit(digest, i - start);
  }

  /** The prefix with its host bits taken from the digest. */
  function Hashed(p: Prefix, digest: Digest): Addr {
    HostBits(p, DigestFrom(digest, p.bits))
  }

  /** Bit by bit: the network bits of the prefix, then the digest from its first bit on. */
  lemma HashedBits(p: Prefix, digest: Digest, i: nat)
    requires i < BitLen(p.addr.v4)
    ensures Bit(Hashed(p, digest).bytes, i) ==
              if i < p.bits then Bit(p.addr.bytes, i) else Bit(digest, i - p.bits)
  {
    BitOfHostBits(p, DigestFrom(digest, p.bits), i);
    if p.bits <= i { DigestFromAt(digest, p.bits, i); }
  }

  method HashedPrefixAddress(p: Prefix, digest: Digest) returns (a: Addr)
    ensures a == Hashed(p, digest)
  {
    var width := BitLen(p.addr.v4);
    var start := First(p).bytes;
    var value := new Byte[|start|](i requires 0 <= i < |start| => start[i]);
    assert value[..] == start;
    ghost var pattern := DigestFrom(digest, p.bits);
    for bit := p.bits to width
      invariant value[..] == Overwrite(start, p.bits, bit, pattern)
    {
      DigestFromAt(digest, p.bits, bit);
      CopyHashBit(value, digest, bit, bit - p.bits);
      assert Overwrite(start, p.bits, bit + 1, pattern) ==
        SetBit(Overwrite(start, p.bits, bit, pattern), bit, pattern(bit));
    }
    a := RawAddr(p.addr.v4, value[..], "");
    OverwriteMasked(p, pattern);
  }

  /** Whether the host bits were cleared first makes no difference. */
  lemma OverwriteMasked(p: Prefix, pattern: nat -> bool)
    ensures Overwrite(First(p).bytes, p.bits, BitLen(p.addr.v4), pattern) == HostBits(p, pattern).bytes
  {
    HostBitsContained(p, Zeros);
    HostBitsSame(Masked(p), p, pattern);
  }

  method LastPrefixAddress(p: Prefix) returns (a: Addr)
    ensures a == Last(p)
  {
    var width := BitLen(p.addr.v4);
    var start := First(p).bytes;
    var value := new Byte[|start|](i requires 0 <= i < |start| => start[i]);
    assert value[..] == start;
    ghost var pattern := Ones;
    for bit := p.bits to width
      invariant value[..] == Overwrite(start, p.bits, bit, pattern)
    {
      value[bit / 8] := value[bit / 8] | Mask(bit % 8);
      assert value[..] == SetBit(Overwrite(start, p.bits, bit, pattern), bit, true);
    }
    a := RawAddr(p.addr.v4, value[..], "");
    OverwriteMasked(p, pattern);
  }

  /** The ends of a range bit by bit: the network bits, then all zeros or all ones. */
  lemma EndBits(p: Prefix, i: nat)
    requires i < BitLen(p.addr.v4)
    ensures Bit(First(p).bytes, i) == (i < p.bits && Bit(p.addr.bytes, i))
    ensures Bit(Last(p).bytes, i) == (i < p.bits ==> Bit(p.addr.bytes, i))
  {
    BitOfHostBits(p, Zeros, i);
    BitOfHostBits(p, Ones, i);
  }

  /** A hashed address lies in the range, whatever the digest. */
  lemma HashedContained(p: Prefix, digest: Digest)
    ensures Contains(p, Hashed(p, digest))
  {
    HostBitsContained(p, DigestFrom(digest, p.bits));
  }

  // ---------------------------------------------------------------- the next address

  /** `netip.Addr.Next` on bytes: one more, or nothing after the last address. */
  function Increment(bytes: seq<Byte>): (r: seq<Byte>)
    ensures |r| == 0 || |r| == |bytes|
    decreases |bytes|
  {
    if |bytes| == 0 then []
    else
      var n := |bytes| - 1;
      if bytes[n] != 0xff then bytes[n := bytes[n] + 1]
      else
        var rest := Increment(bytes[..n]);
        if |rest| == 0 then [] else rest + [0]
  }

  function Following(a: Addr): (r: seq<Addr>)
    ensures |r| <= 1 && (|r| == 1 ==> r[0].v4 == a.v4)
  {
    var bytes := Increment(a.bytes);
    if |bytes| == 0 then [] else [RawAddr(a.v4, bytes, a.zone)]
  }

  lemma OddByte(b: Byte)
    requires !BitOf(b, 7)
    ensures b != 0xff && b + 1 == WithBit(b, 7, true)
  {
    assert b & 1 == 0;
    assert b + 1 == b | 1;
  }

  /** The first usable address of a subnet is one past its first, and in the subnet exactly if
      the subnet has more than one address. */
  lemma FirstUsableContained(p: Prefix)
    ensures p.bits < BitLen(p.addr.v4) ==> |Following(First(p))| == 1 && Contains(p, Following(First(p))[0])
    ensures p.bits < BitLen(p.addr.v4) ==> Following(First(p))[0] != First(p)
    ensures p.bits == BitLen(p.addr.v4) ==> forall a :: a in Following(First(p)) ==> !Contains(p, a)
  {
    var first, width := First(p), BitLen(p.addr.v4);
    if p.bits < width {
      BitOfHostBits(p, Zeros, width - 1);
      var n := |first.bytes| - 1;
      BitInByte(first.bytes, n, 7);
      OddByte(first.bytes[n]);
      assert Increment(first.bytes) == SetBit(first.bytes, width - 1, true);
      var next := Following(first)[0];
      forall i: nat | i < p.bits ensures Bit(next.bytes, i) == Bit(p.addr.bytes, i) {
        BitOfSetBit(first.bytes, width - 1, true, i);
        BitOfHostBits(p, Zeros, i);
      }
      BitOfSetBit(first.bytes, width - 1, true, width - 1);
    } else {
      forall a | a in Following(first) ensures !Contains(p, a) {
        if Contains(p, a) {
          HostBitsContained(p, Zeros);
          SameBitsSameAddr(a, first);
          IncrementDiffers(first.bytes);
        }
      }
    }
  }

  /** The first usable address bit by bit: the network bits, zeros, and a one at the end. */
  lemma FirstUsableBits(p: Prefix, i: nat)
    requires p.bits < BitLen(p.addr.v4) && i < BitLen(p.addr.v4)
    ensures |Following(First(p))| == 1 && Following(First(p))[0].zone == ""
    ensures Bit(Following(First(p))[0].bytes, i) ==
              if i < p.bits then Bit(p.addr.bytes, i) else i == BitLen(p.addr.v4) - 1
  {
    var first, width := First(p), BitLen(p.addr.v4);
    BitOfHostBits(p, Zeros, width - 1);
    BitOfHostBits(p, Zeros, i);
    var n := |first.bytes| - 1;
    BitInByte(first.bytes, n, 7);
    OddByte(first.bytes[n]);
    assert Increment(first.bytes) == SetBit(first.bytes, width - 1, true);
    BitOfSetBit(first.bytes, width - 1, true, i);
  }

  lemma {:induction false} IncrementDiffers(bytes: seq<Byte>)
    ensures |bytes| > 0 ==> Increment(bytes) != bytes
    decreases |bytes|
  {
    if |bytes| > 0 {
      var n := |bytes| - 1;
      if bytes[n] != 0xff {
        ByteMoves(bytes[n]);
        assert bytes[n := bytes[n] + 1][n] != bytes[n];
      } else {
        assert |Increment(bytes)| > 0 ==> Increment(bytes)[n] == 0;
      }
    }
  }

  lemma ByteMoves(b: Byte)
    ensures b + 1 != b
  {
  }
}
