/** CIDR prefix comparison of two raw addresses (section 3.1 of RFC 4632):
    `IsMatch` compares the top `netmask` bits, most significant bit first. */
module PrefixMatch {
  import opened Outcome

  /** The mask that isolates bit `k` of a byte, counting from the most
      significant bit. */
  function BitMask(k: nat): bv8
    requires k < 8
  {
    if k == 0 then 0x80 else if k == 1 then 0x40 else if k == 2 then 0x20 else if k == 3 then 0x10
    else if k == 4 then 0x08 else if k == 5 then 0x04 else if k == 6 then 0x02 else 0x01
  }

  /** Bit `i` of the address `s`, counting from the most significant bit of `s[0]`. */
  predicate BitSet(s: seq<bv8>, i: nat)
    requires i < 8 * |s|
  {
    s[i / 8] & BitMask(i % 8) != 0
  }

  function Min(a: int, b: int): int
  {
    if a <= b then a else b
  }

  /** The number of bits both addresses have. */
  function CommonWidth(a: seq<bv8>, b: seq<bv8>): nat
  {
    8 * Min(|a|, |b|)
  }

  /** The top `n` bits of `a` and `b` exist and agree. */
  predicate AgreeUpTo(a: seq<bv8>, b: seq<bv8>, n: int)
  {
    0 <= n <= CommonWidth(a, b) &&
    forall i :: 0 <= i < n ==> BitSet(a, i) == BitSet(b, i)
  }

  /** What `isMatch` returns or throws. It reads byte 0 of both addresses
      before looking at `netmask`, and reloads the next byte of both each
      time eight more bits have agreed; a prefix that agrees over every bit
      of the shorter address, with `netmask` reaching that far, reads one
      byte past its end. Otherwise the answer is whether the top `netmask`
      bits agree (a negative `netmask` never matches). */
  function MatchOutcome(a: seq<bv8>, b: seq<bv8>, netmask: int): Result<bool>
  {
    if |a| == 0 || |b| == 0 then Err(IndexOutOfBounds)
    else if netmask >= CommonWidth(a, b) && AgreeUpTo(a, b, CommonWidth(a, b)) then Err(IndexOutOfBounds)
    else Ok(AgreeUpTo(a, b, netmask))
  }

  /** Comparing the masked bytes, as the loop does, compares bit `bit` of
      byte `idx`. */
  lemma CompareBit(a: seq<bv8>, b: seq<bv8>, idx: nat, bit: nat)
    requires idx < |a| && idx < |b| && bit < 8
    ensures 8 * idx + bit < CommonWidth(a, b)
    ensures SameMasked(a[idx], b[idx], BitMask(bit)) == (BitSet(a, 8 * idx + bit) == BitSet(b, 8 * idx + bit))
  {
    var i := 8 * idx + bit;
    assert i / 8 == idx && i % 8 == bit;
    var x, y := a[idx], b[idx];
    assert ((x & BitMask(bit)) == (y & BitMask(bit))) == ((x & BitMask(bit) != 0) == (y & BitMask(bit) != 0));
  }

  /** The bit counter `8 * idx + bit`, after going up by one, is a multiple
      of 8 exactly when it has left the last bit of the byte. */
  lemma CountStep(idx: nat, bit: nat)
    requires bit < 8
    ensures var c := 8 * idx + bit + 1;
      (c % 8 == 0 <==> bit == 7) && (bit == 7 ==> c / 8 == idx + 1)
  {
  }

  /** The value of `bmask` while the loop looks at bit `k` of a byte. */
  function MaskValue(k: nat): int
    requires k < 8
  {
    if k == 0 then 128 else if k == 1 then 64 else if k == 2 then 32 else if k == 3 then 16
    else if k == 4 then 8 else if k == 5 then 4 else if k == 6 then 2 else 1
  }

  /** Halving the mask value, as the loop does, moves to the next lower
      bit, and the byte cast of the halved value is that bit's mask. */
  lemma MaskHalves(k: nat)
    requires k < 7
    ensures MaskValue(k) / 2 == MaskValue(k + 1)
    ensures (MaskValue(k) / 2) as bv8 == BitMask(k + 1)
  {
  }

  /** The loop's test: `x` and `y` agree under the mask `m`. */
  predicate SameMasked(x: bv8, y: bv8, m: bv8)
  {
    (x & m) == (y & m)
  }

  lemma AgreeExtends(a: seq<bv8>, b: seq<bv8>, n: nat)
    requires AgreeUpTo(a, b, n) && n < CommonWidth(a, b)
    requires BitSet(a, n) == BitSet(b, n)
    ensures AgreeUpTo(a, b, n + 1)
  {
  }

  lemma DisagreeBeyond(a: seq<bv8>, b: seq<bv8>, n: nat, m: int)
    requires n < CommonWidth(a, b) && BitSet(a, n) != BitSet(b, n)
    requires n < m
    ensures !AgreeUpTo(a, b, m)
  {
  }

  /** The two library calls the matcher depends on: `InetAddress.getByName`
      (text to raw address bytes; `None` where it throws) and, for the TXT
      text, `DNSRdataAddress.toString` (address bytes to text). */
  datatype HostEnv = HostEnv(parse: string -> Option<seq<bv8>>, render: seq<bv8> -> string)

  /** What `isMatch` returns or throws for two address texts. */
  function IsMatchOutcome(env: HostEnv, networkAddress: string, resolvedIp: string, netmask: int): Result<bool>
  {
    match env.parse(networkAddress)
    case None => Err(UnknownHost)
    case Some(a) =>
      match env.parse(resolvedIp)
      case None => Err(UnknownHost)
      case Some(b) => MatchOutcome(a, b, netmask)
  }

  /** `isMatch`. Java widens both bytes and the mask to int with sign
      extension before `&`; for a one-bit mask that gives equal results
      exactly when the two bits are equal, as on bytes. */
  method IsMatch(env: HostEnv, networkAddress: string, resolvedIp: string, netmask: int) returns (r: Result<bool>)
    ensures r == IsMatchOutcome(env, networkAddress, resolvedIp, netmask)
  {
    var networkAddr := env.parse(networkAddress);
    if networkAddr.None? {
      return Err(UnknownHost);
    }
    var resAddr := env.parse(resolvedIp);
    if resAddr.None? {
      return Err(UnknownHost);
    }
    r := CompareBits(networkAddr.value, resAddr.value, netmask);
  }

  /** The bit loop of `isMatch`, on the two raw addresses. The ghost
      variables `idx` and `bit` are `count / 8` and `count % 8`. */
  method CompareBits(networkAddBytes: seq<bv8>, resAddBytes: seq<bv8>, netmask: int) returns (r: Result<bool>)
    ensures r == MatchOutcome(networkAddBytes, resAddBytes, netmask)
  {
    var count := 0;
    if |networkAddBytes| == 0 || |resAddBytes| == 0 {
      return Err(IndexOutOfBounds);
    }
    var check1 := networkAddBytes[count / 8];
    var check2 := resAddBytes[count / 8];
    var bmask := 128;
    var bitmask := bmask as bv8;
    ghost var idx, bit := 0, 0;
    while count < netmask
      invariant idx < |networkAddBytes| && idx < |resAddBytes| && bit < 8 && count == 8 * idx + bit
      invariant netmask >= 0 ==> count <= netmask
      invariant netmask < 0 ==> count == 0
      invariant check1 == networkAddBytes[idx] && check2 == resAddBytes[idx]
      invariant bitmask == BitMask(bit) && bmask == MaskValue(bit)
      invariant AgreeUpTo(networkAddBytes, resAddBytes, count)
    {
      CompareBit(networkAddBytes, resAddBytes, idx, bit);
      if SameMasked(check1, check2, bitmask) {
        AgreeExtends(networkAddBytes, resAddBytes, count);
        CountStep(idx, bit);
        count := count + 1;
        if count % 8 == 0 {
          bmask := 128;
          bitmask := bmask as bv8;
          idx, bit := idx + 1, 0;
          if count / 8 >= |networkAddBytes| || count / 8 >= |resAddBytes| {
            return Err(IndexOutOfBounds);
          }
          check1 := networkAddBytes[count / 8];
          check2 := resAddBytes[count / 8];
        } else {
          MaskHalves(bit);
          bmask := bmask / 2;
          bitmask := bmask as bv8;
          bit := bit + 1;
        }
      } else {
        DisagreeBeyond(networkAddBytes, resAddBytes, count, netmask);
        DisagreeBeyond(networkAddBytes, resAddBytes, count, CommonWidth(networkAddBytes, resAddBytes));
        break;
      }
    }
    return Ok(count == netmask);
  }

  /** The mask that keeps the top `r` bits of a byte. */
  function HighMask(r: nat): bv8
    requires r <= 8
  {
    if r == 0 then 0x00 else if r == 1 then 0x80 else if r == 2 then 0xC0 else if r == 3 then 0xE0
    else if r == 4 then 0xF0 else if r == 5 then 0xF8 else if r == 6 then 0xFC else if r == 7 then 0xFE
    else 0xFF
  }

  /** The prefix test as a netmask comparison: the first `n / 8` bytes are
      equal, and the remaining `n % 8` top bits of the next byte are equal
      under the mask. */
  predicate MaskedPrefixEqual(a: seq<bv8>, b: seq<bv8>, n: nat)
    requires n <= CommonWidth(a, b)
  {
    var q, r := n / 8, n % 8;
    a[..q] == b[..q] && (r == 0 || (a[q] & HighMask(r)) == (b[q] & HighMask(r)))
  }

  /** Bit `k` of the bytes `x` and `y` is the same. */
  predicate SameBit(x: bv8, y: bv8, k: nat)
    requires k < 8
  {
    (x & BitMask(k) != 0) == (y & BitMask(k) != 0)
  }

  lemma TopBitsMasked(x: bv8, y: bv8, r: nat)
    requires r <= 8
    requires forall k :: 0 <= k < r ==> SameBit(x, y, k)
    ensures (x & HighMask(r)) == (y & HighMask(r))
  {
    if r == 0 {
    } else if r == 1 {
      assert SameBit(x, y, 0);
    } else {
      assert SameBit(x, y, 0) && SameBit(x, y, 1);
      if r == 2 {
      } else {
        assert SameBit(x, y, 2);
        if r == 3 {
        } else {
          assert SameBit(x, y, 3);
          if r == 4 {
          } else {
            assert SameBit(x, y, 4);
            if r == 5 {
            } else {
              assert SameBit(x, y, 5);
              if r == 6 {
              } else {
                assert SameBit(x, y, 6);
                if r == 7 {
                } else {
                  assert SameBit(x, y, 7);
                }
              }
            }
          }
        }
      }
    }
  }

  lemma MaskedTopBits(x: bv8, y: bv8, r: nat, k: nat)
    requires k < r <= 8
    requires (x & HighMask(r)) == (y & HighMask(r))
    ensures SameBit(x, y, k)
  {
    assert BitMask(k) & HighMask(r) == BitMask(k) by {
      if k == 0 {} else if k == 1 {} else if k == 2 {} else if k == 3 {}
      else if k == 4 {} else if k == 5 {} else if k == 6 {} else {}
    }
    assert x & BitMask(k) == (x & HighMask(r)) & BitMask(k);
    assert y & BitMask(k) == (y & HighMask(r)) & BitMask(k);
  }

  lemma {:induction false} AgreeGivesMaskedPrefix(a: seq<bv8>, b: seq<bv8>, n: nat)
    requires n <= CommonWidth(a, b) && AgreeUpTo(a, b, n)
    ensures MaskedPrefixEqual(a, b, n)
  {
    var q, r := n / 8, n % 8;
    forall j | 0 <= j < q
      ensures a[j] == b[j]
    {
      forall k | 0 <= k < 8
        ensures SameBit(a[j], b[j], k)
      {
        BitOfByte(a, b, j, k);
      }
      TopBitsMasked(a[j], b[j], 8);
    }
    assert a[..q] == b[..q];
    if r != 0 {
      forall k | 0 <= k < r
        ensures SameBit(a[q], b[q], k)
      {
        BitOfByte(a, b, q, k);
      }
      TopBitsMasked(a[q], b[q], r);
    }
  }

  /** Bit `8 * j + k` of an address is bit `k` of its byte `j`. */
  lemma BitOfByte(a: seq<bv8>, b: seq<bv8>, j: nat, k: nat)
    requires k < 8 && 8 * j + k < CommonWidth(a, b)
    ensures BitSet(a, 8 * j + k) == BitSet(b, 8 * j + k) <==> SameBit(a[j], b[j], k)
  {
    assert (8 * j + k) / 8 == j && (8 * j + k) % 8 == k;
  }

  lemma WholeByteBit(a: seq<bv8>, b: seq<bv8>, q: nat, i: nat)
    requires q <= |a| && q <= |b| && a[..q] == b[..q]
    requires i < 8 * q
    ensures BitSet(a, i) == BitSet(b, i)
  {
    assert a[i / 8] == a[..q][i / 8];
  }

  lemma PartialByteBit(a: seq<bv8>, b: seq<bv8>, q: nat, r: nat, i: nat)
    requires q < |a| && q < |b| && r <= 8
    requires (a[q] & HighMask(r)) == (b[q] & HighMask(r))
    requires 8 * q <= i < 8 * q + r
    ensures BitSet(a, i) == BitSet(b, i)
  {
    var k := i - 8 * q;
    MaskedTopBits(a[q], b[q], r, k);
    BitOfByte(a, b, q, k);
  }

  lemma MaskedPrefixBit(a: seq<bv8>, b: seq<bv8>, n: nat, i: nat)
    requires n <= CommonWidth(a, b) && MaskedPrefixEqual(a, b, n)
    requires i < n
    ensures BitSet(a, i) == BitSet(b, i)
  {
    var q, r := n / 8, n % 8;
    if i < 8 * q {
      WholeByteBit(a, b, q, i);
    } else {
      PartialByteBit(a, b, q, r, i);
    }
  }

  lemma MaskedPrefixGivesAgree(a: seq<bv8>, b: seq<bv8>, n: nat)
    requires n <= CommonWidth(a, b) && MaskedPrefixEqual(a, b, n)
    ensures AgreeUpTo(a, b, n)
  {
    forall i | 0 <= i < n
      ensures BitSet(a, i) == BitSet(b, i)
    {
      MaskedPrefixBit(a, b, n, i);
    }
  }

  /** Bit-by-bit agreement is the netmask comparison of section 3.1 of RFC 4632. */
  lemma AgreeIffMaskedPrefix(a: seq<bv8>, b: seq<bv8>, n: nat)
    requires n <= CommonWidth(a, b)
    ensures AgreeUpTo(a, b, n) <==> MaskedPrefixEqual(a, b, n)
  {
    if AgreeUpTo(a, b, n) {
      AgreeGivesMaskedPrefix(a, b, n);
    }
    if MaskedPrefixEqual(a, b, n) {
      MaskedPrefixGivesAgree(a, b, n);
    }
  }

  /** A zero-length prefix matches any two addresses. */
  lemma ZeroPrefixMatches(a: seq<bv8>, b: seq<bv8>)
    requires |a| > 0 && |b| > 0
    ensures MatchOutcome(a, b, 0) == Ok(true)
  {
  }

  /** The comparison does not depend on the order of the two addresses. */
  lemma MatchSymmetric(a: seq<bv8>, b: seq<bv8>, netmask: int)
    ensures MatchOutcome(a, b, netmask) == MatchOutcome(b, a, netmask)
  {
  }

  /** For two IPv4 addresses: a /32 prefix that agrees on all 32 bits reads
      the non-existent fifth byte, and every shorter prefix gives an answer. */
  lemma Ipv4FullPrefixOverruns(a: seq<bv8>, b: seq<bv8>, netmask: int)
    requires |a| == 4 && |b| == 4
    ensures MatchOutcome(a, b, netmask).Err? <==> netmask >= 32 && a == b
  {
    AgreeIffMaskedPrefix(a, b, 32);
    assert a[..4] == a && b[..4] == b;
  }

  /** Addresses of different lengths are compared over the bits both have:
      the IPv4 address 32.1.13.184 lies under the IPv6 prefix 2001:db8::/16. */
  lemma MixedFamilyMatch()
    ensures MatchOutcome([32, 1, 13, 184], [0x20, 0x01, 0x0d, 0xb8, 0, 0, 0, 0, 0, 0, 0, 0, 0, 0, 0, 0], 16) == Ok(true)
  {
    var a: seq<bv8> := [32, 1, 13, 184];
    var b: seq<bv8> := [0x20, 0x01, 0x0d, 0xb8, 0, 0, 0, 0, 0, 0, 0, 0, 0, 0, 0, 0];
    AgreeIffMaskedPrefix(a, b, 16);
    assert a[..2] == b[..2];
  }
}
