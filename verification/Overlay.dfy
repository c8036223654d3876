/**
 Addresses, prefixes and the slot arithmetic of the overlay network
 (internal/overlay/overlay.go). Addresses are numbers of 32 or 128 bits; OR is
 defined bit by bit, so that its agreeing with addition is something to prove.
*/
module Overlay {
  import opened Basics

  const TWO_TO_THE_128: int := 0x1_0000_0000_0000_0000_0000_0000_0000_0000

  type uint32 = x: int | 0 <= x < TWO_TO_THE_32
  type uint128 = x: int | 0 <= x < TWO_TO_THE_128

  /** netip.Addr without zones; NoAddr is its zero value. */
  datatype Addr = NoAddr | V4(v4: uint32) | V6(v6: uint128)

  function BitLen(a: Addr): nat {
    match a case NoAddr => 0 case V4(_) => 32 case V6(_) => 128
  }

  datatype RawPrefix = Prefix(addr: Addr, bits: int)

  /** netip.Prefix: bits is -1 when the prefix is not valid, and a prefix of no address never is. */
  type Prefix = p: RawPrefix | -1 <= p.bits <= BitLen(p.addr) && (p.addr.NoAddr? ==> p.bits == -1)
    witness Prefix(NoAddr, -1)

  function Pow2(n: nat): (p: nat)
    ensures p > 0
  {
    if n == 0 then 1 else 2 * Pow2(n - 1)
  }

  function BitOr(a: nat, b: nat): nat {
    if a == 0 && b == 0 then 0
    else 2 * BitOr(a / 2, b / 2) + if a % 2 == 1 || b % 2 == 1 then 1 else 0
  }

  lemma {:induction false} BitOrBound(a: nat, b: nat, k: nat)
    requires a < Pow2(k) && b < Pow2(k)
    ensures BitOr(a, b) < Pow2(k)
  {
    if k > 0 {
      BitOrBound(a / 2, b / 2, k - 1);
    }
  }

  lemma ProductBound(d: int, s: nat)
    ensures d >= 1 ==> d * s >= s
    ensures d <= -1 ==> d * s + s <= 0
  {
    if d >= 1 {
      assert d * s == (d - 1) * s + s;
    } else if d <= -1 {
      assert d * s == (d + 1) * s - s;
    }
  }

  /** Quotient and remainder are determined by q * s + r. */
  lemma DivisionIsUnique(q: int, r: nat, s: nat)
    requires r < s
    ensures (q * s + r) / s == q && (q * s + r) % s == r
  {
    var x := q * s + r;
    var d := x / s - q;
    assert x == x / s * s + x % s;
    assert d * s == x / s * s - q * s;
    ProductBound(d, s);
  }

  lemma HalfOfMultiple(a: nat, k: nat)
    requires k > 0 && a % Pow2(k) == 0
    ensures a % 2 == 0 && (a / 2) % Pow2(k - 1) == 0
  {
    var p, q := Pow2(k - 1), a / Pow2(k);
    assert a == q * (2 * p);
    assert q * (2 * p) == 2 * (q * p);
    DivisionIsUnique(q, 0, p);
  }

  /** Where the low k bits of a are clear, OR with a k-bit number is addition. */
  lemma {:induction false} OrIsAddition(a: nat, b: nat, k: nat)
    requires a % Pow2(k) == 0 && b < Pow2(k)
    ensures BitOr(a, b) == a + b
  {
    if a == 0 && b == 0 {
    } else if k == 0 {
      OrIsAddition(a / 2, 0, 0);
    } else {
      HalfOfMultiple(a, k);
      OrIsAddition(a / 2, b / 2, k - 1);
    }
  }

  lemma {:induction false} Pow2Adds(m: nat, n: nat)
    ensures Pow2(m + n) == Pow2(m) * Pow2(n)
  {
    if m > 0 {
      Pow2Adds(m - 1, n);
    }
  }

  lemma Widths()
    ensures Pow2(32) == TWO_TO_THE_32 && Pow2(64) == TWO_TO_THE_64 && Pow2(128) == TWO_TO_THE_128
  {
    assert Pow2(8) == 256;
    Pow2Adds(8, 8);
    assert Pow2(16) == 65536;
    Pow2Adds(16, 16);
    Pow2Adds(32, 32);
    Pow2Adds(64, 64);
  }

  /** v with its low k bits cleared. */
  function ClearLow(v: nat, k: nat): (r: nat)
    ensures r <= v < r + Pow2(k) && r % Pow2(k) == 0
  {
    ClearLowBounds(v, Pow2(k));
    v / Pow2(k) * Pow2(k)
  }

  lemma ClearLowBounds(v: nat, p: nat)
    requires p > 0
    ensures 0 <= v / p * p <= v < v / p * p + p && (v / p * p) % p == 0
  {
    assert v == v / p * p + v % p;
    DivisionIsUnique(v / p, 0, p);
  }

  /** How many low bits of an address the prefix leaves free: Addr().BitLen() - Bits(). */
  function HostBits(p: Prefix): (n: nat)
    ensures n <= 129
  {
    BitLen(p.addr) - p.bits
  }

  /** Prefix.Masked().Addr(): host bits cleared; the zero address when the prefix is not valid. */
  function Base(p: Prefix): Addr {
    if p.bits < 0 then NoAddr
    else match p.addr
      case NoAddr => NoAddr
      case V4(v) => V4(ClearLow(v, HostBits(p)))
      case V6(v) => V6(ClearLow(v, HostBits(p)))
  }

  function MaxHost(p: Prefix): (top: uint64)
  {
    var bits := HostBits(p);
    if bits >= 64 then TWO_TO_THE_64 - 2
    else
      var top := Pow2(bits) - 1;
      Pow2Grows(bits, 63);
      if p.addr.V4? && top > 0 then top - 1 else top
  }

  lemma {:induction false} Pow2Grows(m: nat, n: nat)
    requires m <= n
    ensures Pow2(m) <= Pow2(n)
    ensures n == 63 ==> Pow2(m) < TWO_TO_THE_64
  {
    Pow2Adds(m, n - m);
    assert Pow2(m) * 1 <= Pow2(m) * Pow2(n - m);
    if n == 63 { Widths(); Pow2Adds(63, 1); }
  }

  /** Addr.As16 read as a number: the zero address gives zero. */
  function As16(a: Addr): uint128 {
    match a case NoAddr => 0 case V4(v) => 0xFFFF * TWO_TO_THE_32 + v case V6(v) => v
  }

  /** PutUint32(b, Uint32(b) | uint32(host)) on the four bytes of an IPv4 address. */
  function OrLow32(b: uint32, host: uint64): uint32 {
    Widths();
    BitOrBound(b, host % TWO_TO_THE_32, 32);
    BitOr(b, host % TWO_TO_THE_32)
  }

  /** PutUint64(b[8:], Uint64(b[8:]) | host) on the sixteen bytes of an IPv6 address. */
  function OrLow64(b: uint128, host: uint64): uint128 {
    Widths();
    BitOrBound(b % TWO_TO_THE_64, host, 64);
    b / TWO_TO_THE_64 * TWO_TO_THE_64 + BitOr(b % TWO_TO_THE_64, host)
  }

  /** The address of a slot; nothing if the slot does not fit. */
  function SlotAddr(p: Prefix, host: uint64): Option<Addr> {
    if host == 0 || host > MaxHost(p) then None
    else if Base(p).V4? then Some(V4(OrLow32(Base(p).v4, host)))
    else Some(V6(OrLow64(As16(Base(p)), host)))
  }

  /** Below w, a multiple of p, a multiple of p stays one. */
  lemma RemainderOfMultiple(v: nat, p: nat, m: nat, w: nat)
    requires p > 0 && w > 0 && w == m * p && v % p == 0
    ensures (v % w) % p == 0
  {
    var q, t := v / p, v / w;
    assert v == q * p;
    assert v == t * w + v % w;
    assert t * w == (t * m) * p;
    assert v % w == (q - t * m) * p;
    ProductBound(q - t * m, p);
    DivisionIsUnique(q - t * m, 0, p);
  }

  lemma MultipleOfProduct(b: nat, q: nat, m: nat, w: nat)
    requires w > 0 && b == q * (m * w)
    ensures b % w == 0
  {
    assert q * (m * w) == (q * m) * w;
    DivisionIsUnique(q * m, 0, w);
  }

  /** What an address means as a number of its family. */
  function Number(a: Addr): nat {
    match a case NoAddr => 0 case V4(v) => v case V6(v) => v
  }

  lemma MaxHostFits(p: Prefix)
    requires p.bits >= 0
    ensures MaxHost(p) < Pow2(HostBits(p))
    ensures p.addr.V4? ==> MaxHost(p) == 0 || MaxHost(p) + 1 < Pow2(HostBits(p))
  {
    Widths();
    if HostBits(p) >= 64 {
      Pow2Grows(64, HostBits(p));
    }
  }

  /**
   A slot's address is the network address plus the slot: the OR carries nothing and
   the conversions drop nothing.
  */
  lemma SlotAddrIsSum(p: Prefix, host: uint64)
    requires SlotAddr(p, host).Some?
    ensures Number(SlotAddr(p, host).value) == Number(Base(p)) + host
    ensures Base(p).V4? <==> SlotAddr(p, host).value.V4?
    ensures !SlotAddr(p, host).value.NoAddr?
  {
    if p.bits < 0 {
      Widths();
      OrIsAddition(0, host, 64);
    } else {
      MaxHostFits(p);
      match p.addr
      case V4(v) => OrIntoV4(v, HostBits(p), host);
      case V6(v) => OrIntoV6(v, HostBits(p), host);
    }
  }

  lemma OrIntoV4(v: uint32, k: nat, host: uint64)
    requires k <= 32 && host < Pow2(k)
    ensures ClearLow(v, k) < TWO_TO_THE_32 && OrLow32(ClearLow(v, k), host) == ClearLow(v, k) + host
  {
    SlotIsShort(k, host);
    OrIsAddition(ClearLow(v, k), host, k);
    TruncationKeeps(ClearLow(v, k), host);
  }

  lemma SlotIsShort(k: nat, host: nat)
    requires k <= 32 && host < Pow2(k)
    ensures host < TWO_TO_THE_32
  {
    Widths();
    Pow2Grows(k, 32);
  }

  lemma TruncationKeeps(b: uint32, host: uint64)
    requires host < TWO_TO_THE_32
    ensures OrLow32(b, host) == BitOr(b, host)
  {
    assert host % TWO_TO_THE_32 == host;
  }

  lemma OrIntoV6(v: uint128, k: nat, host: uint64)
    requires k <= 128 && host < Pow2(k)
    ensures OrLow64(ClearLow(v, k), host) == ClearLow(v, k) + host
  {
    Widths();
    LowHalf(v, k);
    var b := ClearLow(v, k);
    OrIsAddition(b % TWO_TO_THE_64, host, if k < 64 then k else 64);
    assert b == b / TWO_TO_THE_64 * TWO_TO_THE_64 + b % TWO_TO_THE_64;
  }

  lemma LowHalf(v: uint128, k: nat)
    requires k <= 128
    ensures (ClearLow(v, k) % TWO_TO_THE_64) % Pow2(if k < 64 then k else 64) == 0
  {
    if k < 64 {
      LowHalfOfShort(v, k);
    } else {
      LowHalfOfLong(v, k);
    }
  }

  lemma LowHalfOfShort(v: uint128, k: nat)
    requires k < 64
    ensures (ClearLow(v, k) % TWO_TO_THE_64) % Pow2(k) == 0
  {
    var p, m := Pow2(k), Pow2(64 - k);
    assert TWO_TO_THE_64 == m * p by {
      Widths();
      Pow2Adds(64 - k, k);
    }
    RemainderOfMultiple(ClearLow(v, k), p, m, TWO_TO_THE_64);
  }

  lemma LowHalfOfLong(v: uint128, k: nat)
    requires 64 <= k <= 128
    ensures ClearLow(v, k) % TWO_TO_THE_64 == 0 && 0 % Pow2(64) == 0
  {
    var m := Pow2(k - 64);
    assert Pow2(k) == m * TWO_TO_THE_64 by {
      Widths();
      Pow2Adds(k - 64, 64);
    }
    MultipleOfProduct(ClearLow(v, k), v / Pow2(k), m, TWO_TO_THE_64);
  }

  /** Two slots of one network never share an address. */
  lemma SlotAddrIsInjective(p: Prefix, h1: uint64, h2: uint64)
    requires SlotAddr(p, h1).Some? && SlotAddr(p, h2).Some?
    ensures SlotAddr(p, h1) == SlotAddr(p, h2) ==> h1 == h2
  {
    SlotAddrIsSum(p, h1);
    SlotAddrIsSum(p, h2);
  }

  predicate Contains(p: Prefix, a: Addr) {
    p.bits >= 0 && BitLen(a) == BitLen(p.addr)
    && Number(a) / Pow2(HostBits(p)) == Number(p.addr) / Pow2(HostBits(p))
  }

  /**
   Of a valid prefix, every slot's address is inside it, is not the network address and,
   for IPv4, not the broadcast address.
  */
  lemma SlotAddrIsInside(p: Prefix, host: uint64)
    requires p.bits >= 0 && SlotAddr(p, host).Some?
    ensures Contains(p, SlotAddr(p, host).value)
    ensures Number(SlotAddr(p, host).value) > Number(Base(p))
    ensures p.addr.V4? ==> Number(SlotAddr(p, host).value) < Number(Base(p)) + Pow2(HostBits(p)) - 1
  {
    SlotAddrIsSum(p, host);
    MaxHostFits(p);
    BaseIsMultiple(p);
    DivisionIsUnique(Number(p.addr) / Pow2(HostBits(p)), host, Pow2(HostBits(p)));
  }

  lemma BaseIsMultiple(p: Prefix)
    requires p.bits >= 0
    ensures Number(Base(p)) == Number(p.addr) / Pow2(HostBits(p)) * Pow2(HostBits(p))
    ensures BitLen(Base(p)) == BitLen(p.addr)
  {
  }

  /** The address is a host's: not the network address and, for IPv4, not the broadcast address. */
  predicate IsHost(p: Prefix, a: Addr)
    requires Contains(p, a)
  {
    && Number(a) > Number(Base(p))
    && (p.addr.V4? ==> Number(a) < Number(Base(p)) + Pow2(HostBits(p)) - 1)
  }

  lemma SameQuotient(n: nat, v: nat, s: nat)
    requires s > 0 && n / s == v / s
    ensures v / s * s <= n < v / s * s + s
  {
    assert n == n / s * s + n % s;
  }

  lemma ContainedIsNear(p: Prefix, a: Addr)
    requires Contains(p, a)
    ensures Number(Base(p)) <= Number(a) < Number(Base(p)) + Pow2(HostBits(p))
    ensures a.V4? <==> Base(p).V4?
    ensures !a.NoAddr?
  {
    SameQuotient(Number(a), Number(p.addr), Pow2(HostBits(p)));
  }

  /** No slot is wasted: every host address of a prefix with at most 63 host bits is some slot's. */
  lemma EveryHostHasASlot(p: Prefix, a: Addr) returns (host: uint64)
    requires p.bits >= 0 && HostBits(p) <= 63 && Contains(p, a) && IsHost(p, a)
    ensures host == Number(a) - Number(Base(p)) && SlotAddr(p, host) == Some(a)
  {
    ContainedIsNear(p, a);
    Pow2Grows(HostBits(p), 63);
    SlotsReachTop(p);
    host := Number(a) - Number(Base(p));
    assert SlotAddr(p, host).Some?;
    SlotAddrIsSum(p, host);
    assert Number(SlotAddr(p, host).value) == Number(a);
  }

  /** The highest slot is the last host address, or the cap of 64 bits. */
  lemma SlotsReachTop(p: Prefix)
    requires p.bits >= 0
    ensures HostBits(p) <= 63 ==>
      MaxHost(p) == if p.addr.V4? && HostBits(p) > 0 then Pow2(HostBits(p)) - 2 else Pow2(HostBits(p)) - 1
    ensures HostBits(p) >= 64 ==> MaxHost(p) == TWO_TO_THE_64 - 2
  {
    if HostBits(p) > 0 {
      Pow2Grows(1, HostBits(p));
      assert Pow2(1) == 2;
    }
  }
}
