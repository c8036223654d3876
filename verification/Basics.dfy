/** Machine integers, bytes and node identities, shared by every other module. */
module Basics {

  const TWO_TO_THE_32: int := 0x1_0000_0000
  const TWO_TO_THE_64: int := 0x1_0000_0000_0000_0000
  const MAX_INT64: int := 0x7FFF_FFFF_FFFF_FFFF

  newtype byte = x: int | 0 <= x < 256
  type Bytes = seq<byte>
  type uint64 = x: int | 0 <= x < TWO_TO_THE_64
  type int64 = x: int | -MAX_INT64 - 1 <= x <= MAX_INT64

  type Raw32 = b: Bytes | |b| == 32 witness seq(32, _ => 0)

  /** A node identity: an Ed25519 public key, 32 bytes. */
  datatype PublicKey = PublicKey(raw: Raw32)

  datatype Option<+T> = None | Some(value: T)

  datatype Result<+T, +E> = Ok(value: T) | Err(error: E)

  /** bytes.Compare(a, b) < 0: byte order, a proper prefix before its extensions. */
  predicate BytesLess(a: Bytes, b: Bytes) {
    b != [] && (a == [] || a[0] < b[0] || (a[0] == b[0] && BytesLess(a[1..], b[1..])))
  }

  predicate KeyLess(a: PublicKey, b: PublicKey) {
    BytesLess(a.raw, b.raw)
  }

  /** They agree up to some place, and there a ends or has the smaller byte. */
  predicate FirstDiffersAt(a: Bytes, b: Bytes, k: nat) {
    k <= |a| && k < |b| && a[..k] == b[..k] && (k == |a| || a[k] < b[k])
  }

  /** Byte order is decided by the first byte that differs; a proper prefix comes first. */
  lemma {:induction false} BytesLessIff(a: Bytes, b: Bytes)
    ensures BytesLess(a, b) <==> exists k: nat :: FirstDiffersAt(a, b, k)
  {
    if b != [] {
      if a == [] || a[0] < b[0] {
        assert FirstDiffersAt(a, b, 0);
      } else if a[0] == b[0] {
        BytesLessIff(a[1..], b[1..]);
        if k: nat :| FirstDiffersAt(a[1..], b[1..], k) {
          assert a[..k + 1] == [a[0]] + a[1..][..k] && b[..k + 1] == [b[0]] + b[1..][..k];
          assert FirstDiffersAt(a, b, k + 1);
        }
        if k: nat :| FirstDiffersAt(a, b, k) {
          assert k > 0 && a[1..][..k - 1] == a[..k][1..] && b[1..][..k - 1] == b[..k][1..];
          assert FirstDiffersAt(a[1..], b[1..], k - 1);
        }
      } else {
        forall k: nat ensures !FirstDiffersAt(a, b, k) {
          assert 0 < k <= |a| && k <= |b| ==> a[..k][0] != b[..k][0];
        }
      }
    }
  }

  lemma {:induction false} BytesLessIsAsymmetric(a: Bytes, b: Bytes)
    requires BytesLess(a, b)
    ensures !BytesLess(b, a)
  {
    if a != [] && a[0] == b[0] {
      BytesLessIsAsymmetric(a[1..], b[1..]);
    }
  }

  lemma {:induction false} BytesLessIsConnected(a: Bytes, b: Bytes)
    ensures a == b || BytesLess(a, b) || BytesLess(b, a)
  {
    if a != [] && b != [] && a[0] == b[0] {
      BytesLessIsConnected(a[1..], b[1..]);
      assert a == [a[0]] + a[1..] && b == [b[0]] + b[1..];
    }
  }

  lemma {:induction false} BytesLessIsTransitive(a: Bytes, b: Bytes, c: Bytes)
    requires BytesLess(a, b) && BytesLess(b, c)
    ensures BytesLess(a, c)
  {
    if a != [] && a[0] == b[0] == c[0] {
      BytesLessIsTransitive(a[1..], b[1..], c[1..]);
    }
  }

  /** KeyLess is a strict total order on identities. */
  lemma KeyLessIsStrictTotalOrder(a: PublicKey, b: PublicKey, c: PublicKey)
    ensures !KeyLess(a, a)
    ensures KeyLess(a, b) ==> !KeyLess(b, a)
    ensures a == b || KeyLess(a, b) || KeyLess(b, a)
    ensures KeyLess(a, b) && KeyLess(b, c) ==> KeyLess(a, c)
  {
    BytesLessIsConnected(a.raw, b.raw);
    if KeyLess(a, a) { BytesLessIsAsymmetric(a.raw, a.raw); }
    if KeyLess(a, b) { BytesLessIsAsymmetric(a.raw, b.raw); }
    if KeyLess(a, b) && KeyLess(b, c) { BytesLessIsTransitive(a.raw, b.raw, c.raw); }
  }
}
