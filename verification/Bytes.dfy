/**
 * Octet strings and big-endian integers: I2OSP and OS2IP (sections 4.1 and 4.2 of RFC 8017),
 * as `int.to_bytes`, `int.from_bytes` and `int.bit_length` compute them.
 */
module Bytes {

  type byte = x: int | 0 <= x < 256

  function Pow256(k: nat): (p: nat)
    ensures p >= 1
  {
    if k == 0 then 1 else 256 * Pow256(k - 1)
  }

  /** int.from_bytes(b, "big"). */
  function FromBytes(b: seq<byte>): nat {
    if b == [] then 0 else FromBytes(b[..|b| - 1]) * 256 + b[|b| - 1]
  }

  /** n.to_bytes(k, "big") for n < 256^k; the high-order part is cut off otherwise. */
  function ToBytes(n: nat, k: nat): (b: seq<byte>)
    ensures |b| == k
  {
    if k == 0 then [] else ToBytes(n / 256, k - 1) + [n % 256]
  }

  /** The most significant octet comes first. */
  lemma BigEndian(x: byte, y: byte)
    ensures FromBytes([x]) == x
    ensures FromBytes([x, y]) == 0x100 * x as int + y
  {
    assert [x][..0] == [] && [x, y][..1] == [x];
  }

  lemma {:induction false} FromBytesBound(b: seq<byte>)
    ensures FromBytes(b) < Pow256(|b|)
  {
    if b != [] {
      FromBytesBound(b[..|b| - 1]);
    }
  }

  /** `to_bytes` then `from_bytes` is the identity exactly on the integers that fit. */
  lemma {:induction false} FromToBytes(n: nat, k: nat)
    ensures FromBytes(ToBytes(n, k)) == n <==> n < Pow256(k)
  {
    if k == 0 {
    } else {
      FromToBytes(n / 256, k - 1);
      var b := ToBytes(n, k);
      assert b[..k - 1] == ToBytes(n / 256, k - 1);
      FromBytesBound(b);
    }
  }

  lemma {:induction false} ToFromBytes(b: seq<byte>)
    ensures ToBytes(FromBytes(b), |b|) == b
  {
    if b != [] {
      var hi := b[..|b| - 1];
      ToFromBytes(hi);
      assert FromBytes(b) / 256 == FromBytes(hi);
      assert FromBytes(b) % 256 == b[|b| - 1];
      assert b == hi + [b[|b| - 1]];
    }
  }

  /** Equal-length octet strings with the same value are equal. */
  lemma FromBytesInjective(a: seq<byte>, b: seq<byte>)
    requires |a| == |b| && FromBytes(a) == FromBytes(b)
    ensures a == b
  {
    ToFromBytes(a);
    ToFromBytes(b);
  }

  lemma ShiftOctet(x: nat, p: nat, y: nat)
    ensures (x * p + y) * 256 == x * (256 * p) + y * 256
  {
  }

  lemma {:induction false} FromBytesAppend(a: seq<byte>, b: seq<byte>)
    ensures FromBytes(a + b) == FromBytes(a) * Pow256(|b|) + FromBytes(b)
  {
    if b == [] {
      assert a + b == a;
    } else {
      var b' := b[..|b| - 1];
      assert (a + b)[..|a + b| - 1] == a + b';
      FromBytesAppend(a, b');
      ShiftOctet(FromBytes(a), Pow256(|b'|), FromBytes(b'));
    }
  }

  /** A leading zero octet does not change the value. */
  lemma FromBytesLeadingZero(b: seq<byte>)
    ensures FromBytes([0] + b) == FromBytes(b)
  {
    var z: seq<byte> := [0];
    FromBytesAppend(z, b);
    assert z[..0] == [];
  }

  lemma {:induction false} Pow256Monotone(i: nat, j: nat)
    requires i <= j
    ensures Pow256(i) <= Pow256(j)
    decreases j
  {
    if i < j {
      Pow256Monotone(i, j - 1);
    }
  }

  /** n.bit_length(). */
  function BitLength(n: nat): nat {
    if n == 0 then 0 else 1 + BitLength(n / 2)
  }

  /** The number of octets (n.bit_length() + 7) // 8. */
  function ByteLength(n: nat): nat {
    (BitLength(n) + 7) / 8
  }

  lemma BitLengthStep(n: nat)
    requires n >= 256
    ensures BitLength(n) == 8 + BitLength(n / 256)
  {
    var n1 := n / 2;
    var n2 := n1 / 2;
    var n3 := n2 / 2;
    var n4 := n3 / 2;
    var n5 := n4 / 2;
    var n6 := n5 / 2;
    var n7 := n6 / 2;
    assert n7 / 2 == n / 256;
    assert BitLength(n) == 1 + BitLength(n1);
    assert BitLength(n1) == 1 + BitLength(n2);
    assert BitLength(n2) == 1 + BitLength(n3);
    assert BitLength(n3) == 1 + BitLength(n4);
    assert BitLength(n4) == 1 + BitLength(n5);
    assert BitLength(n5) == 1 + BitLength(n6);
    assert BitLength(n6) == 1 + BitLength(n7);
    assert BitLength(n7) == 1 + BitLength(n7 / 2);
  }

  lemma BitLengthSmall(n: nat)
    requires 0 < n < 256
    ensures 1 <= BitLength(n) <= 8
  {
    var n1 := n / 2;
    var n2 := n1 / 2;
    var n3 := n2 / 2;
    var n4 := n3 / 2;
    var n5 := n4 / 2;
    var n6 := n5 / 2;
    var n7 := n6 / 2;
    assert n7 / 2 == 0;
    assert BitLength(n7) <= 1;
    assert BitLength(n6) <= 2;
    assert BitLength(n5) <= 3;
    assert BitLength(n4) <= 4;
    assert BitLength(n3) <= 5;
    assert BitLength(n2) <= 6;
    assert BitLength(n1) <= 7;
  }

  /** A positive integer lies between 256^(k-1) and 256^k for its octet count k. */
  lemma {:induction false} ByteLengthBounds(n: nat)
    requires n > 0
    ensures ByteLength(n) >= 1
    ensures Pow256(ByteLength(n) - 1) <= n < Pow256(ByteLength(n))
  {
    if n < 256 {
      BitLengthSmall(n);
      assert ByteLength(n) == 1;
      assert Pow256(1) == 256 * Pow256(0);
    } else {
      BitLengthStep(n);
      ByteLengthBounds(n / 256);
      assert ByteLength(n) == ByteLength(n / 256) + 1;
    }
  }

  lemma ByteLengthMonotone(i: nat, j: nat)
    requires i <= j
    ensures ByteLength(i) <= ByteLength(j)
  {
    if i > 0 {
      ByteLengthBounds(i);
      ByteLengthBounds(j);
      if ByteLength(j) < ByteLength(i) {
        Pow256Monotone(ByteLength(j), ByteLength(i) - 1);
      }
    }
  }

  /** data[lo:hi] of Python: both bounds are clamped to the data. */
  function Slice(data: seq<byte>, lo: nat, hi: nat): seq<byte> {
    var h := if hi <= |data| then hi else |data|;
    var l := if lo <= h then lo else h;
    data[l..h]
  }
}
