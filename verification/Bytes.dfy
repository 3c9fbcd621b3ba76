/** Byte strings and the two byte orders the protocol and the signatures use. */
module Bytes {

  type byte = x: int | 0 <= x < 256

  type Data = seq<byte>

  /** int.from_bytes(b, "little") */
  function FromLE(b: Data): nat {
    if b == [] then 0 else b[0] + 256 * FromLE(b[1..])
  }

  /** n as k little-endian bytes, truncated to its low 8k bits. */
  function ToLE(n: nat, k: nat): (b: Data)
    ensures |b| == k
  {
    if k == 0 then [] else [n % 256] + ToLE(n / 256, k - 1)
  }

  function Pow256(k: nat): nat {
    if k == 0 then 1 else 256 * Pow256(k - 1)
  }

  lemma {:induction false} FromLEBound(b: Data)
    ensures FromLE(b) < Pow256(|b|)
  {
    if b != [] {
      FromLEBound(b[1..]);
    }
  }

  lemma {:induction false} FromToLE(n: nat, k: nat)
    requires n < Pow256(k)
    ensures FromLE(ToLE(n, k)) == n
  {
    if k != 0 {
      FromToLE(n / 256, k - 1);
      assert ToLE(n, k)[1..] == ToLE(n / 256, k - 1);
    }
  }

  lemma LowByte(b: byte, rest: nat)
    ensures (b + 256 * rest) % 256 == b && (b + 256 * rest) / 256 == rest
  {
  }

  lemma {:induction false} ToFromLE(b: Data)
    ensures ToLE(FromLE(b), |b|) == b
  {
    if b != [] {
      ToFromLE(b[1..]);
      LowByte(b[0], FromLE(b[1..]));
    }
  }

  // Big-endian fields, as struct.pack(">I") and struct.unpack(">I") read and write them.

  function FromBE(b: Data): nat {
    if b == [] then 0 else 256 * FromBE(b[..|b| - 1]) + b[|b| - 1]
  }

  function ToBE(n: nat, k: nat): (b: Data)
    ensures |b| == k
  {
    if k == 0 then [] else ToBE(n / 256, k - 1) + [n % 256]
  }

  lemma {:induction false} FromToBE(n: nat, k: nat)
    requires n < Pow256(k)
    ensures FromBE(ToBE(n, k)) == n
  {
    if k != 0 {
      FromToBE(n / 256, k - 1);
      assert ToBE(n, k)[..k - 1] == ToBE(n / 256, k - 1);
    }
  }

  lemma {:induction false} ToFromBE(b: Data)
    ensures ToBE(FromBE(b), |b|) == b && FromBE(b) < Pow256(|b|)
  {
    if b != [] {
      ToFromBE(b[..|b| - 1]);
      LowByte(b[|b| - 1], FromBE(b[..|b| - 1]));
    }
  }

  /** The first byte is the most significant one in the one order, and the least in the other. */
  lemma ByteOrders(a: byte, b: byte, c: byte, d: byte)
    ensures FromBE([a, b, c, d]) == 0x100_0000 * a + 0x1_0000 * b + 0x100 * c + d
    ensures FromLE([a, b, c, d]) == a + 0x100 * b + 0x1_0000 * c + 0x100_0000 * d
  {
    var s := [a, b, c, d];
    assert s[..3] == [a, b, c] && [a, b, c][..2] == [a, b] && [a, b][..1] == [a] && [a][..0] == [];
    assert FromBE([a]) == a && FromBE([a, b]) == 0x100 * a + b && FromBE([a, b, c]) == 0x1_0000 * a + 0x100 * b + c;
    assert s[1..] == [b, c, d] && [b, c, d][1..] == [c, d] && [c, d][1..] == [d] && [d][1..] == [];
    assert FromLE([d]) == d && FromLE([c, d]) == c + 0x100 * d && FromLE([b, c, d]) == b + 0x100 * c + 0x1_0000 * d;
  }
}
