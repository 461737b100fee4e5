/**
 Byte strings as numbers. A `UCHAR` is a number below 256; a buffer that is only read is a
 `seq<byte>`.
 */
module Bytes {
  import Bits

  type byte = b: int | 0 <= b < 256

  /** The NTSTATUS values the modelled functions return. */
  datatype Status =
    | Success
    | InvalidParameter
    | InvalidSignature
    | InvalidDeviceState
    | InvalidNetworkResponse
    | BufferTooSmall
    | IntegerOverflow
    | NotSupported
    | InsufficientResources
    | MoreProcessingRequired
    | ConnectionDisconnected
    | ConnectionReset
    | ConnectionAborted
    | DeviceNotConnected
    | IoTimeout
    | Cancelled
    | Timeout
    | Unsuccessful

  const SIZE_LIMIT: nat := 0x1_0000_0000_0000_0000

  function Pow256(k: nat): (p: nat)
    ensures p > 0
  {
    if k == 0 then 1 else 256 * Pow256(k - 1)
  }

  function Zeros(k: nat): (s: seq<byte>)
    ensures |s| == k && forall i :: 0 <= i < k ==> s[i] == 0
  {
    seq(k, _ => 0)
  }

  /** `static_cast<UCHAR>(n)` */
  function ToByte(n: nat): (b: byte)
    ensures b == n % 256
  {
    n % 256
  }

  lemma LowByteOfSum(r: nat, t: nat)
    requires r < 256
    ensures (r + 256 * t) % 256 == r && (r + 256 * t) / 256 == t
  {
  }

  /** The value of a little-endian byte string. */
  function LeValue(s: seq<byte>): nat
  {
    if s == [] then 0 else s[0] + 256 * LeValue(s[1..])
  }

  /** The k-byte little-endian form of n, as WriteLittleEndian32/64 write it. */
  function LeBytes(n: nat, k: nat): (s: seq<byte>)
    ensures |s| == k
  {
    if k == 0 then [] else [ToByte(n)] + LeBytes(n / 256, k - 1)
  }

  /** The value of a big-endian byte string. */
  function BeValue(s: seq<byte>): nat
  {
    if s == [] then 0 else 256 * BeValue(s[..|s| - 1]) + s[|s| - 1]
  }

  /** The k-byte big-endian form of n, as WriteBigEndianLength writes it. */
  function BeBytes(n: nat, k: nat): (s: seq<byte>)
    ensures |s| == k
  {
    if k == 0 then [] else BeBytes(n / 256, k - 1) + [ToByte(n)]
  }

  lemma {:induction false} LeValueBound(s: seq<byte>)
    ensures LeValue(s) < Pow256(|s|)
  {
    if s != [] { LeValueBound(s[1..]); }
  }

  lemma {:induction false} LeValueConcat(s: seq<byte>, t: seq<byte>)
    ensures LeValue(s + t) == LeValue(s) + Pow256(|s|) * LeValue(t)
  {
    if s == [] {
      assert s + t == t;
    } else {
      LeValueConcat(s[1..], t);
      assert (s + t)[1..] == s[1..] + t;
      MulAssoc(256, Pow256(|s| - 1), LeValue(t));
    }
  }

  lemma MulAssoc(a: int, b: int, c: int)
    ensures a * b * c == a * (b * c)
  {
  }

  lemma {:induction false} LeValueZeros(k: nat)
    ensures LeValue(Zeros(k)) == 0
  {
    if k != 0 {
      assert Zeros(k)[1..] == Zeros(k - 1);
      LeValueZeros(k - 1);
    }
  }

  lemma {:induction false} LeBytesOfValue(s: seq<byte>)
    ensures LeBytes(LeValue(s), |s|) == s
  {
    if s != [] {
      LowByteOfSum(s[0], LeValue(s[1..]));
      LeBytesOfValue(s[1..]);
    }
  }

  lemma {:induction false} LeValueOfBytes(n: nat, k: nat)
    ensures LeValue(LeBytes(n, k)) == n % Pow256(k)
  {
    if k == 0 {
      assert n % 1 == 0;
    } else {
      LeValueOfBytes(n / 256, k - 1);
      assert LeBytes(n, k)[1..] == LeBytes(n / 256, k - 1);
      ModOfQuotient(n, Pow256(k - 1));
    }
  }

  lemma {:induction false} BeValueBound(s: seq<byte>)
    ensures BeValue(s) < Pow256(|s|)
  {
    if s != [] { BeValueBound(s[..|s| - 1]); }
  }

  lemma {:induction false} BeBytesOfValue(s: seq<byte>)
    ensures BeBytes(BeValue(s), |s|) == s
  {
    if s != [] {
      var last := |s| - 1;
      LowByteOfSum(s[last], BeValue(s[..last]));
      BeBytesOfValue(s[..last]);
    }
  }

  lemma {:induction false} BeValueOfBytes(n: nat, k: nat)
    ensures BeValue(BeBytes(n, k)) == n % Pow256(k)
  {
    if k == 0 {
      assert n % 1 == 0;
    } else {
      BeValueOfBytes(n / 256, k - 1);
      assert BeBytes(n, k)[..k - 1] == BeBytes(n / 256, k - 1);
      ModOfQuotient(n, Pow256(k - 1));
    }
  }

  /** Byte i of the big-endian form is the one the shift by 8 * (k - 1 - i) brings down. */
  lemma {:induction false} BeBytesAt(n: nat, k: nat, i: nat)
    requires i < k
    ensures BeBytes(n, k)[i] == ToByte(n / Pow256(k - 1 - i))
  {
    if i == k - 1 {
      assert n / 1 == n;
    } else {
      BeBytesAt(n / 256, k - 1, i);
      QuotientOfQuotient(n, Pow256(k - 2 - i));
    }
  }

  lemma QuotientOfQuotient(n: nat, m: nat)
    requires m > 0
    ensures 256 * m > 0 && n / 256 / m == n / (256 * m)
  {
    ModOfQuotient(n, m);
    var q, r := n / 256 / m, n / 256 % m;
    assert n / 256 == q * m + r;
    assert n == q * (256 * m) + (n % 256 + 256 * r);
    var d := n / (256 * m) - q;
    assert d * (256 * m) == n % 256 + 256 * r - n % (256 * m) == 0;
    assert d == 0;
  }

  lemma {:induction false} BeValueLeadingZeros(k: nat, s: seq<byte>)
    ensures BeValue(Zeros(k) + s) == BeValue(s)
  {
    var z := Zeros(k) + s;
    if s != [] {
      assert z[..|z| - 1] == Zeros(k) + s[..|s| - 1];
      BeValueLeadingZeros(k, s[..|s| - 1]);
    } else if k != 0 {
      assert z[..k - 1] == Zeros(k - 1) + s;
      BeValueLeadingZeros(k - 1, s);
    }
  }

  lemma ModOfQuotient(n: nat, m: nat)
    requires m > 0
    ensures n % (256 * m) == n % 256 + 256 * (n / 256 % m)
  {
    var q, r := n / 256 / m, n / 256 % m;
    assert n / 256 == q * m + r;
    assert n == q * (256 * m) + (n % 256 + 256 * r);
    Bits.QuotientIsUnique(n, 256 * m, q, n % 256 + 256 * r);
  }

  lemma Pow256Values()
    ensures Pow256(1) == 0x100 && Pow256(2) == 0x1_0000 && Pow256(4) == 0x1_0000_0000
    ensures Pow256(8) == SIZE_LIMIT
    ensures Pow256(16) == 0x1_0000_0000_0000_0000_0000_0000_0000_0000
  {
    assert Pow256(3) == 0x100_0000;
    assert Pow256(6) == 0x1_0000_0000_0000;
    assert Pow256(10) == 0x1_0000_0000_0000_0000_0000;
    assert Pow256(13) == 0x1_0000_0000_0000_0000_0000_0000_00;
  }
}
