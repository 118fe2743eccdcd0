/** Bytes, 32-byte keys and their order, and fixed-width little-endian integers. */
module Bytes {
  import opened Numbers

  type byte = bv8

  datatype Option<T> = None | Some(value: T)

  type Bytes32 = b: seq<byte> | |b| == 32 witness seq(32, _ => 0)

  function Zero32(): Bytes32 {
    seq(32, _ => 0)
  }

  const U32: nat := 0x1_0000_0000
  const U64: nat := 0x1_0000_0000_0000_0000

  type u32 = n: nat | n < U32
  type u64 = n: nat | n < U64

  // ---------- Little-endian integers ----------

  /** The low `width` bytes of `n`, least significant first. */
  function LittleEndian(n: nat, width: nat): (b: seq<byte>)
    ensures |b| == width
    decreases width
  {
    if width == 0 then [] else [(n % 256) as byte] + LittleEndian(n / 256, width - 1)
  }

  function FromLittleEndian(b: seq<byte>): nat {
    if |b| == 0 then 0 else b[0] as nat + 256 * FromLittleEndian(b[1..])
  }

  function Pow256(width: nat): (p: nat)
    ensures p > 0
  {
    if width == 0 then 1 else 256 * Pow256(width - 1)
  }

  lemma NextByte(b: byte)
    requires b < 255
    ensures (b + 1) as nat == b as nat + 1
  {}

  lemma {:induction false} ByteOfValue(n: nat) returns (b: byte)
    requires n < 256
    ensures b as nat == n
  {
    if n == 0 {
      b := 0;
    } else {
      b := ByteOfValue(n - 1);
      NextByte(b);
      b := b + 1;
    }
  }

  lemma ByteOfNat(b: byte)
    ensures b as nat as byte == b
  {}

  lemma ByteRoundTrip(n: nat)
    requires n < 256
    ensures n as byte as nat == n
  {
    var b := ByteOfValue(n);
    ByteOfNat(b);
  }

  lemma {:induction false} LittleEndianRoundTrip(n: nat, width: nat)
    requires n < Pow256(width)
    ensures FromLittleEndian(LittleEndian(n, width)) == n
    decreases width
  {
    if width > 0 {
      LittleEndianRoundTrip(n / 256, width - 1);
      ByteRoundTrip(n % 256);
      assert LittleEndian(n, width)[1..] == LittleEndian(n / 256, width - 1);
    }
  }

  /** Byte `i` holds the digit of weight 256 to the power of `i`. */
  lemma {:induction false} LittleEndianDigit(n: nat, width: nat, i: nat)
    requires i < width
    ensures LittleEndian(n, width)[i] as nat == n / Pow256(i) % 256
    decreases width
  {
    assert LittleEndian(n, width)[1..] == LittleEndian(n / 256, width - 1);
    if i == 0 {
      ByteRoundTrip(n % 256);
    } else {
      LittleEndianDigit(n / 256, width - 1, i - 1);
      QuotientOfQuotient(n, 256, Pow256(i - 1));
    }
  }

  /** Equal fixed-width encodings come from equal numbers. */
  lemma LittleEndianInjective(a: nat, b: nat, width: nat)
    requires a < Pow256(width) && b < Pow256(width) && LittleEndian(a, width) == LittleEndian(b, width)
    ensures a == b
  {
    LittleEndianRoundTrip(a, width);
    LittleEndianRoundTrip(b, width);
  }

  lemma WidthsInUse()
    ensures Pow256(4) == U32 && Pow256(8) == U64
  {
    assert Pow256(1) == 256 && Pow256(2) == 0x1_0000 && Pow256(3) == 0x100_0000;
    assert Pow256(4) == U32 && Pow256(5) == 0x100_0000_0000 && Pow256(6) == 0x1_0000_0000_0000;
  }

  // ---------- The order of keys ----------

  /** Lexicographic order on byte strings of equal length. */
  predicate Less(a: seq<byte>, b: seq<byte>)
    requires |a| == |b|
  {
    |a| > 0 && (a[0] < b[0] || (a[0] == b[0] && Less(a[1..], b[1..])))
  }

  /** `a` is less than `b` exactly when it has the smaller byte at the first place where they differ. */
  lemma {:induction false} LessIffFirstDifference(a: seq<byte>, b: seq<byte>)
    requires |a| == |b|
    ensures Less(a, b) <==> exists i :: 0 <= i < |a| && a[..i] == b[..i] && a[i] < b[i]
  {
    if |a| > 0 {
      LessIffFirstDifference(a[1..], b[1..]);
      if a[0] == b[0] && Less(a[1..], b[1..]) {
        var i :| 0 <= i < |a[1..]| && a[1..][..i] == b[1..][..i] && a[1..][i] < b[1..][i];
        assert a[..i + 1] == [a[0]] + a[1..][..i] && b[..i + 1] == [b[0]] + b[1..][..i];
      }
      if i :| 0 <= i < |a| && a[..i] == b[..i] && a[i] < b[i] {
        if i > 0 {
          assert a[..i][0] == b[..i][0];
          assert a[1..][..i - 1] == a[..i][1..] && b[1..][..i - 1] == b[..i][1..];
        }
      }
    }
  }

  lemma {:induction false} LessTransitive(a: seq<byte>, b: seq<byte>, c: seq<byte>)
    requires |a| == |b| == |c| && Less(a, b) && Less(b, c)
    ensures Less(a, c)
  {
    if a[0] == b[0] && b[0] == c[0] {
      LessTransitive(a[1..], b[1..], c[1..]);
    }
  }

  /** Of two keys exactly one of less, equal and greater holds. */
  lemma {:induction false} LessTrichotomy(a: seq<byte>, b: seq<byte>)
    requires |a| == |b|
    ensures a == b ==> !Less(a, b) && !Less(b, a)
    ensures a != b ==> Less(a, b) || Less(b, a)
    ensures !(Less(a, b) && Less(b, a))
  {
    if |a| > 0 {
      LessTrichotomy(a[1..], b[1..]);
      assert a == [a[0]] + a[1..] && b == [b[0]] + b[1..];
    }
  }
}
