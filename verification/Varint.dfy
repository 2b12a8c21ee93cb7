/** Base-128 varints (Protocol Buffers Encoding, "Base 128 Varints") as web3.pb.go writes and reads them. */
module Varint {
  import opened Common

  type byte = b: int | 0 <= b < 256

  datatype ReadError = IntOverflow | UnexpectedEOF

  /** A value and the number of bytes it took, or an error. */
  datatype Read = Value(v: nat, size: nat) | Failed(error: ReadError)

  /** The encoding: seven bits per byte, low bits first, the high bit set on all but the last byte. */
  function Encode(v: nat): (r: seq<byte>)
    ensures |r| > 0
  {
    if v < 128 then [v] else [v % 128 + 128] + Encode(v / 128)
  }

  function Pow128(k: nat): (r: nat)
    ensures r > 0
  {
    if k == 0 then 1 else 128 * Pow128(k - 1)
  }

  /** The seven bits of the k-th byte in their place; what exceeds 64 bits is lost. */
  function Placed(b: byte, k: nat): nat { (b % 128 * Pow128(k)) % UINT64_LIMIT }

  /**
   * The reading loop after k bytes with the bits collected so far in acc. A tenth byte is the last one allowed.
   */
  function ReadFrom(data: seq<byte>, k: nat, acc: nat): (r: Read)
    ensures r.Value? ==> k < r.size <= k + |data| && r.size <= 10
    decreases |data|
  {
    if k >= 10 then Failed(IntOverflow)
    else if data == [] then Failed(UnexpectedEOF)
    else
      var acc' := acc + Placed(data[0], k);
      if data[0] < 128 then Value(acc', k + 1) else ReadFrom(data[1..], k + 1, acc')
  }

  function Decode(data: seq<byte>): (r: Read)
    ensures r.Value? ==> 0 < r.size <= |data|
  {
    ReadFrom(data, 0, 0)
  }

  /** Whatever follows, reading gives back the value. */
  lemma {:induction false} ReadsBack(v: nat, k: nat, acc: nat, rest: seq<byte>)
    requires acc + v * Pow128(k) < UINT64_LIMIT && (v > 0 || k == 0)
    ensures ReadFrom(Encode(v) + rest, k, acc) == Value(acc + v * Pow128(k), k + |Encode(v)|)
  {
    hide Pow128, Placed;
    var data := Encode(v) + rest;
    KBound(v, k);
    if v < 128 {
      assert data[0] == v;
      PlacedWhole(v, v, k);
    } else {
      assert data[0] == v % 128 + 128;
      assert data[1..] == Encode(v / 128) + rest;
      SplitValue(v, k);
      PlacedWhole(v % 128 + 128, v % 128, k);
      ReadsBack(v / 128, k + 1, acc + v % 128 * Pow128(k), rest);
    }
  }

  lemma PlacedWhole(b: byte, d: nat, k: nat)
    requires d == b % 128 && d * Pow128(k) < UINT64_LIMIT
    ensures Placed(b, k) == d * Pow128(k)
  {
  }

  lemma SplitValue(v: nat, k: nat)
    requires v >= 128
    ensures v * Pow128(k) == v % 128 * Pow128(k) + v / 128 * Pow128(k + 1)
    ensures v % 128 * Pow128(k) <= v * Pow128(k)
  {
    var p, q, r := Pow128(k), v / 128, v % 128;
    Distribute(q, r, p);
  }

  lemma Distribute(q: nat, r: nat, p: nat)
    ensures (128 * q + r) * p == r * p + q * (128 * p)
    ensures r * p >= 0 && q * (128 * p) >= 0
  {
  }

  lemma PowersOf128()
    ensures Pow128(9) == 0x8000_0000_0000_0000 && Pow128(10) == 128 * Pow128(9)
  {
    assert Pow128(3) == 0x20_0000;
    assert Pow128(6) == 0x400_0000_0000;
  }

  lemma {:induction false} BigPowers(k: nat)
    ensures k >= 10 ==> Pow128(k) >= UINT64_LIMIT
  {
    if k == 10 { PowersOf128(); } else if k > 10 { BigPowers(k - 1); }
  }

  lemma TimesAtLeast(v: nat, p: nat)
    requires v > 0
    ensures v * p >= p
  {
    assert v * p == (v - 1) * p + p;
  }

  lemma KBound(v: nat, k: nat)
    requires v * Pow128(k) < UINT64_LIMIT && (v > 0 || k == 0)
    ensures k < 10
  {
    hide Pow128;
    BigPowers(k);
    if v > 0 { TimesAtLeast(v, Pow128(k)); }
  }

  /** decode(encode(v)) == v, for every uint64 and any bytes after it. */
  lemma RoundTrip(v: nat, rest: seq<byte>)
    requires v < UINT64_LIMIT
    ensures Decode(Encode(v) + rest) == Value(v, |Encode(v)|)
  {
    ReadsBack(v, 0, 0, rest);
  }

  /** A successful read does not look past the bytes it took. */
  lemma {:induction false} ReadIsLocal(data: seq<byte>, k: nat, acc: nat, rest: seq<byte>)
    requires ReadFrom(data, k, acc).Value?
    ensures ReadFrom(data + rest, k, acc) == ReadFrom(data, k, acc)
    decreases |data|
  {
    hide Placed;
    assert (data + rest)[0] == data[0];
    if data[0] >= 128 {
      assert (data + rest)[1..] == data[1..] + rest;
      ReadIsLocal(data[1..], k + 1, acc + Placed(data[0], k), rest);
    }
  }

  /**
   * Reading ends at the first byte without the high bit, if that is among the first ten; with fewer than ten
   * bytes, all marked, the data ended too soon; ten marked bytes are an overflow.
   */
  lemma {:induction false} ReadEnds(data: seq<byte>, k: nat, acc: nat, i: nat)
    requires k <= 10 && i <= |data| && k + i <= 10 && forall j | 0 <= j < i :: data[j] >= 128
    ensures var r := ReadFrom(data, k, acc);
            && (k + i < 10 && i < |data| && data[i] < 128 ==> r.Value? && r.size == k + i + 1)
            && (k + i < 10 && i == |data| ==> r == Failed(UnexpectedEOF))
            && (k + i == 10 ==> r == Failed(IntOverflow))
    decreases i
  {
    hide Placed;
    if i > 0 {
      ReadEnds(data[1..], k + 1, acc + Placed(data[0], k), i - 1);
    }
  }

  // --- The encoding by its bytes ---

  /** The number whose base-128 digits, lowest first, are the low seven bits of the bytes. */
  function Digits(bytes: seq<byte>): nat {
    if bytes == [] then 0 else bytes[0] % 128 + 128 * Digits(bytes[1..])
  }

  /** The high bit marks all bytes but the last, and the last is zero only when it is alone. */
  ghost predicate IsMinimal(bytes: seq<byte>) {
    && bytes != [] && (forall i :: 0 <= i < |bytes| ==> (bytes[i] >= 128 <==> i < |bytes| - 1))
    && (|bytes| > 1 ==> bytes[|bytes| - 1] > 0)
  }

  lemma {:induction false} MinimalIsPositive(bytes: seq<byte>)
    requires IsMinimal(bytes) && (|bytes| > 1 || bytes[0] > 0)
    ensures Digits(bytes) > 0
  {
    if |bytes| > 1 {
      MinimalIsPositive(bytes[1..]);
    }
  }

  lemma {:induction false} EncodeIsMinimal(v: nat)
    ensures IsMinimal(Encode(v)) && Digits(Encode(v)) == v
  {
    var bytes := Encode(v);
    if v < 128 {
      assert bytes[1..] == [];
    } else {
      EncodeIsMinimal(v / 128);
      assert bytes[1..] == Encode(v / 128);
      assert forall i :: 0 < i < |bytes| ==> bytes[i] == bytes[1..][i - 1];
    }
  }

  lemma {:induction false} MinimalIsEncoding(bytes: seq<byte>)
    requires IsMinimal(bytes)
    ensures Encode(Digits(bytes)) == bytes
  {
    if |bytes| == 1 {
      assert bytes == [bytes[0]] && bytes[1..] == [];
    } else {
      var rest := bytes[1..];
      assert IsMinimal(rest);
      MinimalIsPositive(rest);
      MinimalIsEncoding(rest);
      EncodeDigit(bytes[0], Digits(rest));
      assert bytes == [bytes[0]] + rest;
    }
  }

  lemma EncodeDigit(b: byte, d: nat)
    requires b >= 128 && d > 0
    ensures Encode(b % 128 + 128 * d) == [b] + Encode(d)
  {
    DigitSplits(b % 128, d);
  }

  lemma DigitSplits(low: nat, d: nat)
    requires low < 128
    ensures (low + 128 * d) % 128 == low && (low + 128 * d) / 128 == d
  {
  }

  /** The encoding of v is the one minimal list of bytes whose digits make v. */
  lemma EncodeIs(v: nat, bytes: seq<byte>)
    ensures bytes == Encode(v) <==> IsMinimal(bytes) && Digits(bytes) == v
  {
    hide IsMinimal, Digits;
    EncodeIsMinimal(v);
    if IsMinimal(bytes) { MinimalIsEncoding(bytes); }
  }

  // --- The size formula ---

  function BitLen(x: nat): nat { if x == 0 then 0 else 1 + BitLen(x / 2) }

  function OrOne(x: nat): nat { if x % 2 == 0 then x + 1 else x }

  /** sovWeb3: (bits.Len64(x|1) + 6) / 7. */
  function Size(x: nat): nat { (BitLen(OrOne(x)) + 6) / 7 }

  lemma BitLenOfShift(x: nat)
    requires x >= 128
    ensures BitLen(x) == 7 + BitLen(x / 128)
  {
    assert BitLen(x) == 1 + BitLen(x / 2);
    assert BitLen(x / 2) == 1 + BitLen(x / 2 / 2);
    assert BitLen(x / 4) == 1 + BitLen(x / 4 / 2);
    assert BitLen(x / 8) == 1 + BitLen(x / 8 / 2);
    assert BitLen(x / 16) == 1 + BitLen(x / 16 / 2);
    assert BitLen(x / 32) == 1 + BitLen(x / 32 / 2);
    assert BitLen(x / 64) == 1 + BitLen(x / 64 / 2);
    assert x / 2 / 2 == x / 4 && x / 4 / 2 == x / 8 && x / 8 / 2 == x / 16 && x / 16 / 2 == x / 32 &&
      x / 32 / 2 == x / 64 && x / 64 / 2 == x / 128;
  }

  lemma BitLenOfOrOne(x: nat)
    requires x > 0
    ensures BitLen(OrOne(x)) == BitLen(x)
  {
    assert OrOne(x) / 2 == x / 2;
  }

  lemma {:induction false} SmallBitLen(x: nat)
    requires 0 < x < 128
    ensures 1 <= BitLen(x) <= 7
  {
    if x > 1 {
      assert BitLen(x) == 1 + BitLen(x / 2);
      BitLenBound(x, 7);
    }
  }

  function Pow2(k: nat): nat { if k == 0 then 1 else 2 * Pow2(k - 1) }

  lemma {:induction false} BitLenBound(x: nat, k: nat)
    requires x < Pow2(k)
    ensures BitLen(x) <= k
  {
    if k > 0 && x > 0 { BitLenBound(x / 2, k - 1); }
  }

  /** The formula is the length of the encoding. */
  lemma {:induction false} SizeIsLength(x: nat)
    ensures Size(x) == |Encode(x)|
  {
    if x < 128 {
      SmallBitLen(OrOne(x));
    } else {
      SizeIsLength(x / 128);
      BitLenOfOrOne(x);
      BitLenOfOrOne(x / 128);
      BitLenOfShift(x);
    }
  }
}
