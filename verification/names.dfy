/** The raw `_name` of a `Validated` event is a `bytes32`, which the contract
    binding hands over as `"0x"` followed by 64 lower-case hex digits. Before
    decoding it, the formatter removes the zero padding with
    `replace(/0+$/g, "")`. This module models that strip, the hex encoding
    it works on, and a whole-byte strip that removes padding bytes only. */
module Names {

  /** `s` with its maximal run of trailing `'0'` characters removed is `p`:
      a prefix of `s` that does not end in `'0'`, followed in `s` only by `'0'`s. */
  predicate ZeroStripped(p: string, s: string) {
    && p <= s
    && (p == [] || p[|p| - 1] != '0')
    && forall k :: |p| <= k < |s| ==> s[k] == '0'
  }

  /** `s.replace(/0+$/g, "")`: without the `m` flag `$` matches only at the end
      of the input, so the one match is the longest run of `'0'` characters
      that ends the string. */
  function StripTrailingZeros(s: string): (r: string)
    ensures ZeroStripped(r, s)
  {
    if |s| > 0 && s[|s| - 1] == '0' then StripTrailingZeros(s[..|s| - 1]) else s
  }

  /** `ZeroStripped` has exactly one solution, so it fully specifies the strip. */
  lemma ZeroStrippedUnique(p: string, s: string)
    requires ZeroStripped(p, s)
    ensures p == StripTrailingZeros(s)
  {
  }

  /** Stripping is idempotent. */
  lemma StripTrailingZerosIdempotent(s: string)
    ensures StripTrailingZeros(StripTrailingZeros(s)) == StripTrailingZeros(s)
  {
  }

  /** Appending more `'0'`s does not change the result of the strip. */
  lemma StripIgnoresZeroSuffix(s: string, z: string)
    requires forall k :: 0 <= k < |z| ==> z[k] == '0'
    ensures StripTrailingZeros(s + z) == StripTrailingZeros(s)
  {
    var r := StripTrailingZeros(s);
    var t := s + z;
    forall k | |r| <= k < |t|
      ensures t[k] == '0'
    {
      if k >= |s| {
        assert t[k] == z[k - |s|];
      }
    }
    assert ZeroStripped(r, t);
    ZeroStrippedUnique(r, t);
  }

  // ---------------------------------------------------------------------------
  // Hex encoding of a bytes32 value

  type byte = x: int | 0 <= x < 256

  /** The lower-case hex digit of a nibble. */
  function HexDigit(n: int): (c: char)
    requires 0 <= n < 16
    ensures c == '0' <==> n == 0
  {
    if n < 10 then ('0' as int + n) as char else ('a' as int + n - 10) as char
  }

  /** The two hex digits of one byte, high nibble first. */
  function ByteHex(b: byte): (h: string)
    ensures |h| == 2
    ensures h == "00" <==> b == 0
    ensures h[1] == '0' <==> b % 16 == 0
  {
    [HexDigit(b / 16), HexDigit(b % 16)]
  }

  function HexDigits(bs: seq<byte>): (h: string)
    ensures |h| == 2 * |bs|
  {
    if bs == [] then "" else ByteHex(bs[0]) + HexDigits(bs[1..])
  }

  /** The string form of a byte array as the contract binding returns it. */
  function Hex(bs: seq<byte>): (h: string)
    ensures |h| == 2 + 2 * |bs|
    ensures h[..2] == "0x"
  {
    "0x" + HexDigits(bs)
  }

  function Zeros(k: nat): (z: seq<byte>)
    ensures |z| == k
    ensures forall i :: 0 <= i < k ==> z[i] == 0
  {
    seq(k, i => 0)
  }

  lemma {:induction false} HexDigitsAppend(a: seq<byte>, b: seq<byte>)
    ensures HexDigits(a + b) == HexDigits(a) + HexDigits(b)
  {
    if a == [] {
      assert a + b == b;
    } else {
      assert (a + b)[1..] == a[1..] + b;
      HexDigitsAppend(a[1..], b);
    }
  }

  /** The hex form of a non-empty byte array ends with the digits of its last byte. */
  lemma HexEndsWithLastByte(bs: seq<byte>)
    requires |bs| > 0
    ensures Hex(bs)[|Hex(bs)| - 2..] == ByteHex(bs[|bs| - 1])
  {
    var n := |bs|;
    assert bs == bs[..n - 1] + [bs[n - 1]];
    HexDigitsAppend(bs[..n - 1], [bs[n - 1]]);
    assert HexDigits([bs[n - 1]]) == ByteHex(bs[n - 1]);
  }

  /** Padding a byte array with `k` zero bytes appends `2k` `'0'` digits. */
  lemma {:induction false} HexOfZeroPadding(bs: seq<byte>, k: nat)
    ensures Hex(bs + Zeros(k)) == Hex(bs) + HexDigits(Zeros(k))
    ensures forall i :: 0 <= i < |HexDigits(Zeros(k))| ==> HexDigits(Zeros(k))[i] == '0'
  {
    HexDigitsAppend(bs, Zeros(k));
    assert Hex(bs + Zeros(k)) == "0x" + (HexDigits(bs) + HexDigits(Zeros(k)));
    ZeroDigits(k);
  }

  lemma {:induction false} ZeroDigits(k: nat)
    ensures forall i :: 0 <= i < |HexDigits(Zeros(k))| ==> HexDigits(Zeros(k))[i] == '0'
  {
    if k > 0 {
      assert Zeros(k)[1..] == Zeros(k - 1);
      ZeroDigits(k - 1);
    }
  }

  // ---------------------------------------------------------------------------
  // What the strip does to a padded name

  /** The strip as written recovers the unpadded hex of a name exactly when the
      name's last byte has a non-zero low nibble; otherwise it also removes that
      nibble's `'0'` digit and leaves an odd number of hex digits. */
  lemma StripAsWrittenKeepsLastByteIff(bs: seq<byte>, k: nat)
    requires |bs| > 0 && bs[|bs| - 1] != 0
    ensures StripTrailingZeros(Hex(bs + Zeros(k))) == Hex(bs) <==> bs[|bs| - 1] % 16 != 0
    ensures bs[|bs| - 1] % 16 == 0 ==>
              StripTrailingZeros(Hex(bs + Zeros(k))) == Hex(bs)[..|Hex(bs)| - 1]
  {
    var h := Hex(bs);
    var last := bs[|bs| - 1];
    HexOfZeroPadding(bs, k);
    StripIgnoresZeroSuffix(h, HexDigits(Zeros(k)));
    HexEndsWithLastByte(bs);
    assert h[|h| - 2] == ByteHex(last)[0] && h[|h| - 1] == ByteHex(last)[1];
    if last % 16 != 0 {
      assert ZeroStripped(h, h);
      ZeroStrippedUnique(h, h);
    } else {
      var p := h[..|h| - 1];
      assert last / 16 != 0;
      assert p[|p| - 1] != '0';
      assert ZeroStripped(p, h);
      ZeroStrippedUnique(p, h);
    }
  }

  /** The name `"p"` (byte 0x70), padded to 32 bytes, strips to `"0x7"`. */
  lemma NameEndingInLetterP()
    ensures StripTrailingZeros(Hex([0x70] + Zeros(31))) == "0x7"
  {
    StripAsWrittenKeepsLastByteIff([0x70], 31);
    assert Hex([0x70]) == "0x70";
  }

  /** Removes trailing `"00"` pairs, i.e. whole zero bytes, and never touches
      the `"0x"` prefix. */
  function StripZeroBytes(h: string): (r: string)
    ensures r <= h
    ensures |r| % 2 == |h| % 2
    ensures forall k :: |r| <= k < |h| ==> h[k] == '0'
    ensures !(|r| >= 4 && r[|r| - 2..] == "00")
  {
    if |h| >= 4 && h[|h| - 2..] == "00" then StripZeroBytes(h[..|h| - 2]) else h
  }

  /** The whole-byte strip inverts the zero padding of any name whose last byte
      is not zero. */
  lemma {:induction false} StripZeroBytesRoundTrip(bs: seq<byte>, k: nat)
    requires bs == [] || bs[|bs| - 1] != 0
    ensures StripZeroBytes(Hex(bs + Zeros(k))) == Hex(bs)
  {
    if k == 0 {
      assert bs + Zeros(0) == bs;
      if bs != [] {
        HexEndsWithLastByte(bs);
      }
    } else {
      var h := Hex(bs + Zeros(k));
      assert bs + Zeros(k) == (bs + Zeros(k - 1)) + [0];
      HexDigitsAppend(bs + Zeros(k - 1), [0]);
      assert HexDigits([0]) == "00";
      assert h == Hex(bs + Zeros(k - 1)) + "00";
      assert h[..|h| - 2] == Hex(bs + Zeros(k - 1));
      StripZeroBytesRoundTrip(bs, k - 1);
    }
  }
}
