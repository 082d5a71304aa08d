/**
 * The textual and fixed-width encodings the tree emits: lowercase hex
 * (`buf.toString('hex')`, `bufferToHex`), 32-byte big-endian words
 * (`setLengthLeft(toBuffer(n), 32)`) and the decimal rendering of an amount.
 */
module Encoding {
  import opened Wrappers
  import opened ByteOrder

  function HexDigit(d: nat): char
    requires d < 16
  {
    if d < 10 then ('0' as int + d) as char else ('a' as int + d - 10) as char
  }

  /** The value of one lowercase hex digit. */
  function HexDigitValue(c: char): Option<nat> {
    if '0' <= c <= '9' then Some(c as int - '0' as int)
    else if 'a' <= c <= 'f' then Some(c as int - 'a' as int + 10)
    else None
  }

  function ByteToHex(b: Byte): string {
    [HexDigit(b as nat / 16), HexDigit(b as nat % 16)]
  }

  /** `buf.toString('hex')`: two lowercase hex digits per byte. */
  function BytesToHex(bs: Bytes): (s: string)
    ensures |s| == 2 * |bs|
  {
    if bs == [] then "" else ByteToHex(bs[0]) + BytesToHex(bs[1..])
  }

  /** Reads back what BytesToHex writes; None on an odd length or a non-hex character. */
  function HexToBytes(s: string): Option<Bytes> {
    if |s| == 0 then Some([])
    else if |s| == 1 then None
    else
      match (HexDigitValue(s[0]), HexDigitValue(s[1]), HexToBytes(s[2..]))
      case (Some(hi), Some(lo), Some(rest)) =>
        if hi < 16 && lo < 16 then Some([(hi * 16 + lo) as Byte] + rest) else None
      case _ => None
  }

  /** The hex of an all-zero buffer is all '0' digits. */
  lemma {:induction false} ZeroBytesHex(n: nat)
    ensures BytesToHex(seq(n, _ => 0 as Byte)) == seq(2 * n, _ => '0')
  {
    if n > 0 {
      var z := seq(n, _ => 0 as Byte);
      assert z[1..] == seq(n - 1, _ => 0 as Byte);
      ZeroBytesHex(n - 1);
      assert ByteToHex(z[0]) == "00";
    }
  }

  /** `bufferToHex(buf)`: "0x" followed by the hex digits of the buffer. */
  function BufferToHex(bs: Bytes): (s: string)
    ensures |s| == 2 + 2 * |bs| && s[..2] == "0x"
  {
    "0x" + BytesToHex(bs)
  }

  lemma HexDigitRoundTrip(d: nat)
    requires d < 16
    ensures HexDigitValue(HexDigit(d)) == Some(d)
  {
  }

  lemma ByteHexRoundTrip(b: Byte)
    ensures HexDigitValue(ByteToHex(b)[0]) == Some(b as nat / 16)
    ensures HexDigitValue(ByteToHex(b)[1]) == Some(b as nat % 16)
    ensures ((b as nat / 16) * 16 + b as nat % 16) as Byte == b
  {
    var v := b as nat;
    HexDigitRoundTrip(v / 16);
    HexDigitRoundTrip(v % 16);
    assert (v / 16) * 16 + v % 16 == v;
  }

  lemma {:induction false} HexRoundTrip(bs: Bytes)
    ensures HexToBytes(BytesToHex(bs)) == Some(bs)
  {
    if bs != [] {
      var s := BytesToHex(bs);
      HexRoundTrip(bs[1..]);
      assert s == ByteToHex(bs[0]) + BytesToHex(bs[1..]);
      assert s[2..] == BytesToHex(bs[1..]);
      assert s[0] == ByteToHex(bs[0])[0] && s[1] == ByteToHex(bs[0])[1];
      ByteHexRoundTrip(bs[0]);
      assert bs == [bs[0]] + bs[1..];
    }
  }

  lemma {:induction false} BytesToHexAppend(a: Bytes, b: Bytes)
    ensures BytesToHex(a + b) == BytesToHex(a) + BytesToHex(b)
  {
    if a != [] {
      assert (a + b)[1..] == a[1..] + b;
      BytesToHexAppend(a[1..], b);
    } else {
      assert a + b == b;
    }
  }

  function Pow256(k: nat): (p: nat)
    ensures p > 0
  {
    if k == 0 then 1 else 256 * Pow256(k - 1)
  }

  /** The last `len` bytes of the big-endian form of `n`, zero-padded on the left. */
  function BigEndian(n: nat, len: nat): (b: Bytes)
    ensures |b| == len
  {
    if len == 0 then [] else BigEndian(n / 256, len - 1) + [(n % 256) as Byte]
  }

  function BigEndianValue(b: Bytes): nat {
    if b == [] then 0 else BigEndianValue(b[..|b| - 1]) * 256 + b[|b| - 1] as nat
  }

  lemma ZeroMultiple(k: int, d: int)
    requires d > 0 && -d < k * d < d
    ensures k == 0
  {
  }

  lemma ModUnique(n: int, d: int, q: int, m: int)
    requires d > 0 && 0 <= m < d && n == q * d + m
    ensures n % d == m && n / d == q
  {
    assert (q - n / d) * d == n % d - m;
    ZeroMultiple(q - n / d, d);
  }

  lemma ModSplit(n: nat, p: nat)
    requires p > 0
    ensures ((n / 256) % p) * 256 + n % 256 == n % (256 * p)
  {
    var q, r := n / 256, n % 256;
    var a, c := q / p, q % p;
    assert n == (a * p + c) * 256 + r;
    assert n == a * (256 * p) + (c * 256 + r);
    assert c * 256 + r < 256 * p by {
      assert c <= p - 1;
      assert c * 256 <= (p - 1) * 256;
    }
    ModUnique(n, 256 * p, a, c * 256 + r);
  }

  lemma BigEndianStep(n: nat, len: nat)
    requires len > 0
    ensures BigEndianValue(BigEndian(n, len)) == BigEndianValue(BigEndian(n / 256, len - 1)) * 256 + n % 256
  {
    var b := BigEndian(n, len);
    assert b[..len - 1] == BigEndian(n / 256, len - 1);
  }


  /** BigEndian keeps `n` modulo 256^len: the bytes above the width are dropped. */
  lemma {:induction false} BigEndianRoundTrip(n: nat, len: nat)
    ensures BigEndianValue(BigEndian(n, len)) == n % Pow256(len)
  {
    if len > 0 {
      var p := Pow256(len - 1);
      BigEndianStep(n, len);
      BigEndianRoundTrip(n / 256, len - 1);
      ModSplit(n, p);
    }
  }

  lemma {:induction false} BigEndianOfValue(b: Bytes)
    ensures BigEndianValue(b) < Pow256(|b|)
    ensures BigEndian(BigEndianValue(b), |b|) == b
  {
    if b != [] {
      var init, last := b[..|b| - 1], b[|b| - 1] as nat;
      BigEndianOfValue(init);
      var v := BigEndianValue(b);
      assert v == BigEndianValue(init) * 256 + last;
      ModUnique(v, 256, BigEndianValue(init), last);
      assert v < Pow256(|b|) by {
        assert BigEndianValue(init) <= Pow256(|init|) - 1;
        assert BigEndianValue(init) * 256 <= (Pow256(|init|) - 1) * 256;
      }
      assert b == init + [b[|b| - 1]];
    }
  }

  /** `setLengthLeft(toBuffer(n), 32)`: a 32-byte big-endian word; a longer buffer keeps its last 32 bytes. */
  function ToWord(n: nat): Digest {
    BigEndian(n, 32)
  }

  /** A word holds its number modulo 2^256, exactly when the number fits. */
  lemma WordRoundTrip(n: nat)
    ensures BigEndianValue(ToWord(n)) == n % Pow256(32)
    ensures n < Pow256(32) ==> BigEndianValue(ToWord(n)) == n
  {
    BigEndianRoundTrip(n, 32);
    if n < Pow256(32) {
      ModUnique(n, Pow256(32), 0, n);
    }
  }

  /** Every 32-byte word is the word of its own value, so two numbers below 2^256 never share a word. */
  lemma WordOfValue(w: Digest)
    ensures BigEndianValue(w) < Pow256(32)
    ensures ToWord(BigEndianValue(w)) == w
  {
    BigEndianOfValue(w);
  }

  function DecimalDigit(d: nat): char
    requires d < 10
  {
    ('0' as int + d) as char
  }

  predicate IsDigit(c: char) {
    '0' <= c <= '9'
  }

  /** The decimal rendering of an amount (JavaScript's `'' + n` for a non-negative integer). */
  function Decimal(n: nat): (s: string)
    ensures |s| >= 1
    ensures forall i :: 0 <= i < |s| ==> IsDigit(s[i])
  {
    if n < 10 then [DecimalDigit(n)] else Decimal(n / 10) + [DecimalDigit(n % 10)]
  }

  function ParseDecimal(s: string): nat {
    if s == [] then 0
    else
      var c := s[|s| - 1];
      ParseDecimal(s[..|s| - 1]) * 10 + (if IsDigit(c) then c as int - '0' as int else 0)
  }

  lemma {:induction false} DecimalRoundTrip(n: nat)
    ensures ParseDecimal(Decimal(n)) == n
  {
    if n >= 10 {
      var s := Decimal(n);
      assert s[..|s| - 1] == Decimal(n / 10);
      DecimalRoundTrip(n / 10);
    }
  }
}
