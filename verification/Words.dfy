/** Bytes, 32-bit integers in network order, and the size_t arithmetic of the decoder. */
module Words {
  type Byte = b: int | 0 <= b < 256
  type Int32 = x: int | -0x8000_0000 <= x < 0x8000_0000

  const TWO_32: int := 0x1_0000_0000
  const TWO_64: int := 0x1_0000_0000_0000_0000

  /** Conversion of a wider integer to int32_t: two's complement truncation. */
  function ToInt32(x: int): (r: Int32)
    ensures (r - x) % TWO_32 == 0
  {
    var u := x % TWO_32;
    if u < 0x8000_0000 then u else u - TWO_32
  }

  /** Conversion of an integer to size_t. */
  function ToSizeT(x: int): (r: nat)
    ensures r < TWO_64 && (0 <= x < TWO_64 ==> r == x)
  {
    x % TWO_64
  }

  /** htonl followed by memcpy. */
  function NetBytes(x: Int32): (s: seq<Byte>)
    ensures |s| == 4
  {
    var u := x % TWO_32;
    [u / 256 / 256 / 256, u / 256 / 256 % 256, u / 256 % 256, u % 256]
  }

  /** get_int32_from_net_bytes: memcpy followed by ntohl. */
  function FromNetBytes(s: seq<Byte>): Int32
    requires |s| == 4
  {
    ToInt32(Join(s[0], s[1], s[2], s[3]))
  }

  function Join(a: int, b: int, c: int, d: int): int {
    ((a * 256 + b) * 256 + c) * 256 + d
  }

  lemma Int32Unique(x: Int32, y: Int32)
    requires (x - y) % TWO_32 == 0
    ensures x == y
  {
  }

  lemma Digit(q: int, r: int)
    requires 0 <= r < 256
    ensures (q * 256 + r) / 256 == q && (q * 256 + r) % 256 == r
  {
  }

  lemma Signed(x: Int32)
    ensures 0 <= x % TWO_32 < TWO_32 && ToInt32(x % TWO_32) == x
  {
    assert x % TWO_32 == if x < 0 then x + TWO_32 else x;
  }

  lemma ByteDigits(u: nat)
    requires u < TWO_32
    ensures Join(u / 256 / 256 / 256, u / 256 / 256 % 256, u / 256 % 256, u % 256) == u
  {
    var q1 := u / 256;
    var q2 := q1 / 256;
    var q3 := q2 / 256;
    assert u == q1 * 256 + u % 256;
    assert q1 == q2 * 256 + q1 % 256;
    assert q2 == q3 * 256 + q2 % 256;
  }

  /** Every integer, negative ones included, survives the trip through its four bytes. */
  lemma NetBytesRoundTrip(x: Int32)
    ensures FromNetBytes(NetBytes(x)) == x
  {
    Signed(x);
    ByteDigits(x % TWO_32);
  }

  lemma FromNetBytesRoundTrip(s: seq<Byte>)
    requires |s| == 4
    ensures NetBytes(FromNetBytes(s)) == s
  {
    var a: int, b: int, c: int, d: int := s[0], s[1], s[2], s[3];
    var u := Join(a, b, c, d);
    Digit((a * 256 + b) * 256 + c, d);
    Digit(a * 256 + b, c);
    Digit(a, b);
    assert ToInt32(u) % TWO_32 == u;
  }

  /** The four bytes are the integer's two's complement, most significant byte first. */
  lemma BigEndian(x: Int32)
    ensures var s: seq<int> := NetBytes(x);
            x % 0x1_0000_0000 == s[0] * 0x100_0000 + s[1] * 0x1_0000 + s[2] * 0x100 + s[3]
  {
    var s := NetBytes(x);
    ByteDigits(x % TWO_32);
    JoinIsSum(s[0], s[1], s[2], s[3]);
  }

  lemma ReadsBigEndian(s: seq<Byte>)
    requires |s| == 4
    ensures var b: seq<int> := s;
            FromNetBytes(s) % 0x1_0000_0000 == b[0] * 0x100_0000 + b[1] * 0x1_0000 + b[2] * 0x100 + b[3]
  {
    FromNetBytesRoundTrip(s);
    BigEndian(FromNetBytes(s));
  }

  lemma JoinIsSum(a: int, b: int, c: int, d: int)
    ensures Join(a, b, c, d) == a * 0x100_0000 + b * 0x1_0000 + c * 0x100 + d
  {
  }

  /** `size() < len` with an int32_t on the right compares unsigned: for every buffer that fits in
      memory it is false exactly when len is non-negative and available. */
  lemma UnsignedCompare(size: nat, len: Int32)
    requires size < TWO_64 / 2
    ensures size < ToSizeT(len) <==> !(0 <= len <= size)
  {
  }
}
