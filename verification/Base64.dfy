/** Standard Base64, section 4 of RFC 4648: CouchDB orders hash keys by their Base64 text. */
module Base64 {
  import opened Prelude

  // 'A'-'Z', 'a'-'z', '0'-'9', '+', '/'
  function Digit(n: int): (c: byte)
    requires 0 <= n < 64
    ensures c != PAD
  {
    if n < 26 then 65 + n
    else if n < 52 then 97 + n - 26
    else if n < 62 then 48 + n - 52
    else if n == 62 then 43
    else 47
  }

  const PAD: byte := 61

  function Encode(data: Bytes): Bytes {
    if data == [] then []
    else if |data| == 1 then [Digit(data[0] / 4), Digit(data[0] % 4 * 16), PAD, PAD]
    else if |data| == 2 then
      [Digit(data[0] / 4), Digit(data[0] % 4 * 16 + data[1] / 16), Digit(data[1] % 16 * 4), PAD]
    else
      [Digit(data[0] / 4), Digit(data[0] % 4 * 16 + data[1] / 16), Digit(data[1] % 16 * 4 + data[2] / 64),
       Digit(data[2] % 64)] + Encode(data[3..])
  }

  lemma DigitInjective(a: int, b: int)
    requires 0 <= a < 64 && 0 <= b < 64 && Digit(a) == Digit(b)
    ensures a == b
  {
  }

  // The six-bit groups of three bytes determine the bytes.
  lemma GroupInjective(a: byte, b: byte, c: byte, x: byte, y: byte, z: byte)
    requires Digit(a / 4) == Digit(x / 4)
    requires Digit(a % 4 * 16 + b / 16) == Digit(x % 4 * 16 + y / 16)
    requires Digit(b % 16 * 4 + c / 64) == Digit(y % 16 * 4 + z / 64)
    requires Digit(c % 64) == Digit(z % 64)
    ensures a == x && b == y && c == z
  {
    DigitInjective(a / 4, x / 4);
    DigitInjective(a % 4 * 16 + b / 16, x % 4 * 16 + y / 16);
    DigitInjective(b % 16 * 4 + c / 64, y % 16 * 4 + z / 64);
    DigitInjective(c % 64, z % 64);
  }

  lemma {:induction false} EncodeInjective(a: Bytes, b: Bytes)
    requires Encode(a) == Encode(b)
    ensures a == b
  {
    var x, y := Encode(a), Encode(b);
    if a == [] || b == [] {
    } else {
      assert x[0] == y[0] && x[1] == y[1] && x[2] == y[2] && x[3] == y[3];
      assert (x[2] == PAD <==> |a| == 1) && (x[3] == PAD <==> |a| <= 2);
      assert (y[2] == PAD <==> |b| == 1) && (y[3] == PAD <==> |b| <= 2);
      if |a| == 1 {
        GroupInjective(a[0], 0, 0, b[0], 0, 0);
      } else if |a| == 2 {
        GroupInjective(a[0], a[1], 0, b[0], b[1], 0);
      } else {
        GroupInjective(a[0], a[1], a[2], b[0], b[1], b[2]);
        assert x[4..] == Encode(a[3..]) && y[4..] == Encode(b[3..]);
        EncodeInjective(a[3..], b[3..]);
        assert a == [a[0], a[1], a[2]] + a[3..] && b == [b[0], b[1], b[2]] + b[3..];
      }
    }
  }

  /* The encoding of the standard. */

  lemma DigitAlphabet(n: int)
    requires 0 <= n < 64
    ensures n < 26 ==> Digit(n) == 'A' as int + n
    ensures 26 <= n < 52 ==> Digit(n) == 'a' as int + (n - 26)
    ensures 52 <= n < 62 ==> Digit(n) == '0' as int + (n - 52)
    ensures Digit(62) == '+' as int && Digit(63) == '/' as int && PAD == '=' as int
  {
  }

  // Three bytes are the four digits of one 24-bit number.
  lemma EncodeThree(data: Bytes) returns (d: int, e: int, f: int, g: int)
    requires |data| >= 3
    ensures 0 <= d < 64 && 0 <= e < 64 && 0 <= f < 64 && 0 <= g < 64
    ensures var a: int, b: int, c: int := data[0], data[1], data[2];
            d * 262144 + e * 4096 + f * 64 + g == a * 65536 + b * 256 + c
    ensures Encode(data) == [Digit(d), Digit(e), Digit(f), Digit(g)] + Encode(data[3..])
  {
    var a: int, b: int, c: int := data[0], data[1], data[2];
    d, e, f, g := a / 4, a % 4 * 16 + b / 16, b % 16 * 4 + c / 64, c % 64;
  }

  // One or two bytes left over are filled up with zero bits, and their text with padding.
  lemma EncodeTwo(data: Bytes) returns (d: int, e: int, f: int)
    requires |data| == 2
    ensures 0 <= d < 64 && 0 <= e < 64 && 0 <= f < 64
    ensures var a: int, b: int := data[0], data[1]; d * 4096 + e * 64 + f == a * 1024 + b * 4
    ensures Encode(data) == [Digit(d), Digit(e), Digit(f), PAD]
  {
    var a: int, b: int := data[0], data[1];
    d, e, f := a / 4, a % 4 * 16 + b / 16, b % 16 * 4;
  }

  lemma EncodeOne(data: Bytes) returns (d: int, e: int)
    requires |data| == 1
    ensures 0 <= d < 64 && 0 <= e < 64
    ensures var a: int := data[0]; d * 64 + e == a * 16
    ensures Encode(data) == [Digit(d), Digit(e), PAD, PAD]
  {
    var a: int := data[0];
    d, e := a / 4, a % 4 * 16;
  }
}
