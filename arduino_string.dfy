/**
 * The parts of the Arduino `String` class and of the C library that the bell
 * controller's core relies on: characters as bytes, `strcmp` ordering,
 * decimal and hexadecimal conversion, and `substring`.
 *
 * An Arduino `String` is a sequence of 8-bit characters. It is modelled as a
 * Dafny `string`; a character is stored into a byte by truncating its code to
 * 8 bits, and a byte read back becomes the character with that code.
 */
module ArduinoString {

  /** An unsigned 8-bit value, `uint8_t`. */
  type byte = x: int | 0 <= x < 256

  /** An unsigned 32-bit value, as returned by `millis()` and `micros()`. */
  type uint32 = x: int | 0 <= x < 0x1_0000_0000

  /** A signed 32-bit value, the width of `int` on the target. */
  type int32 = x: int | -0x8000_0000 <= x < 0x8000_0000

  const NUL: char := 0 as char

  /** The byte a character occupies in a C string (the conversion to `uint8_t`). */
  function ByteOf(c: char): byte
  {
    ((c as int) % 256) as byte
  }

  /** The character a byte read back from storage becomes. */
  function CharOf(b: byte): char
  {
    (b as int) as char
  }

  predicate IsByteChar(c: char)
  {
    (c as int) < 256
  }

  /** Every character fits in one byte, as every character of an Arduino String does. */
  predicate IsByteString(s: string)
  {
    forall i :: 0 <= i < |s| ==> IsByteChar(s[i])
  }

  predicate NulFree(s: string)
  {
    forall i :: 0 <= i < |s| ==> s[i] != NUL
  }

  /** The bytes `c_str()` hands to a C routine (without the terminator). */
  function Bytes(s: string): (r: seq<byte>)
    ensures |r| == |s|
    ensures forall i :: 0 <= i < |s| ==> r[i] == ByteOf(s[i])
    ensures IsByteString(s) ==> forall i :: 0 <= i < |s| ==> CharOf(r[i]) == s[i]
  {
    var r := seq(|s|, i requires 0 <= i < |s| => ByteOf(s[i]));
    assert forall i :: 0 <= i < |s| && IsByteChar(s[i]) ==> CharOf(r[i]) == s[i] by {
      forall i | 0 <= i < |s| && IsByteChar(s[i]) {
        CharOfByteOf(s[i]);
      }
    }
    r
  }

  /** The bytes of a concatenation are the bytes of its parts, in order: `salt + password` hashes as the salt's bytes then the password's. */
  lemma BytesAppend(a: string, b: string)
    ensures Bytes(a + b) == Bytes(a) + Bytes(b)
  {
    var l, r := Bytes(a + b), Bytes(a) + Bytes(b);
    forall i | 0 <= i < |l|
      ensures l[i] == r[i]
    {
      if i < |a| {
        assert (a + b)[i] == a[i];
      } else {
        assert (a + b)[i] == b[i - |a|];
      }
    }
  }

  lemma CharOfByteOf(c: char)
    requires IsByteChar(c)
    ensures CharOf(ByteOf(c)) == c
    ensures c != NUL ==> ByteOf(c) != 0
  {
    assert (c as int) % 256 == c as int;
  }

  /**
   * `a < b` as Arduino's `String::compareTo` (that is, `strcmp`) decides it:
   * the first differing character decides, and a proper prefix is smaller.
   */
  predicate Less(a: string, b: string)
    ensures Less(a, b) ==> a != b
    ensures |a| < |b| && a == b[..|a|] ==> Less(a, b)
  {
    if b == [] then false
    else if a == [] then true
    else if a[0] != b[0] then a[0] < b[0]
    else
      assert |a| < |b| && a == b[..|a|] ==> a[1..] == b[1..][..|a| - 1];
      Less(a[1..], b[1..])
  }

  /** `strcmp` order is a strict total order: never both ways, and one way for any two different strings. */
  lemma {:induction false} LessTotalOrder(a: string, b: string)
    ensures Less(a, b) ==> !Less(b, a)
    ensures a != b ==> Less(a, b) || Less(b, a)
    decreases |a|
  {
    if a != [] && b != [] && a[0] == b[0] {
      LessTotalOrder(a[1..], b[1..]);
      assert a == [a[0]] + a[1..] && b == [b[0]] + b[1..];
    }
  }

  lemma {:induction false} LessTransitive(a: string, b: string, c: string)
    requires Less(a, b) && Less(b, c)
    ensures Less(a, c)
    decreases |a|
  {
    if a != [] && a[0] == b[0] && b[0] == c[0] {
      LessTransitive(a[1..], b[1..], c[1..]);
    }
  }

  /** The character of a decimal digit. */
  function Digit(d: nat): (c: char)
    requires d < 10
  {
    ('0' as int + d) as char
  }

  /** `String(n)` for an unsigned value: its decimal digits, without padding. */
  function Decimal(n: nat): (r: string)
    ensures |r| >= 1
    ensures n < 10 <==> |r| == 1
    ensures 10 <= n < 100 ==> r == [Digit(n / 10), Digit(n % 10)]
    decreases n
  {
    if n < 10 then [Digit(n)] else Decimal(n / 10) + [Digit(n % 10)]
  }

  /** The character of a hexadecimal digit, lower case as `utoa` and `%x` write it. */
  function HexDigit(d: nat): (c: char)
    requires d < 16
  {
    if d < 10 then ('0' as int + d) as char else ('a' as int + (d - 10)) as char
  }

  /** `String(n, HEX)`: the hexadecimal digits of `n`, without padding. */
  function HexString(n: nat): (r: string)
    ensures |r| >= 1
    ensures n < 16 <==> |r| == 1
    ensures n < 16 ==> r == [HexDigit(n)]
    ensures 16 <= n < 256 ==> r == [HexDigit(n / 16), HexDigit(n % 16)]
    decreases n
  {
    if n < 16 then [HexDigit(n)] else HexString(n / 16) + [HexDigit(n % 16)]
  }

  /**
   * `String::substring(left, right)`: the bounds are swapped when out of order,
   * a start at or past the end gives the empty string, and the end is clamped
   * to the length.
   */
  function Substring(s: string, left: nat, right: nat): (r: string)
    ensures |r| <= |s|
    ensures left <= right && right <= |s| ==> r == s[left..right]
  {
    var lo := if left <= right then left else right;
    var hi := if left <= right then right else left;
    if lo >= |s| then "" else s[lo..if hi > |s| then |s| else hi]
  }
}
