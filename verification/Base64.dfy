/** Base 64 with the standard alphabet and padding (section 4 of RFC 4648). */
module Base64 {
  import opened Wrappers
  import opened Bytes

  type Sextet = n: nat | n < 64

  /** The character of a six-bit group: table 1 of RFC 4648. */
  function Digit(n: Sextet): (c: char)
    ensures c != '=' && c != '@'
  {
    if n < 26 then ('A' as int + n) as char
    else if n < 52 then ('a' as int + (n - 26)) as char
    else if n < 62 then ('0' as int + (n - 52)) as char
    else if n == 62 then '+'
    else '/'
  }

  lemma DigitInjective(m: Sextet, n: Sextet)
    requires Digit(m) == Digit(n)
    ensures m == n
  {
  }

  /** Three bytes as four characters. */
  function EncodeGroup(a: Byte, b: Byte, c: Byte): (s: string)
    ensures |s| == 4 && '=' !in s && '@' !in s
  {
    var (x, y, z) := (a as int, b as int, c as int);
    [Digit(x / 4), Digit(x % 4 * 16 + y / 16), Digit(y % 16 * 4 + z / 64), Digit(z % 64)]
  }

  function Encode(bytes: seq<Byte>): string {
    if |bytes| == 0 then ""
    else if |bytes| == 1 then
      [Digit(bytes[0] as int / 4), Digit(bytes[0] as int % 4 * 16), '=', '=']
    else if |bytes| == 2 then
      EncodeGroup(bytes[0], bytes[1], 0)[..3] + "="
    else EncodeGroup(bytes[0], bytes[1], bytes[2]) + Encode(bytes[3..])
  }

  /** The value of a character: its place in table 1 of RFC 4648. */
  ghost function CharValue(c: char): Option<nat> {
    if 'A' <= c <= 'Z' then Some(c as int - 'A' as int)
    else if 'a' <= c <= 'z' then Some(26 + (c as int - 'a' as int))
    else if '0' <= c <= '9' then Some(52 + (c as int - '0' as int))
    else if c == '+' then Some(62)
    else if c == '/' then Some(63)
    else None
  }

  lemma DigitValue(n: Sextet)
    ensures CharValue(Digit(n)) == Some(n)
  {
  }

  /** The four characters are the 24 bits of the bytes, six at a time and most significant first. */
  lemma GroupValue(a: Byte, b: Byte, c: Byte)
    ensures var s := EncodeGroup(a, b, c);
            && (forall i :: 0 <= i < 4 ==> CharValue(s[i]).Some?)
            && CharValue(s[0]).value * 0x40000 + CharValue(s[1]).value * 0x1000
               + CharValue(s[2]).value * 0x40 + CharValue(s[3]).value
               == a as int * 0x10000 + b as int * 0x100 + c as int
  {
    var (x, y, z) := (a as int, b as int, c as int);
    DigitValue(x / 4);
    DigitValue(x % 4 * 16 + y / 16);
    DigitValue(y % 16 * 4 + z / 64);
    DigitValue(z % 64);
  }

  /** Four characters determine their three bytes. */
  lemma GroupInjective(a: Byte, b: Byte, c: Byte, a': Byte, b': Byte, c': Byte)
    requires EncodeGroup(a, b, c) == EncodeGroup(a', b', c')
    ensures a == a' && b == b' && c == c'
  {
    var s, s' := EncodeGroup(a, b, c), EncodeGroup(a', b', c');
    assert s[0] == s'[0] && s[1] == s'[1] && s[2] == s'[2] && s[3] == s'[3];
    DigitInjective(a as int / 4, a' as int / 4);
    DigitInjective(a as int % 4 * 16 + b as int / 16, a' as int % 4 * 16 + b' as int / 16);
    DigitInjective(b as int % 16 * 4 + c as int / 64, b' as int % 16 * 4 + c' as int / 64);
    DigitInjective(c as int % 64, c' as int % 64);
  }

  /** The first four characters are free of `=` and `@` and tell exactly the first three bytes. */
  lemma FirstFour(bytes: seq<Byte>, bytes': seq<Byte>)
    requires |bytes| >= 3 && |bytes'| >= 3
    ensures |Encode(bytes)| >= 4 && |Encode(bytes')| >= 4
    ensures '=' !in Encode(bytes)[..4] && '@' !in Encode(bytes)[..4]
    ensures Encode(bytes)[..4] == Encode(bytes')[..4] <==> bytes[..3] == bytes'[..3]
  {
    EncodePrefix(bytes);
    EncodePrefix(bytes');
    if Encode(bytes)[..4] == Encode(bytes')[..4] {
      GroupInjective(bytes[0], bytes[1], bytes[2], bytes'[0], bytes'[1], bytes'[2]);
      assert bytes[..3] == [bytes[0], bytes[1], bytes[2]];
      assert bytes'[..3] == [bytes'[0], bytes'[1], bytes'[2]];
    }
    assert bytes[0] == bytes[..3][0] && bytes[1] == bytes[..3][1] && bytes[2] == bytes[..3][2];
    assert bytes'[0] == bytes'[..3][0] && bytes'[1] == bytes'[..3][1] && bytes'[2] == bytes'[..3][2];
  }

  lemma EncodePrefix(bytes: seq<Byte>)
    requires |bytes| >= 3
    ensures |Encode(bytes)| >= 4 && Encode(bytes)[..4] == EncodeGroup(bytes[0], bytes[1], bytes[2])
  {
  }
}
