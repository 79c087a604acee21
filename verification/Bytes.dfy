/** Bytes and the UTF-8 encoding (section 3 of RFC 3629). */
module Bytes {
  newtype Byte = b: int | 0 <= b < 256

  const NL: Byte := 10

  function Utf8Char(c: char): (bs: seq<Byte>)
    ensures bs != []
    ensures NL in bs <==> c == '\n'
  {
    var n := c as int;
    if n < 0x80 then
      [n as Byte]
    else if n < 0x800 then
      [(0xC0 + n / 0x40) as Byte, (0x80 + n % 0x40) as Byte]
    else if n < 0x10000 then
      [(0xE0 + n / 0x1000) as Byte, (0x80 + n / 0x40 % 0x40) as Byte, (0x80 + n % 0x40) as Byte]
    else
      [(0xF0 + n / 0x40000) as Byte, (0x80 + n / 0x1000 % 0x40) as Byte,
       (0x80 + n / 0x40 % 0x40) as Byte, (0x80 + n % 0x40) as Byte]
  }

  ghost predicate Continuation(b: Byte) {
    0x80 <= b as int < 0xC0
  }

  /** The byte sequences of section 3 of RFC 3629: the number is in the low bits, in the shortest form. */
  ghost predicate Encodes(bs: seq<Byte>, n: int) {
    if |bs| == 1 then 0 <= n < 0x80 && bs[0] as int == n
    else if |bs| == 2 then
      && 0x80 <= n < 0x800 && Continuation(bs[1])
      && n == (bs[0] as int - 0xC0) * 0x40 + (bs[1] as int - 0x80)
    else if |bs| == 3 then
      && 0x800 <= n < 0x10000 && Continuation(bs[1]) && Continuation(bs[2])
      && n == (bs[0] as int - 0xE0) * 0x1000 + (bs[1] as int - 0x80) * 0x40 + (bs[2] as int - 0x80)
    else
      && |bs| == 4 && 0x10000 <= n && Continuation(bs[1]) && Continuation(bs[2]) && Continuation(bs[3])
      && n == (bs[0] as int - 0xF0) * 0x40000 + (bs[1] as int - 0x80) * 0x1000
              + (bs[2] as int - 0x80) * 0x40 + (bs[3] as int - 0x80)
  }

  /** A character's bytes are the one sequence that encodes its number. */
  lemma Utf8Exactly(c: char, bs: seq<Byte>)
    ensures Utf8Char(c) == bs <==> Encodes(bs, c as int)
  {
    OwnEncoding(c);
    if Encodes(bs, c as int) {
      EncodingUnique(bs, Utf8Char(c), c as int);
    }
  }

  lemma OwnEncoding(c: char)
    ensures Encodes(Utf8Char(c), c as int)
  {
    Digits(c as int);
  }

  lemma EncodingUnique(bs: seq<Byte>, bs': seq<Byte>, n: int)
    requires Encodes(bs, n) && Encodes(bs', n)
    ensures bs == bs'
  {
    assert |bs| == |bs'|;
    var v, v' := Low(bs), Low(bs');
    if |bs| == 1 {
      assert bs == [bs[0]] && bs' == [bs'[0]];
    } else if |bs| == 2 {
      DigitsTold(bs[0] as int - 0xC0, v[1], bs'[0] as int - 0xC0, v'[1]);
      assert bs == [bs[0], bs[1]] && bs' == [bs'[0], bs'[1]];
    } else if |bs| == 3 {
      var x, x' := (bs[0] as int - 0xE0) * 0x40 + v[1], (bs'[0] as int - 0xE0) * 0x40 + v'[1];
      DigitsTold(x, v[2], x', v'[2]);
      DigitsTold(bs[0] as int - 0xE0, v[1], bs'[0] as int - 0xE0, v'[1]);
      assert bs == [bs[0], bs[1], bs[2]] && bs' == [bs'[0], bs'[1], bs'[2]];
    } else {
      var x, x' := (bs[0] as int - 0xF0) * 0x40 + v[1], (bs'[0] as int - 0xF0) * 0x40 + v'[1];
      DigitsTold(x * 0x40 + v[2], v[3], x' * 0x40 + v'[2], v'[3]);
      DigitsTold(x, v[2], x', v'[2]);
      DigitsTold(bs[0] as int - 0xF0, v[1], bs'[0] as int - 0xF0, v'[1]);
      assert bs == [bs[0], bs[1], bs[2], bs[3]] && bs' == [bs'[0], bs'[1], bs'[2], bs'[3]];
    }
  }

  ghost function Low(bs: seq<Byte>): (v: seq<int>)
    ensures |v| == |bs| && forall i :: 0 <= i < |bs| ==> v[i] == bs[i] as int - 0x80
  {
    seq(|bs|, i requires 0 <= i < |bs| => bs[i] as int - 0x80)
  }

  lemma DigitsTold(a: int, b: int, a': int, b': int)
    requires 0 <= b < 0x40 && 0 <= b' < 0x40 && a * 0x40 + b == a' * 0x40 + b'
    ensures a == a' && b == b'
  {
  }

  /** `as_bytes` of a string. */
  function Utf8(s: string): seq<Byte> {
    if s == [] then [] else Utf8Char(s[0]) + Utf8(s[1..])
  }

  lemma {:induction false} Utf8Append(s: string, t: string)
    ensures Utf8(s + t) == Utf8(s) + Utf8(t)
  {
    if s == [] {
      assert s + t == t;
    } else {
      calc {
        Utf8(s + t);
        Utf8Char((s + t)[0]) + Utf8((s + t)[1..]);
        { assert (s + t)[0] == s[0] && (s + t)[1..] == s[1..] + t; }
        Utf8Char(s[0]) + Utf8(s[1..] + t);
        { Utf8Append(s[1..], t); }
        Utf8Char(s[0]) + (Utf8(s[1..]) + Utf8(t));
        (Utf8Char(s[0]) + Utf8(s[1..])) + Utf8(t);
        Utf8(s) + Utf8(t);
      }
    }
  }

  /** No character's encoding starts another's: the first character and what follows it can be told. */
  lemma Utf8CharFirst(c: char, u: seq<Byte>, d: char, v: seq<Byte>)
    requires Utf8Char(c) + u == Utf8Char(d) + v
    ensures c == d && u == v
  {
    var x, y := Utf8Char(c), Utf8Char(d);
    assert x[0] == (x + u)[0] == (y + v)[0] == y[0];
    assert |x| == |y|;
    assert forall i :: 0 <= i < |x| ==> x[i] == (x + u)[i] == (y + v)[i] == y[i];
    assert u == (x + u)[|x|..] && v == (y + v)[|y|..];
    SameBytesSameChar(c, d);
  }

  lemma SameBytesSameChar(c: char, d: char)
    requires |Utf8Char(c)| == |Utf8Char(d)|
    requires forall i :: 0 <= i < |Utf8Char(c)| ==> Utf8Char(c)[i] == Utf8Char(d)[i]
    ensures c == d
  {
    var n, m := c as int, d as int;
    var x, y := Utf8Char(c), Utf8Char(d);
    var k := |x| - 1;
    assert x[0] == y[0] && x[k] == y[k];
    assert k >= 2 ==> x[k - 1] == y[k - 1];
    assert k == 3 ==> x[1] == y[1];
    Digits(n);
    Digits(m);
  }

  /** The base-64 digits of a number. */
  lemma Digits(n: nat)
    ensures n == n / 0x40 * 0x40 + n % 0x40
    ensures n / 0x40 == n / 0x1000 * 0x40 + n / 0x40 % 0x40
    ensures n / 0x1000 == n / 0x40000 * 0x40 + n / 0x1000 % 0x40
  {
  }

  /** Different texts have different encodings. */
  lemma {:induction false} Utf8Injective(s: string, t: string)
    requires Utf8(s) == Utf8(t)
    ensures s == t
  {
    if s != [] && t != [] {
      Utf8CharFirst(s[0], Utf8(s[1..]), t[0], Utf8(t[1..]));
      Utf8Injective(s[1..], t[1..]);
      assert s == [s[0]] + s[1..] && t == [t[0]] + t[1..];
    }
  }

  /** A newline byte in the encoding is a newline character in the text, and only that. */
  lemma {:induction false} Utf8Newline(s: string)
    ensures NL in Utf8(s) <==> '\n' in s
  {
    if s != [] {
      Utf8Newline(s[1..]);
      assert s == [s[0]] + s[1..];
    }
  }
}
