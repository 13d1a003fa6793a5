/**
 * The UTF-8 encoding (`str.encode("utf-8")`) and the byte classes the
 * chunker looks at: a continuation byte is one of the form `10xxxxxx`.
 */
module Utf8 {

  /** A byte as Python's `bytes` indexing gives it: an integer from 0 to 255. */
  newtype byte = x: int | 0 <= x < 0x100

  /**
   * `(b & 0b11000000) == 0b10000000`: the byte continues a multi-byte
   * character. For a byte, masking with 0xC0 keeps its top two bits, which
   * is `b / 64 * 64`.
   */
  predicate IsCont(b: byte)
  {
    b / 64 * 64 == 0x80
  }

  /** The continuation bytes are exactly 0x80 to 0xBF. */
  lemma IsContRange(b: byte)
    ensures IsCont(b) <==> 0x80 <= b as int < 0xC0
  {
  }

  /** The one to four bytes of one character. */
  function EncodeChar(c: char): (r: seq<byte>)
    ensures 1 <= |r| <= 4
    ensures !IsCont(r[0]) && forall k :: 1 <= k < |r| ==> IsCont(r[k])
    ensures |r| == 1 <==> (c as int) < 0x80
    ensures (r[0] as int < 0x80) == (|r| == 1)
  {
    var n := c as int;
    if n < 0x80 then
      [n as byte]
    else if n < 0x800 then
      Cont2(n)
    else if n < 0x10000 then
      Cont3(n)
    else
      Cont4(n)
  }

  function Cont2(n: int): (r: seq<byte>)
    requires 0x80 <= n < 0x800
    ensures |r| == 2 && 0xC0 <= r[0] as int && !IsCont(r[0]) && IsCont(r[1])
  {
    var b0, b1 := 0xC0 + n / 64, 0x80 + n % 64;
    assert 0xC0 <= b0 < 0xE0;
    [b0 as byte, b1 as byte]
  }

  function Cont3(n: int): (r: seq<byte>)
    requires 0x800 <= n < 0x10000
    ensures |r| == 3 && 0xC0 <= r[0] as int && !IsCont(r[0]) && IsCont(r[1]) && IsCont(r[2])
  {
    var b0, b1, b2 := 0xE0 + n / 4096, 0x80 + n / 64 % 64, 0x80 + n % 64;
    assert 0xE0 <= b0 < 0xF0;
    [b0 as byte, b1 as byte, b2 as byte]
  }

  function Cont4(n: int): (r: seq<byte>)
    requires 0x10000 <= n < 0x110000
    ensures |r| == 4 && 0xC0 <= r[0] as int && !IsCont(r[0]) && IsCont(r[1]) && IsCont(r[2]) && IsCont(r[3])
  {
    var b0, b1, b2, b3 := 0xF0 + n / 262144, 0x80 + n / 4096 % 64, 0x80 + n / 64 % 64, 0x80 + n % 64;
    assert 0xF0 <= b0 < 0xF8;
    [b0 as byte, b1 as byte, b2 as byte, b3 as byte]
  }

  /** `s.encode("utf-8")`. */
  function Encode(s: string): (r: seq<byte>)
    ensures |r| >= |s|
    ensures s != [] ==> r != [] && !IsCont(r[0])
  {
    if s == [] then [] else EncodeChar(s[0]) + Encode(s[1..])
  }

  /** Encoding distributes over concatenation. */
  lemma {:induction false} EncodeAppend(a: string, b: string)
    ensures Encode(a + b) == Encode(a) + Encode(b)
  {
    if a != [] {
      EncodeAppend(a[1..], b);
      assert (a + b)[0] == a[0];
      assert (a + b)[1..] == a[1..] + b;
      calc {
        Encode(a + b);
        EncodeChar(a[0]) + Encode(a[1..] + b);
        EncodeChar(a[0]) + (Encode(a[1..]) + Encode(b));
        (EncodeChar(a[0]) + Encode(a[1..])) + Encode(b);
      }
    } else {
      assert a + b == b;
    }
  }

  lemma EncodeOne(s: string, a: char)
    requires s == [a]
    ensures Encode(s) == EncodeChar(a)
  {
    assert s[1..] == [];
  }

  lemma EncodeTwo(s: string, a: char, b: char)
    requires s == [a, b]
    ensures Encode(s) == EncodeChar(a) + EncodeChar(b)
  {
    assert s[1..] == [b];
    EncodeOne(s[1..], b);
  }

  lemma EncodeThree(s: string, a: char, b: char, c: char)
    requires s == [a, b, c]
    ensures Encode(s) == EncodeChar(a) + EncodeChar(b) + EncodeChar(c)
  {
    assert s[1..] == [b, c];
    EncodeTwo(s[1..], b, c);
  }

  /** Bytes `k` to `k + m - 1` are all continuation bytes. */
  predicate AllCont(data: seq<byte>, k: int, m: int)
    requires 0 <= k && k + m <= |data|
  {
    forall t :: k <= t < k + m ==> IsCont(data[t])
  }

  /** Every window of four bytes holds a byte that is not a continuation byte. */
  predicate NoContRun4(data: seq<byte>)
  {
    forall k :: 0 <= k && k + 4 <= |data| ==> !AllCont(data, k, 4)
  }

  /**
   * An encoding never holds four continuation bytes in a row: each character
   * contributes at most three, behind a byte that is not one.
   */
  lemma {:induction false} EncodeNoContRun(s: string)
    ensures NoContRun4(Encode(s))
  {
    if s != [] {
      var x := EncodeChar(s[0]);
      var rest := Encode(s[1..]);
      var d := x + rest;
      assert Encode(s) == d;
      EncodeNoContRun(s[1..]);
      forall k | 0 <= k && k + 4 <= |d|
        ensures !AllCont(d, k, 4)
      {
        if k == 0 {
          assert d[0] == x[0];
        } else if k < |x| {
          // The window runs into the first byte of the next character.
          assert rest != [];
          assert s[1..] != [];
          assert d[|x|] == rest[0] && !IsCont(rest[0]);
          assert k <= |x| < k + 4;
        } else {
          assert !AllCont(rest, k - |x|, 4);
          var t :| k - |x| <= t < k - |x| + 4 && !IsCont(rest[t]);
          assert d[t + |x|] == rest[t];
        }
      }
    }
  }

  /** An encoding ends in an ASCII byte or a continuation byte, never in a lead byte. */
  lemma {:induction false} EncodeNeverEndsInLead(s: string)
    requires s != []
    ensures var d := Encode(s); d[|d| - 1] as int < 0x80 || IsCont(d[|d| - 1])
  {
    var x := EncodeChar(s[0]);
    var rest := Encode(s[1..]);
    assert Encode(s) == x + rest;
    if s[1..] == [] {
      assert rest == [];
      assert Encode(s)[|Encode(s)| - 1] == x[|x| - 1];
    } else {
      EncodeNeverEndsInLead(s[1..]);
      assert Encode(s)[|Encode(s)| - 1] == rest[|rest| - 1];
    }
  }

  /** A text whose last character is ASCII ends in that byte, which is not a continuation byte. */
  lemma EncodeLastAscii(s: string)
    requires s != [] && (s[|s| - 1] as int) < 0x80
    ensures var d := Encode(s); d[|d| - 1] as int == s[|s| - 1] as int && !IsCont(d[|d| - 1])
  {
    var c := s[|s| - 1];
    var front := s[..|s| - 1];
    assert s == front + [c];
    EncodeAppend(front, [c]);
    assert [c][1..] == [];
    assert Encode([c]) == EncodeChar(c) == [(c as int) as byte];
  }
}
