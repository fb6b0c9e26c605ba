/** base64_encode of externals/httplib/httplib.h against section 4 of RFC 4648. */
module Base64 {

  type Byte = b: int | 0 <= b < 256

  // ----- the alphabet -----

  const UPPER := "ABCDEFGHIJKLM"
  const UPPER2 := "NOPQRSTUVWXYZ"
  const LOWER := "abcdefghijklm"
  const LOWER2 := "nopqrstuvwxyz"
  const OTHER := "0123456789+/"

  /** The lookup string, in pieces. */
  const TABLE := UPPER + UPPER2 + LOWER + LOWER2 + OTHER

  /** Table 1 of RFC 4648, as ranges. */
  function Digit(n: nat): char
    requires n < 64
  {
    if n < 26 then 'A' + n as char
    else if n < 52 then 'a' + (n - 26) as char
    else if n < 62 then '0' + (n - 52) as char
    else if n == 62 then '+' else '/'
  }

  function Value(c: char): (v: int)
    ensures -1 <= v < 64
  {
    if 'A' <= c <= 'Z' then c as int - 'A' as int
    else if 'a' <= c <= 'z' then c as int - 'a' as int + 26
    else if '0' <= c <= '9' then c as int - '0' as int + 52
    else if c == '+' then 62 else if c == '/' then 63 else -1
  }

  lemma Pieces(n: nat)
    requires n < 13
    ensures UPPER[n] == Digit(n) && UPPER2[n] == Digit(n + 13)
    ensures LOWER[n] == Digit(n + 26) && LOWER2[n] == Digit(n + 39)
    ensures n < 12 ==> OTHER[n] == Digit(n + 52)
  {
  }

  lemma TableIsDigits(n: nat)
    requires n < 64
    ensures |TABLE| == 64 && TABLE[n] == Digit(n)
  {
    hide Digit;
    var t := UPPER + UPPER2 + LOWER + LOWER2 + OTHER;
    if n < 13 {
      Pieces(n);
      assert t[n] == UPPER[n];
    } else if n < 26 {
      Pieces(n - 13);
      assert t[n] == UPPER2[n - 13];
    } else if n < 39 {
      Pieces(n - 26);
      assert t[n] == LOWER[n - 26];
    } else if n < 52 {
      Pieces(n - 39);
      assert t[n] == LOWER2[n - 39];
    } else {
      Pieces(n - 52);
      assert t[n] == OTHER[n - 52];
    }
  }

  lemma ValueOfDigit(n: nat)
    requires n < 64
    ensures Value(Digit(n)) == n && Digit(n) != '='
  {
  }

  // ----- the definition: three bytes to four digits -----

  /** The four six-bit groups of three bytes a, b, c. */
  function Six0(a: int): (n: nat)
    requires 0 <= a < 256
    ensures n < 64
  {
    a / 4
  }

  function Six1(a: int, b: int): (n: nat)
    requires 0 <= a < 256 && 0 <= b < 256
    ensures n < 64
  {
    a % 4 * 16 + b / 16
  }

  function Six2(b: int, c: int): (n: nat)
    requires 0 <= b < 256 && 0 <= c < 256
    ensures n < 64
  {
    b % 16 * 4 + c / 64
  }

  function Six3(c: int): (n: nat)
    requires 0 <= c < 256
    ensures n < 64
  {
    c % 64
  }

  function Quad(a: Byte, b: Byte, c: Byte): (q: string)
    ensures |q| == 4
  {
    [Digit(Six0(a)), Digit(Six1(a, b)), Digit(Six2(b, c)), Digit(Six3(c))]
  }

  function Encoded(s: seq<Byte>): string {
    if s == [] then ""
    else if |s| == 1 then [Digit(Six0(s[0])), Digit(Six1(s[0], 0)), '=', '=']
    else if |s| == 2 then [Digit(Six0(s[0])), Digit(Six1(s[0], s[1])), Digit(Six2(s[1], 0)), '=']
    else Quad(s[0], s[1], s[2]) + Encoded(s[3..])
  }

  /** Four digits, the last one or two of them perhaps '=', back to bytes. */
  function Group(a: char, b: char, c: char, d: char): seq<int> {
    [Value(a) * 4 + Value(b) / 16]
    + (if c == '=' then [] else [Value(b) % 16 * 16 + Value(c) / 4])
    + (if d == '=' then [] else [Value(c) % 4 * 64 + Value(d)])
  }

  function Decoded(t: string): seq<int>
    decreases |t|
  {
    if |t| < 4 then [] else Group(t[0], t[1], t[2], t[3]) + Decoded(t[4..])
  }

  lemma {:induction false} DecodedGroup(g: string, t: string)
    requires |g| == 4
    ensures Decoded(g + t) == Group(g[0], g[1], g[2], g[3]) + Decoded(t)
  {
    assert (g + t)[4..] == t;
  }

  lemma SixesBack(a: int, b: int, c: int)
    requires 0 <= a < 256 && 0 <= b < 256 && 0 <= c < 256
    ensures Six0(a) * 4 + Six1(a, b) / 16 == a
    ensures Six1(a, b) % 16 * 16 + Six2(b, c) / 4 == b
    ensures Six2(b, c) % 4 * 64 + Six3(c) == c
  {
  }

  lemma GroupBack(a: Byte, b: Byte, c: Byte)
    ensures var q := Quad(a, b, c); Group(q[0], q[1], q[2], q[3]) == [a, b, c]
    ensures Group(Digit(Six0(a)), Digit(Six1(a, b)), Digit(Six2(b, c)), '=') == [a, b]
    ensures Group(Digit(Six0(a)), Digit(Six1(a, b)), '=', '=') == [a]
  {
    hide Digit, Value, Six0, Six1, Six2, Six3;
    ValueOfDigit(Six0(a));
    ValueOfDigit(Six1(a, b));
    ValueOfDigit(Six2(b, c));
    ValueOfDigit(Six3(c));
    SixesBack(a, b, c);
  }

  /** Every three bytes, or fewer at the end, become four characters. */
  lemma {:induction false} EncodedLength(s: seq<Byte>)
    ensures |Encoded(s)| == 4 * ((|s| + 2) / 3)
  {
    hide Digit, Quad;
    if |s| >= 3 { EncodedLength(s[3..]); }
  }

  /** Decoding undoes encoding. */
  lemma {:induction false} RoundTrip(s: seq<Byte>)
    ensures Decoded(Encoded(s)) == s
  {
    hide Digit, Value, Six0, Six1, Six2, Group, Quad;
    if |s| == 1 {
      GroupBack(s[0], 0, 0);
      DecodedGroup(Encoded(s), "");
      assert Encoded(s) + "" == Encoded(s);
    } else if |s| == 2 {
      GroupBack(s[0], s[1], 0);
      DecodedGroup(Encoded(s), "");
      assert Encoded(s) + "" == Encoded(s);
    } else if |s| >= 3 {
      RoundTrip(s[3..]);
      GroupBack(s[0], s[1], s[2]);
      DecodedGroup(Quad(s[0], s[1], s[2]), Encoded(s[3..]));
      assert s == [s[0], s[1], s[2]] + s[3..];
    }
  }

  // ----- the code -----

  /** Signed 32-bit wrap-around, as left shifts have it. */
  function Wrap32(v: int): (r: int)
    ensures -0x8000_0000 <= r < 0x8000_0000
  {
    (v + 0x8000_0000) % 0x1_0000_0000 - 0x8000_0000
  }

  /** Wrapping keeps the low 16 bits. */
  lemma Wrap32Low(v: int)
    ensures Wrap32(v) % 0x10000 == v % 0x10000
  {
  }

  function Power2(n: nat): nat
    requires n <= 8
  {
    [1, 2, 4, 8, 16, 32, 64, 128, 256][n]
  }

  /** (val >> shift) & 0x3F with an arithmetic shift. */
  function Sextet(val: int, shift: nat): (n: nat)
    requires shift <= 8
    ensures n < 64
  {
    val / Power2(shift) % 64
  }

  /** The digits the inner loop emits. */
  function Emitted(val: int, valb: int): string
    requires valb <= 6
    decreases valb + 6
  {
    if valb < 0 then "" else [Digit(Sextet(val, valb))] + Emitted(val, valb - 6)
  }

  /** The digits that are complete after the bytes of `s`, without the leftover bits. */
  function Complete(s: seq<Byte>): string {
    if s == [] then ""
    else if |s| == 1 then [Digit(Six0(s[0]))]
    else if |s| == 2 then [Digit(Six0(s[0])), Digit(Six1(s[0], s[1]))]
    else Quad(s[0], s[1], s[2]) + Complete(s[3..])
  }

  /** What one more byte `c` completes. */
  function Completed(s: seq<Byte>, c: Byte): string {
    var n := |s|;
    if n % 3 == 0 then [Digit(Six0(c))]
    else if n % 3 == 1 then [Digit(Six1(s[n - 1], c))]
    else [Digit(Six2(s[n - 1], c)), Digit(Six3(c))]
  }

  lemma CompleteThree(a: Byte, b: Byte, c: Byte)
    ensures Complete([a, b] + [c]) == Complete([a, b]) + Completed([a, b], c)
  {
    assert ([a, b] + [c])[3..] == [];
    assert Complete([a, b] + [c]) == Quad(a, b, c) + Complete([]);
  }

  lemma {:induction false} CompleteMore(s: seq<Byte>, c: Byte)
    ensures Complete(s + [c]) == Complete(s) + Completed(s, c)
  {
    hide Digit, Six0, Six1, Six2, Six3, Quad;
    if |s| >= 3 {
      hide Completed;
      CompleteMore(s[3..], c);
      CompletedLast(s, c);
      assert (s + [c])[3..] == s[3..] + [c];
      var (a, b, d) := (Quad(s[0], s[1], s[2]), Complete(s[3..]), Completed(s, c));
      assert a + (b + d) == a + b + d;
    } else if |s| == 2 {
      CompleteThree(s[0], s[1], c);
      assert s == [s[0], s[1]];
    }
  }

  lemma CompletedLast(s: seq<Byte>, c: Byte)
    requires |s| >= 3
    ensures Completed(s[3..], c) == Completed(s, c)
  {
    hide Digit, Six0, Six1, Six2, Six3;
    if |s| > 3 { assert s[3..][|s| - 4] == s[|s| - 1]; }
  }

  /** The digit of the leftover bits and the padding. */
  function Closing(s: seq<Byte>): string {
    var n := |s|;
    if n % 3 == 0 then ""
    else if n % 3 == 1 then [Digit(Six1(s[n - 1], 0)), '=', '=']
    else [Digit(Six2(s[n - 1], 0)), '=']
  }

  lemma {:induction false} CompleteThenClosing(s: seq<Byte>)
    ensures Encoded(s) == Complete(s) + Closing(s)
  {
    hide Digit, Six0, Six1, Six2, Six3, Quad, Closing;
    if |s| >= 3 {
      CompleteThenClosing(s[3..]);
      ClosingLast(s);
    } else {
      CompleteShort(s);
    }
  }

  lemma ClosingLast(s: seq<Byte>)
    requires |s| >= 3
    ensures Closing(s) == Closing(s[3..])
  {
    hide Digit, Six1, Six2;
    if |s| > 3 { assert s[3..][|s| - 4] == s[|s| - 1]; }
  }

  lemma {:induction false} CompleteShort(s: seq<Byte>)
    requires |s| < 3
    ensures Encoded(s) == Complete(s) + Closing(s) && |Complete(s)| == |s|
  {
    hide Digit, Six0, Six1, Six2;
  }

  /** The accumulator's low bits: the last byte, and before it the one before. */
  ghost predicate Tracks(val: int, s: seq<Byte>) {
    |s| >= 1 ==> val % 256 == s[|s| - 1]
  }

  lemma Mod16Bits(q: int, r: int)
    requires 0 <= r < 0x10000
    ensures (q * 0x10000 + r) % 0x10000 == r
  {
  }

  lemma Mod64(k: int, r: int)
    requires 0 <= r < 64
    ensures (64 * k + r) % 64 == r
  {
  }

  lemma Quotients(k: int, c: int)
    ensures (4 * k + c) / 4 == k + c / 4 && (16 * k + c) / 16 == k + c / 16 && (64 * k + c) / 64 == k + c / 64
  {
  }

  lemma LowBits(val: int, wrapped: int, c: int)
    requires 0 <= c < 256 && wrapped % 0x10000 == (val * 256 + c) % 0x10000
    ensures wrapped % 256 == c && wrapped % 0x10000 == val % 256 * 256 + c
  {
    var q, r := val / 256, val % 256 * 256 + c;
    assert val == q * 256 + val % 256;
    Mod16Bits(q, r);
    LowByte(wrapped, wrapped / 0x10000, val % 256, c);
  }

  lemma LowByte(v: int, q: int, a: int, c: int)
    requires 0 <= c < 256 && v == q * 0x10000 + a * 256 + c
    ensures v % 256 == c
  {
    var k := q * 256 + a;
    assert v == 256 * k + c;
  }

  lemma Sextets(val: int, a: int, c: int)
    requires 0 <= a < 256 && 0 <= c < 256 && val % 0x10000 == a * 256 + c
    ensures Sextet(val, 2) == Six0(c) && Sextet(val, 4) == Six1(a, c)
    ensures Sextet(val, 6) == Six2(a, c) && Sextet(val, 0) == Six3(c)
  {
    assert Power2(2) == 4 && Power2(4) == 16 && Power2(6) == 64 && Power2(0) == 1;
    var q := val / 0x10000;
    assert val == q * 0x10000 + a * 256 + c;
    Sextet2(q, a, c);
    Sextet4(q, a, c);
    Sextet6(q, a, c);
    Sextet0(q, a, c);
  }

  lemma Sextet2(q: int, a: int, c: int)
    requires 0 <= a < 256 && 0 <= c < 256
    ensures (q * 0x10000 + a * 256 + c) / 4 % 64 == Six0(c)
  {
    Quotients(q * 0x4000 + a * 64, c);
    Mod64(q * 256 + a, c / 4);
  }

  lemma Sextet4(q: int, a: int, c: int)
    requires 0 <= a < 256 && 0 <= c < 256
    ensures (q * 0x10000 + a * 256 + c) / 16 % 64 == Six1(a, c)
  {
    Quotients(q * 0x1000 + a * 16, c);
    assert a * 16 == 64 * (a / 4) + a % 4 * 16;
    Mod64(q * 64 + a / 4, Six1(a, c));
  }

  lemma Sextet6(q: int, a: int, c: int)
    requires 0 <= a < 256 && 0 <= c < 256
    ensures (q * 0x10000 + a * 256 + c) / 64 % 64 == Six2(a, c)
  {
    Quotients(q * 0x400 + a * 4, c);
    assert a * 4 == 64 * (a / 16) + a % 16 * 4;
    Mod64(q * 16 + a / 16, Six2(a, c));
  }

  lemma Sextet0(q: int, a: int, c: int)
    requires 0 <= a < 256 && 0 <= c < 256
    ensures (q * 0x10000 + a * 256 + c) / 1 % 64 == Six3(c)
  {
    assert c == 64 * (c / 64) + c % 64;
    Mod64(q * 0x400 + a * 4 + c / 64, c % 64);
  }

  lemma EmitsCompleted(val: int, a: int, s: seq<Byte>, c: Byte, valb: int)
    requires valb == -6 + 2 * (|s| % 3) && 0 <= a < 256 && val % 0x10000 == a * 256 + c
    requires |s| >= 1 ==> a == s[|s| - 1]
    ensures Emitted(val, valb + 8) == Completed(s, c)
  {
    hide Digit, Sextet, Six0, Six1, Six2, Six3;
    Sextets(val, a, c);
    if |s| % 3 == 0 {
      assert Emitted(val, 2) == [Digit(Sextet(val, 2))] + Emitted(val, -4);
    } else if |s| % 3 == 1 {
      assert Emitted(val, 4) == [Digit(Sextet(val, 4))] + Emitted(val, -2);
    } else {
      assert Emitted(val, 6) == [Digit(Sextet(val, 6))] + Emitted(val, 0);
      assert Emitted(val, 0) == [Digit(Sextet(val, 0))] + Emitted(val, -6);
    }
  }

  /** One byte into the accumulator and the digits it completes out of it. */
  method Absorb(out0: string, val0: int, valb0: int, ghost s: seq<Byte>, c: Byte)
    returns (out: string, val: int, valb: int)
    requires valb0 == -6 + 2 * (|s| % 3) && Tracks(val0, s) && out0 == Complete(s)
    ensures valb == -6 + 2 * (|s + [c]| % 3) && Tracks(val, s + [c]) && out == Complete(s + [c])
  {
    hide Digit, Sextet, Wrap32, Complete, Completed;
    val := Wrap32(val0 * 256 + c);
    Wrap32Low(val0 * 256 + c);
    LowBits(val0, val, c);
    EmitsCompleted(val, val0 % 256, s, c, valb0);
    CompleteMore(s, c);
    out, valb := out0, valb0 + 8;
    ghost var all := out + Emitted(val, valb);
    while valb >= 0
      invariant -6 <= valb <= 6 && out + Emitted(val, valb) == all
      invariant valb == valb0 + 8 || valb == valb0 + 2 || valb == valb0 - 4
    {
      TableIsDigits(Sextet(val, valb));
      out := out + [TABLE[Sextet(val, valb)]];
      valb := valb - 6;
    }
  }

  /** All the bytes, one after the other. */
  method AbsorbAll(input: seq<Byte>) returns (out: string, val: int, valb: int)
    ensures valb == -6 + 2 * (|input| % 3) && Tracks(val, input) && out == Complete(input)
  {
    hide Complete;
    out, val, valb := "", 0, -6;
    NoneComplete();
    for i := 0 to |input|
      invariant valb == -6 + 2 * (i % 3) && Tracks(val, input[..i]) && out == Complete(input[..i])
    {
      assert input[..i + 1] == input[..i] + [input[i]];
      out, val, valb := Absorb(out, val, valb, input[..i], input[i]);
    }
    assert input[..|input|] == input;
  }

  method Encode(input: seq<Byte>) returns (out: string)
    ensures out == Encoded(input)
  {
    hide Digit, Sextet, Wrap32, Complete, Closing, Encoded;
    var val, valb;
    out, val, valb := AbsorbAll(input);
    CompleteThenClosing(input);
    EncodedLength(input);
    ClosingIs(input);
    if valb > -6 {
      LastSextet(val, input, valb);
      var n := Sextet(Wrap32(val * 256), valb + 8);
      TableIsDigits(n);
      out := out + [TABLE[n]];
    }
    PaddingLeft(Complete(input), Closing(input), out);
    out := Pad(out, Encoded(input));
  }

  lemma PaddingLeft(complete: string, closing: string, out: string)
    requires |closing| <= 3 && forall k :: 1 <= k < |closing| ==> closing[k] == '='
    requires out == if closing == "" then complete else complete + [closing[0]]
    ensures var goal := complete + closing;
      && |goal| - 2 <= |out| <= |goal| && out == goal[..|out|]
      && forall k :: |out| <= k < |goal| ==> goal[k] == '='
  {
  }

  /** Fills up with padding to a multiple of four. */
  method Pad(out0: string, ghost goal: string) returns (out: string)
    requires |goal| % 4 == 0 && |goal| - 2 <= |out0| <= |goal| && out0 == goal[..|out0|]
    requires forall k :: |out0| <= k < |goal| ==> goal[k] == '='
    ensures out == goal
  {
    out := out0;
    while |out| % 4 != 0
      invariant |goal| - 2 <= |out| <= |goal| && out == goal[..|out|]
      invariant forall k :: |out| <= k < |goal| ==> goal[k] == '='
      decreases |goal| - |out|
    {
      out := out + "=";
    }
  }

  lemma NoneComplete()
    ensures Complete([]) == ""
  {
  }

  lemma LastSextet(val: int, s: seq<Byte>, valb: int)
    requires Tracks(val, s) && |s| % 3 != 0 && valb == -6 + 2 * (|s| % 3)
    ensures Closing(s) != "" && Digit(Sextet(Wrap32(val * 256), valb + 8)) == Closing(s)[0]
  {
    hide Digit, Sextet, Wrap32, Six1, Six2;
    Wrap32Low(val * 256);
    LowBits(val, Wrap32(val * 256), 0);
    Sextets(Wrap32(val * 256), val % 256, 0);
  }

  lemma ClosingIs(s: seq<Byte>)
    ensures |Closing(s)| == if |s| % 3 == 0 then 0 else 4 - |s| % 3
    ensures forall k :: 1 <= k < |Closing(s)| ==> Closing(s)[k] == '='
  {
  }
}
