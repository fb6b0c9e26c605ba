/**
 The chunked transfer coding of section 7.1 of RFC 9112, as the writer and reader of
 externals/httplib/httplib.h have it.  A byte is a char below 256; unsigned long has 64 bits.
 */
module ChunkedSpec {
  import opened Query
  import opened Text
  import opened Wrappers

  const CRLF := "\r\n"
  const ULONG_MAX := 0xFFFF_FFFF_FFFF_FFFF
  const MAX_HEADER := 8192

  // ----- lines -----

  /** Length of the first line of `s`, with its newline if it has one. */
  function LineLength(s: string): (n: nat)
    ensures n <= |s| && (s != "" ==> n > 0)
  {
    var i := IndexOf(s, '\n');
    if i < |s| then i + 1 else i
  }

  function FirstLine(s: string): string {
    s[..LineLength(s)]
  }

  function AfterLine(s: string): string {
    s[LineLength(s)..]
  }

  lemma LineAt(line: string, rest: string)
    requires '\n' !in line
    ensures FirstLine(line + "\n" + rest) == line + "\n" && AfterLine(line + "\n" + rest) == rest
  {
    var s := line + "\n" + rest;
    assert s[..|line|] == line;
    IndexOfAt(s, '\n', |line|);
  }

  // ----- strtoul with base 16 -----

  predicate IsSpace(c: char) {
    c == ' ' || 9 <= c as int <= 13
  }

  function SkipSpace(s: string): string {
    if s != "" && IsSpace(s[0]) then SkipSpace(s[1..]) else s
  }

  /** The hexadecimal digits that `s` starts with. */
  function Digits(s: string): (d: string)
    ensures d <= s
  {
    if s == "" || HexValue(s[0]).None? then "" else [s[0]] + Digits(s[1..])
  }

  predicate AllDigits(d: string) {
    forall i :: 0 <= i < |d| ==> HexValue(d[i]).Some?
  }

  function Number(d: string): nat {
    if d == "" then 0 else Number(d[..|d| - 1]) * 16 + HexValue(d[|d| - 1]).GetOr(0)
  }

  /** The value, or None when no digit was found. */
  function StrToUl(text: string): Option<nat> {
    var s := SkipSpace(text);
    var negative := s != "" && s[0] == '-';
    var t := if negative || (s != "" && s[0] == '+') then s[1..] else s;
    var prefixed := |t| >= 3 && t[0] == '0' && (t[1] == 'x' || t[1] == 'X') && HexValue(t[2]).Some?;
    var d := Digits(if prefixed then t[2..] else t);
    if d == "" then None
    else if Number(d) > ULONG_MAX then Some(ULONG_MAX)
    else Some(if negative then (ULONG_MAX + 1 - Number(d)) % (ULONG_MAX + 1) else Number(d))
  }

  // ----- hexadecimal numbers -----

  function LowerHexDigit(n: nat): (c: char)
    requires n < 16
    ensures HexValue(c) == Some(n) && (c == '0' <==> n == 0) && c != '-' && c != '+' && !IsSpace(c)
  {
    "0123456789abcdef"[n]
  }

  function Hex(n: nat): (s: string)
    ensures s != ""
  {
    if n < 16 then [LowerHexDigit(n)] else Hex(n / 16) + [LowerHexDigit(n % 16)]
  }

  lemma {:induction false} HexProperties(n: nat)
    ensures AllDigits(Hex(n)) && Number(Hex(n)) == n && (n > 0 ==> Hex(n)[0] != '0')
    ensures var c := Hex(n)[0]; !IsSpace(c) && c != '-' && c != '+'
  {
    hide LowerHexDigit, HexValue;
    if n < 16 {
      assert Hex(n)[..0] == "";
    } else {
      HexProperties(n / 16);
      assert Hex(n)[..|Hex(n)| - 1] == Hex(n / 16);
    }
  }

  lemma {:induction false} DigitsThen(d: string, c: char, rest: string)
    requires AllDigits(d) && HexValue(c).None?
    ensures Digits(d + [c] + rest) == d
  {
    if d == "" {
      assert d + [c] + rest == [c] + rest;
    } else {
      assert (d + [c] + rest)[1..] == d[1..] + [c] + rest;
      DigitsThen(d[1..], c, rest);
    }
  }

  lemma {:induction false} PlainNumber(s: string, d: string)
    requires s != "" && !IsSpace(s[0]) && s[0] != '-' && s[0] != '+'
    requires s[0] == '0' && |s| >= 2 ==> s[1] != 'x' && s[1] != 'X'
    requires Digits(s) == d != "" && Number(d) <= ULONG_MAX
    ensures StrToUl(s) == Some(Number(d))
  {
    assert SkipSpace(s) == s;
  }

  /** The reader's number parser undoes the writer's. */
  lemma {:induction false} SizeLineReads(n: nat)
    requires n <= ULONG_MAX
    ensures StrToUl(Hex(n) + CRLF) == Some(n)
  {
    hide StrToUl, Digits, Number, IsSpace, HexValue;
    var h := Hex(n);
    var s := h + CRLF;
    HexProperties(n);
    assert s == h + ['\r'] + "\n";
    ReturnIsNoDigit();
    DigitsThen(h, '\r', "\n");
    assert s[0] == h[0];
    if n == 0 { assert s[1] == '\r'; }
    PlainNumber(s, h);
  }

  lemma ReturnIsNoDigit()
    ensures HexValue('\r').None? && HexValue('\n').None?
  {
  }

  // ----- what the reader accepts -----

  /** Trailer lines up to the empty one; what follows it. */
  function AfterTrailer(s: string): Option<string>
    decreases |s|
  {
    if s == "" then None
    else if FirstLine(s) == CRLF then Some(AfterLine(s))
    else if |FirstLine(s)| > MAX_HEADER then None
    else AfterTrailer(AfterLine(s))
  }

  datatype Message = Message(body: string, rest: string)

  /** The chunked message that `s` starts with. */
  function ReadMessage(s: string): Option<Message>
    decreases |s|
  {
    if s == "" then None else
      var size := StrToUl(FirstLine(s));
      var s1 := AfterLine(s);
      if size.None? || size.value == ULONG_MAX then None
      else if size.value == 0 then
        match AfterTrailer(s1)
        case None => None
        case Some(rest) => Some(Message("", rest))
      else if |s1| < size.value then None
      else
        var s2 := s1[size.value..];
        if s2 == "" || FirstLine(s2) != CRLF then None else
          match ReadMessage(AfterLine(s2))
          case None => None
          case Some(m) => Some(m.(body := s1[..size.value] + m.body))
  }

  // ----- what the writer emits -----

  /** One write: nothing for an empty one. */
  function Chunk(data: string): string {
    if data == "" then "" else Hex(|data|) + CRLF + data + CRLF
  }

  function Chunks(writes: seq<string>): string {
    if writes == [] then "" else Chunk(writes[0]) + Chunks(writes[1..])
  }

  const LAST := "0" + CRLF + CRLF

  function Concat(writes: seq<string>): string {
    if writes == [] then "" else writes[0] + Concat(writes[1..])
  }

  // ----- the round trip -----

  lemma {:induction false} ReadsLast(tail: string)
    ensures ReadMessage(LAST + tail) == Some(Message("", tail))
  {
    hide StrToUl;
    var s := LAST + tail;
    assert s == "0\r" + "\n" + (CRLF + tail);
    LineAt("0\r", CRLF + tail);
    assert Hex(0) == "0" && "0" + CRLF == "0\r" + "\n";
    SizeLineReads(0);
    assert CRLF + tail == "\r" + "\n" + tail;
    LineAt("\r", tail);
    assert "\r" + "\n" == CRLF;
    assert AfterTrailer(CRLF + tail) == Some(tail);
  }

  lemma {:induction false} HexHasNoNewline(n: nat)
    ensures '\n' !in Hex(n) + "\r"
  {
    HexProperties(n);
    assert HexValue('\n').None?;
  }

  lemma {:induction false} ReadsChunk(data: string, more: string)
    requires 0 < |data| < ULONG_MAX
    ensures ReadMessage(Chunk(data) + more) ==
      match ReadMessage(more)
      case None => None
      case Some(m) => Some(m.(body := data + m.body))
  {
    hide StrToUl, Hex, FirstLine, AfterLine;
    var s := Chunk(data) + more;
    var h := Hex(|data|);
    var s1 := data + CRLF + more;
    assert s == h + "\r" + "\n" + s1;
    HexHasNoNewline(|data|);
    LineAt(h + "\r", s1);
    assert h + "\r" + "\n" == h + CRLF;
    SizeLineReads(|data|);
    var s2 := CRLF + more;
    assert s1[|data|..] == s2 && s1[..|data|] == data;
    assert s2 == "\r" + "\n" + more;
    LineAt("\r", more);
    assert "\r" + "\n" == CRLF;
  }

  /** Reading what was written gives back all the data, and stops right after the end of the message. */
  lemma {:induction false} RoundTrip(writes: seq<string>, tail: string)
    requires forall i :: 0 <= i < |writes| ==> 0 < |writes[i]| < ULONG_MAX
    ensures ReadMessage(Chunks(writes) + LAST + tail) == Some(Message(Concat(writes), tail))
  {
    hide ReadMessage, Chunk;
    if writes == [] {
      assert Chunks(writes) + LAST + tail == LAST + tail;
      ReadsLast(tail);
    } else {
      var more := Chunks(writes[1..]) + LAST + tail;
      assert Chunks(writes) + LAST + tail == Chunk(writes[0]) + more;
      ReadsChunk(writes[0], more);
      RoundTrip(writes[1..], tail);
    }
  }
}
