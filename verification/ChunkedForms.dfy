/**
 All the texts that the chunked reader of externals/httplib/httplib.h accepts: chunk extensions, odd ways of writing a
 size and trailer lines included.
 */
module ChunkedForms {
  import opened ChunkedSpec
  import opened Query
  import opened QueryForms
  import opened Text
  import opened Wrappers

  // ----- numbers -----

  ghost predicate AreHex(digits: string) {
    forall i :: 0 <= i < |digits| ==> IsHex(digits[i])
  }

  ghost function ValueOf(digits: string): nat
    requires AreHex(digits)
  {
    if digits == "" then 0 else ValueOf(digits[..|digits| - 1]) * 16 + DigitOf(digits[|digits| - 1])
  }

  ghost predicate AreSpaces(s: string) {
    forall i :: 0 <= i < |s| ==> s[i] == ' ' || s[i] == '\t' || s[i] == '\n' || s[i] == '\r' ||
                                 s[i] as int == 11 || s[i] as int == 12
  }

  lemma {:induction false} ValuesAgree(digits: string)
    requires AreHex(digits)
    ensures AllDigits(digits) && Number(digits) == ValueOf(digits)
  {
    hide HexValue, IsHex, DigitOf;
    forall i | 0 <= i < |digits| ensures HexValue(digits[i]).Some? {
      DigitsAgree(digits[i]);
    }
    if digits != "" {
      ValuesAgree(digits[..|digits| - 1]);
      DigitsAgree(digits[|digits| - 1]);
    }
  }

  lemma {:induction false} SpacesSkipped(spaces: string, more: string)
    requires AreSpaces(spaces) && (more != "" ==> !AreSpaces(more[..1]))
    ensures SkipSpace(spaces + more) == more
  {
    if spaces == "" {
      assert spaces + more == more;
      if more != "" { assert more[..1][0] == more[0]; }
    } else {
      assert (spaces + more)[1..] == spaces[1..] + more;
      SpacesSkipped(spaces[1..], more);
    }
  }

  lemma {:induction false} DigitsTaken(digits: string, more: string)
    requires AreHex(digits) && (more != "" ==> !IsHex(more[0]))
    ensures Digits(digits + more) == digits
  {
    hide HexValue, IsHex, AreHex;
    if digits == "" {
      assert digits + more == more;
      if more != "" { DigitsAgree(more[0]); }
    } else {
      HexTail(digits);
      DigitsAgree(digits[0]);
      assert (digits + more)[1..] == digits[1..] + more;
      DigitsTaken(digits[1..], more);
    }
  }

  lemma HexTail(digits: string)
    requires AreHex(digits) && digits != ""
    ensures IsHex(digits[0]) && AreHex(digits[1..])
  {
  }

  predicate IsX(c: char) {
    c == 'x' || c == 'X'
  }

  /** Does the text begin with 0x and a digit? */
  predicate IsPrefixed(s: string) {
    |s| >= 3 && s[0] == '0' && IsX(s[1]) && IsHex(s[2])
  }

  /** What strtoul makes of a text after white space and sign. */
  function Unsigned(t: string): Option<nat> {
    var prefixed := |t| >= 3 && t[0] == '0' && (t[1] == 'x' || t[1] == 'X') && HexValue(t[2]).Some?;
    var d := Digits(if prefixed then t[2..] else t);
    if d == "" then None else Some(Number(d))
  }

  lemma {:induction false} UnsignedReads(prefix: string, digits: string, more: string)
    requires prefix == "" || prefix == "0x" || prefix == "0X"
    requires AreHex(digits) && digits != "" && (more != "" ==> !IsHex(more[0]))
    requires prefix == "" ==> !IsPrefixed(digits + more)
    ensures Unsigned(prefix + digits + more) == Some(ValueOf(digits))
  {
    hide Unsigned, IsPrefixed, IsHex, AreHex;
    if prefix == "" {
      assert prefix + digits == digits;
      UnsignedPlain(digits, more);
    } else {
      Assoc(prefix, digits, more);
      assert prefix == ['0', prefix[1]];
      UnsignedPrefixed(prefix[1], digits, more);
    }
  }

  lemma {:induction false} UnsignedPlain(digits: string, more: string)
    requires AreHex(digits) && digits != "" && (more != "" ==> !IsHex(more[0])) && !IsPrefixed(digits + more)
    ensures Unsigned(digits + more) == Some(ValueOf(digits))
  {
    hide HexValue, Number, Digits, IsHex, AreHex;
    var t := digits + more;
    DigitsTaken(digits, more);
    ValuesAgree(digits);
    if |t| >= 3 { DigitsAgree(t[2]); }
  }

  lemma {:induction false} UnsignedPrefixed(x: char, digits: string, more: string)
    requires IsX(x) && AreHex(digits) && digits != "" && (more != "" ==> !IsHex(more[0]))
    ensures Unsigned(['0', x] + (digits + more)) == Some(ValueOf(digits))
  {
    hide HexValue, Number, Digits, IsHex;
    var t := ['0', x] + (digits + more);
    DigitsTaken(digits, more);
    ValuesAgree(digits);
    assert t[2] == digits[0] && t[2..] == digits + more;
    DigitsAgree(digits[0]);
  }

  lemma UnsignedRefuses(t: string)
    requires t != "" ==> !IsHex(t[0])
    ensures Unsigned(t) == None
  {
    hide IsHex;
    if t != "" { DigitsAgree(t[0]); }
  }

  lemma SignApplied(spaces: string, sign: string, t: string)
    requires AreSpaces(spaces) && (sign == "" || sign == "+" || sign == "-")
    requires sign == "" && t != "" ==> !AreSpaces(t[..1]) && t[0] != '+' && t[0] != '-'
    ensures StrToUl(spaces + sign + t) ==
      match Unsigned(t)
      case None => None
      case Some(n) =>
        Some(if n > ULONG_MAX then ULONG_MAX else if sign == "-" then (ULONG_MAX + 1 - n) % (ULONG_MAX + 1) else n)
  {
    hide Digits, Number, HexValue;
    var s := sign + t;
    assert spaces + sign + t == spaces + s;
    if sign == "" { assert s == t; } else { assert s[0] == sign[0] && s[1..] == t && s[..1][0] == sign[0]; }
    SpacesSkipped(spaces, s);
  }

  /**
   Sizes: white space, a sign, 0x or not, hexadecimal digits in either case, and then anything that is no digit, such as
   a chunk extension.  Numbers that are too great saturate, negative ones wrap around.
   */
  lemma {:induction false} SizeReads(spaces: string, sign: string, prefix: string, digits: string, more: string)
    requires AreSpaces(spaces) && (sign == "" || sign == "+" || sign == "-")
    requires prefix == "" || prefix == "0x" || prefix == "0X"
    requires AreHex(digits) && digits != "" && (more != "" ==> !IsHex(more[0]))
    requires prefix == "" ==> !IsPrefixed(digits + more)
    ensures var n := ValueOf(digits);
      StrToUl(spaces + sign + (prefix + digits + more)) ==
      Some(if n > ULONG_MAX then ULONG_MAX else if sign == "-" then (ULONG_MAX + 1 - n) % (ULONG_MAX + 1) else n)
  {
    hide StrToUl, Unsigned, IsHex;
    hide AreSpaces, IsPrefixed;
    var t := prefix + digits + more;
    UnsignedReads(prefix, digits, more);
    FirstDigit(prefix, digits, more);
    SignApplied(spaces, sign, t);
  }

  lemma FirstDigit(prefix: string, digits: string, more: string)
    requires (prefix == "" || prefix == "0x" || prefix == "0X") && AreHex(digits) && digits != ""
    ensures var t := prefix + digits + more; t != "" && !AreSpaces(t[..1]) && t[0] != '+' && t[0] != '-'
  {
    hide IsHex, AreSpaces;
    var t := prefix + digits + more;
    var c := if prefix == "" then digits[0] else '0';
    assert t[0] == c && t[..1] == [c];
    HexIsNoSpace(c);
  }

  lemma HexIsNoSpace(c: char)
    ensures IsHex('0')
    ensures IsHex(c) ==> !AreSpaces([c]) && c != '+' && c != '-'
  {
    if IsHex(c) {
      DigitsAgree(c);
      assert [c][0] == c;
    }
    assert LOWER[0] == '0';
  }

  /** Without a digit there is no size. */
  lemma NoSizeReads(spaces: string, sign: string, t: string)
    requires AreSpaces(spaces) && (sign == "" || sign == "+" || sign == "-") && (t != "" ==> !IsHex(t[0]))
    requires sign == "" && t != "" ==> !AreSpaces(t[..1]) && t[0] != '+' && t[0] != '-'
    ensures StrToUl(spaces + sign + t) == None
  {
    hide StrToUl, Unsigned, IsHex;
    UnsignedRefuses(t);
    SignApplied(spaces, sign, t);
  }

  /** Sizes are written in lower case and without leading zeros, and mean themselves. */
  lemma {:induction false} SizeWritten(n: nat)
    ensures AreLower(Hex(n)) && AreHex(Hex(n)) && ValueOf(Hex(n)) == n
    ensures (n > 0 ==> Hex(n)[0] != '0') && (n == 0 ==> Hex(n) == "0")
  {
    hide Hex, IsHex, HexValue, AreLower;
    HexProperties(n);
    SizeInLower(n);
    forall i | 0 <= i < |Hex(n)| ensures IsHex(Hex(n)[i]) {
      DigitsAgree(Hex(n)[i]);
    }
    ValuesAgree(Hex(n));
  }

  ghost predicate AreLower(s: string) {
    forall i :: 0 <= i < |s| ==> s[i] in LOWER
  }

  lemma {:induction false} SizeInLower(n: nat)
    ensures AreLower(Hex(n)) && (n == 0 ==> Hex(n) == "0")
  {
    hide LowerHexDigit;
    if n >= 16 {
      SizeInLower(n / 16);
      DigitInLower(n % 16);
    } else {
      DigitInLower(n);
      DigitInLower(0);
    }
  }

  lemma DigitInLower(n: nat)
    requires n < 16
    ensures LowerHexDigit(n) in LOWER && LowerHexDigit(0) == '0'
  {
    assert LOWER[n] in LOWER;
  }

  // ----- whole messages -----

  predicate IsLine(l: string) {
    l != "" && l[|l| - 1] == '\n' && '\n' !in l[..|l| - 1]
  }

  /** A chunk: its size line, with whatever extensions, and its data. */
  datatype Segment = Segment(line: string, data: string)

  /** A message: chunks, the line with size zero, and the trailer lines before the empty one. */
  datatype Form = Form(chunks: seq<Segment>, last: string, trailer: seq<string>)

  ghost predicate IsSegment(p: Segment) {
    IsLine(p.line) && 0 < |p.data| < ULONG_MAX && StrToUl(p.line) == Some(|p.data|)
  }

  ghost predicate IsTrailer(lines: seq<string>) {
    forall i :: 0 <= i < |lines| ==> IsLine(lines[i]) && lines[i] != CRLF && |lines[i]| <= MAX_HEADER
  }

  ghost predicate IsForm(f: Form) {
    && (forall i :: 0 <= i < |f.chunks| ==> IsSegment(f.chunks[i]))
    && IsLine(f.last) && StrToUl(f.last) == Some(0) && IsTrailer(f.trailer)
  }

  function Lines(lines: seq<string>): string {
    if lines == [] then "" else lines[0] + Lines(lines[1..])
  }

  function SegmentText(p: Segment): string {
    p.line + (p.data + CRLF)
  }

  function SegmentTexts(chunks: seq<Segment>): string {
    if chunks == [] then "" else SegmentText(chunks[0]) + SegmentTexts(chunks[1..])
  }

  function Spelled(f: Form): string {
    SegmentTexts(f.chunks) + (f.last + (Lines(f.trailer) + CRLF))
  }

  function Content(chunks: seq<Segment>): string {
    if chunks == [] then "" else chunks[0].data + Content(chunks[1..])
  }

  lemma LineFirst(l: string, more: string)
    requires IsLine(l)
    ensures FirstLine(l + more) == l && AfterLine(l + more) == more && l + more != ""
  {
    var body := l[..|l| - 1];
    assert l == body + "\n" && l + more == body + "\n" + more;
    LineAt(body, more);
  }

  lemma BreakIsLine()
    ensures IsLine(CRLF)
  {
    assert CRLF[..1] == "\r";
  }

  lemma {:induction false} TrailerReads(lines: seq<string>, tail: string)
    requires IsTrailer(lines)
    ensures AfterTrailer(Lines(lines) + CRLF + tail) == Some(tail)
  {
    hide FirstLine, AfterLine, IsLine;
    BreakIsLine();
    if lines == [] {
      assert Lines(lines) + CRLF + tail == CRLF + tail;
      LineFirst(CRLF, tail);
    } else {
      var more := Lines(lines[1..]) + CRLF + tail;
      Assoc(lines[0], Lines(lines[1..]), CRLF);
      Assoc(lines[0], Lines(lines[1..]) + CRLF, tail);
      LineFirst(lines[0], more);
      TrailerReads(lines[1..], tail);
    }
  }

  lemma {:induction false} LastReads(last: string, trailer: seq<string>, tail: string)
    requires IsLine(last) && StrToUl(last) == Some(0) && IsTrailer(trailer)
    ensures ReadMessage(last + (Lines(trailer) + CRLF + tail)) == Some(Message("", tail))
  {
    hide StrToUl, FirstLine, AfterLine, IsLine, IsTrailer;
    TrailerReads(trailer, tail);
    LineFirst(last, Lines(trailer) + CRLF + tail);
  }

  lemma {:induction false} SegmentReads(p: Segment, more: string)
    requires IsSegment(p)
    ensures ReadMessage(p.line + (p.data + (CRLF + more))) ==
      match ReadMessage(more)
      case None => None
      case Some(m) => Some(m.(body := p.data + m.body))
  {
    hide StrToUl, FirstLine, AfterLine, IsLine;
    var s1 := p.data + (CRLF + more);
    LineFirst(p.line, s1);
    assert s1[|p.data|..] == CRLF + more && s1[..|p.data|] == p.data;
    BreakIsLine();
    LineFirst(CRLF, more);
  }

  /** Every such message is read: its content, and nothing of what follows it. */
  lemma {:induction false} FormReads(f: Form, tail: string)
    requires IsForm(f)
    ensures ReadMessage(Spelled(f) + tail) == Some(Message(Content(f.chunks), tail))
    decreases |f.chunks|
  {
    hide ReadMessage, StrToUl, IsLine, IsTrailer, IsSegment;
    var end := f.last + (Lines(f.trailer) + CRLF);
    if f.chunks == [] {
      assert Spelled(f) == end;
      Assoc(f.last, Lines(f.trailer) + CRLF, tail);
      LastReads(f.last, f.trailer, tail);
    } else {
      var p, rest := f.chunks[0], f.(chunks := f.chunks[1..]);
      assert forall i :: 0 <= i < |rest.chunks| ==> rest.chunks[i] == f.chunks[i + 1];
      FormReads(rest, tail);
      var more := Spelled(rest) + tail;
      SegmentReads(p, more);
      Assoc(SegmentText(p), SegmentTexts(rest.chunks), end);
      Assoc(SegmentText(p), Spelled(rest), tail);
      Assoc(p.line, p.data + CRLF, more);
      Assoc(p.data, CRLF, more);
    }
  }

  // ----- and nothing else -----

  lemma LineTaken(s: string)
    requires s != "" && AfterLine(s) != ""
    ensures IsLine(FirstLine(s)) && s == FirstLine(s) + AfterLine(s)
  {
    var n := LineLength(s);
    assert s[..n][..n - 1] == s[..n - 1];
  }

  lemma LineTakenOrAll(s: string)
    requires s != ""
    ensures s == FirstLine(s) + AfterLine(s) && FirstLine(s) != ""
  {
  }

  lemma {:induction false} OnlyTrailers(s: string, tail: string) returns (lines: seq<string>)
    requires AfterTrailer(s) == Some(tail)
    ensures IsTrailer(lines) && s == Lines(lines) + CRLF + tail
    decreases |s|
  {
    hide FirstLine, AfterLine;
    lines := [];
    LineTakenOrAll(s);
    if FirstLine(s) != CRLF {
      LineTaken(s);
      var more := OnlyTrailers(AfterLine(s), tail);
      lines := [FirstLine(s)] + more;
      assert lines[1..] == more;
      Assoc(FirstLine(s), Lines(more), CRLF);
      Assoc(FirstLine(s), Lines(more) + CRLF, tail);
    }
  }

  /** Whatever is read is such a message. */
  lemma {:induction false} OnlyForms(s: string, m: Message) returns (f: Form)
    requires ReadMessage(s) == Some(m)
    ensures IsForm(f) && s == Spelled(f) + m.rest && m.body == Content(f.chunks)
    decreases |s|
  {
    hide FirstLine, AfterLine, StrToUl, AfterTrailer, IsLine;
    var s1, n := AfterLine(s), StrToUl(FirstLine(s)).value;
    if n == 0 {
      TrailerNotEmpty(s1);
      LineTaken(s);
      var lines := OnlyTrailers(s1, m.rest);
      f := Form([], FirstLine(s), lines);
      assert Spelled(f) == f.last + (Lines(lines) + CRLF);
      Assoc(f.last, Lines(lines) + CRLF, m.rest);
    } else {
      var data, s2 := s1[..n], s1[n..];
      assert s1 == data + s2;
      LineTaken(s);
      LineTakenOrAll(s2);
      var more := AfterLine(s2);
      var inner := ReadMessage(more).value;
      var g := OnlyForms(more, inner);
      SizeBound(FirstLine(s));
      var p := Segment(FirstLine(s), data);
      f := g.(chunks := [p] + g.chunks);
      SegmentAdded(p, g, inner.rest);
    }
  }

  lemma SegmentAdded(p: Segment, g: Form, rest: string)
    requires IsSegment(p) && IsForm(g)
    ensures var f := g.(chunks := [p] + g.chunks);
      && IsForm(f) && Content(f.chunks) == p.data + Content(g.chunks)
      && p.line + (p.data + (CRLF + (Spelled(g) + rest))) == Spelled(f) + rest
  {
    hide IsSegment, IsTrailer, IsLine, StrToUl;
    var f := g.(chunks := [p] + g.chunks);
    assert f.chunks[1..] == g.chunks;
    var end := g.last + (Lines(g.trailer) + CRLF);
    Assoc(SegmentText(p), SegmentTexts(g.chunks), end);
    Assoc(SegmentText(p), Spelled(g), rest);
    Assoc(p.line, p.data + CRLF, Spelled(g) + rest);
    Assoc(p.data, CRLF, Spelled(g) + rest);
  }

  lemma SizeBound(line: string)
    ensures StrToUl(line).Some? ==> StrToUl(line).value <= ULONG_MAX
  {
    hide Digits, Number, HexValue, SkipSpace;
  }

  lemma {:induction false} TrailerNotEmpty(s: string)
    requires AfterTrailer(s).Some?
    ensures s != ""
  {
  }
}
