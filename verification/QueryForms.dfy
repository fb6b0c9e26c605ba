/**
 Every text that the decoder of externals/httplib/httplib.h can be given, by the way it is written, and what it means;
 and the order in which parameters come out of a query.
 */
module QueryForms {
  import opened Query
  import opened Text
  import opened Wrappers

  // ----- hexadecimal digits, read off a table -----

  const LOWER := "0123456789abcdef"
  const UPPER := "0123456789ABCDEF"

  predicate IsHex(c: char) {
    c in LOWER || c in UPPER
  }

  function DigitOf(c: char): (v: nat)
    requires IsHex(c)
    ensures v < 16
  {
    if c in LOWER then IndexOf(LOWER, c) else IndexOf(UPPER, c)
  }

  lemma {:induction false} InTable(table: string, c: char)
    ensures c in table <==> IndexOf(table, c) < |table|
  {
    assert table[..|table|] == table;
  }

  lemma DigitsAgree(c: char)
    ensures HexValue(c).Some? <==> IsHex(c)
    ensures IsHex(c) ==> HexValue(c) == Some(DigitOf(c))
  {
    if HexValue(c).Some? {
      var v := HexValue(c).value;
      assert LOWER[v] == c || UPPER[v] == c;
    }
    if IsHex(c) {
      var table := if c in LOWER then LOWER else UPPER;
      InTable(table, c);
      var i := IndexOf(table, c);
      TableValue(table, i);
    }
  }

  lemma TableValue(table: string, i: nat)
    requires (table == LOWER || table == UPPER) && i < 16
    ensures HexValue(table[i]) == Some(i)
  {
  }

  // ----- ways of writing -----

  /** One step of a text: a character for itself, a plus for a space, an escape, or a percent sign that begins none. */
  datatype Piece =
    | Plain(c: char)
    | Plus
    | Escape(high: char, low: char)
    | Unicode(a: char, b: char, c: char, d: char)
    | Percent

  function PieceText(p: Piece): (s: string)
    ensures s != ""
  {
    match p
    case Plain(c) => [c]
    case Plus => "+"
    case Escape(high, low) => ['%', high, low]
    case Unicode(a, b, c, d) => ['%', 'u', a, b, c, d]
    case Percent => "%"
  }

  function Written(pieces: seq<Piece>): string {
    if pieces == [] then "" else PieceText(pieces[0]) + Written(pieces[1..])
  }

  predicate BeginsEscape(w: string) {
    || (|w| >= 3 && w[0] == '%' && IsHex(w[1]) && IsHex(w[2]))
    || (|w| >= 6 && w[0] == '%' && w[1] == 'u' && IsHex(w[2]) && IsHex(w[3]) && IsHex(w[4]) && IsHex(w[5]))
  }

  /** May `p` stand before the text `more`?  With `plus`, a plus sign is not written for itself. */
  predicate IsPiece(p: Piece, more: string, plus: bool) {
    match p
    case Plain(c) => c != '%' && !(plus && c == '+')
    case Plus => plus
    case Escape(high, low) => IsHex(high) && IsHex(low)
    case Unicode(a, b, c, d) => IsHex(a) && IsHex(b) && IsHex(c) && IsHex(d)
    case Percent => !BeginsEscape("%" + more)
  }

  predicate IsWriting(pieces: seq<Piece>, plus: bool) {
    pieces == [] || (IsPiece(pieces[0], Written(pieces[1..]), plus) && IsWriting(pieces[1..], plus))
  }

  function PieceMeaning(p: Piece): string
    requires p.Escape? ==> IsHex(p.high) && IsHex(p.low)
    requires p.Unicode? ==> IsHex(p.a) && IsHex(p.b) && IsHex(p.c) && IsHex(p.d)
  {
    match p
    case Plain(c) => [c]
    case Plus => " "
    case Escape(high, low) => [(DigitOf(high) * 16 + DigitOf(low)) as char]
    case Unicode(a, b, c, d) => Utf8(((DigitOf(a) * 16 + DigitOf(b)) * 16 + DigitOf(c)) * 16 + DigitOf(d))
    case Percent => "%"
  }

  function Meaning(pieces: seq<Piece>, plus: bool): string
    requires IsWriting(pieces, plus)
  {
    if pieces == [] then "" else PieceMeaning(pieces[0]) + Meaning(pieces[1..], plus)
  }

  // ----- the decoder on them -----

  lemma {:induction false} HexOne(s: string)
    requires s != ""
    ensures FromHex(s, 1) == HexValue(s[0])
  {
    assert FromHex(s[..0], 0) == Some(0);
  }

  lemma HexMore(s: string, n: nat)
    requires n < |s|
    ensures FromHex(s, n + 1) ==
      if FromHex(s, n).Some? && HexValue(s[n]).Some? then Some(FromHex(s, n).value * 16 + HexValue(s[n]).value)
      else None
  {
    hide HexValue;
    FromHexTake(s, n);
    assert s[..n + 1][..n] == s[..n];
  }

  lemma {:induction false} HexTwo(s: string)
    ensures FromHex(s, 2) ==
      if |s| >= 2 && IsHex(s[0]) && IsHex(s[1]) then Some(DigitOf(s[0]) * 16 + DigitOf(s[1])) else None
  {
    hide FromHex, HexValue, IsHex, DigitOf;
    if |s| >= 2 {
      HexOne(s);
      HexMore(s, 1);
      DigitsAgree(s[0]);
      DigitsAgree(s[1]);
    } else {
      HexShort(s, 2);
    }
  }

  lemma {:induction false} HexShort(s: string, n: nat)
    requires |s| < n
    ensures FromHex(s, n) == None
  {
  }

  lemma {:induction false} HexFour(s: string)
    ensures FromHex(s, 4) ==
      if |s| >= 4 && IsHex(s[0]) && IsHex(s[1]) && IsHex(s[2]) && IsHex(s[3])
      then Some(((DigitOf(s[0]) * 16 + DigitOf(s[1])) * 16 + DigitOf(s[2])) * 16 + DigitOf(s[3])) else None
  {
    hide FromHex, HexValue, IsHex, DigitOf;
    if |s| >= 4 {
      HexTwo(s);
      HexMore(s, 2);
      HexMore(s, 3);
      DigitsAgree(s[2]);
      DigitsAgree(s[3]);
    } else {
      HexShort(s, 4);
    }
  }

  lemma UIsNoDigit()
    ensures !IsHex('u')
  {
  }

  /** Of a longer text the decoder takes one piece. */
  lemma DecodesPiece(p: Piece, more: string, plus: bool)
    requires IsPiece(p, more, plus)
    ensures DecodeOne(PieceText(p) + more, plus) == (PieceMeaning(p), |PieceText(p)|)
  {
    hide FromHex, IsHex, DigitOf, Utf8;
    var s := PieceText(p) + more;
    UIsNoDigit();
    if s[0] == '%' && |s| > 1 {
      HexTwo(s[1..]);
      HexFour(s[2..]);
    }
  }

  /** Whatever way a text is written, the decoder gives what it means. */
  lemma {:induction false} DecodesWriting(pieces: seq<Piece>, plus: bool)
    requires IsWriting(pieces, plus)
    ensures Decode(Written(pieces), plus) == Meaning(pieces, plus)
  {
    hide DecodeOne, PieceMeaning, PieceText, BeginsEscape, IsHex;
    if pieces != [] {
      var (p, more) := (pieces[0], Written(pieces[1..]));
      DecodesPiece(p, more, plus);
      assert (PieceText(p) + more)[|PieceText(p)|..] == more;
      DecodesWriting(pieces[1..], plus);
    }
  }

  /** The first piece of any text. */
  function FirstPiece(w: string, plus: bool): Piece
    requires w != ""
  {
    if w[0] != '%' then if plus && w[0] == '+' then Plus else Plain(w[0])
    else if !BeginsEscape(w) then Percent
    else if w[1] == 'u' then Unicode(w[2], w[3], w[4], w[5])
    else Escape(w[1], w[2])
  }

  lemma FirstPieceIs(w: string, plus: bool)
    requires w != ""
    ensures var s := PieceText(FirstPiece(w, plus)); s <= w && w == s + w[|s|..]
  {
  }

  /** Every text is written in some such way, so this is all there is to decoding. */
  lemma {:induction false} EveryTextIsWritten(w: string, plus: bool) returns (pieces: seq<Piece>)
    ensures IsWriting(pieces, plus) && Written(pieces) == w
    decreases |w|
  {
    pieces := [];
    if w != "" {
      hide IsHex;
      var p := FirstPiece(w, plus);
      var s := PieceText(p);
      FirstPieceIs(w, plus);
      UIsNoDigit();
      var more := EveryTextIsWritten(w[|s|..], plus);
      pieces := [p] + more;
      assert pieces[1..] == more;
      if p.Percent? { assert "%" + Written(more) == w; }
    }
  }

  // ----- UTF-8, read back -----

  predicate IsTail(c: char) {
    0x80 <= c as int < 0xC0
  }

  /** The code point of a UTF-8 sequence, by section 3 of RFC 3629. */
  function ReadUtf8(s: string): Option<nat> {
    if |s| == 1 && s[0] as int < 0x80 then Some(s[0] as int)
    else if |s| == 2 && 0xC2 <= s[0] as int < 0xE0 && IsTail(s[1]) then
      Some((s[0] as int - 0xC0) * 0x40 + (s[1] as int - 0x80))
    else if |s| == 3 && 0xE0 <= s[0] as int < 0xF0 && IsTail(s[1]) && IsTail(s[2]) then
      Some((s[0] as int - 0xE0) * 0x1000 + (s[1] as int - 0x80) * 0x40 + (s[2] as int - 0x80))
    else if |s| == 4 && 0xF0 <= s[0] as int < 0xF5 && IsTail(s[1]) && IsTail(s[2]) && IsTail(s[3]) then
      Some((s[0] as int - 0xF0) * 0x40000 + (s[1] as int - 0x80) * 0x1000 + (s[2] as int - 0x80) * 0x40
           + (s[3] as int - 0x80))
    else None
  }

  lemma SplitBits(code: nat)
    ensures code == code / 4096 * 4096 + code / 64 % 64 * 64 + code % 64
    ensures code / 4096 == code / 262144 * 64 + code / 4096 % 64
  {
    assert code / 64 / 64 == code / 4096 && code / 4096 / 64 == code / 262144;
  }

  /** A code point is written in UTF-8, in as few bytes as that takes; surrogates are not written at all. */
  lemma Utf8Reads(code: nat)
    requires code < 0x110000
    ensures if 0xD800 <= code < 0xE000 then Utf8(code) == "" else ReadUtf8(Utf8(code)) == Some(code)
    ensures !(0xD800 <= code < 0xE000) ==>
      |Utf8(code)| == if code < 0x80 then 1 else if code < 0x800 then 2 else if code < 0x10000 then 3 else 4
  {
    SplitBits(code);
  }

  // ----- what is encoded -----

  const MARKS := "-_.!~*'()"

  /** Sent as they are: ASCII digits and letters, by their codes, and nine marks. */
  predicate IsSentAsIs(c: char) {
    var n := c as int;
    48 <= n <= 57 || 65 <= n <= 90 || 97 <= n <= 122 || c in MARKS
  }

  lemma KeptIs(c: char)
    ensures IsKept(c) <==> IsSentAsIs(c)
  {
    assert MARKS == ['-', '_', '.', '!', '~', '*', '\'', '(', ')'];
  }

  /** Any other byte is sent as its two digits, in upper case. */
  lemma EscapeIs(c: char)
    requires c as int < 256 && !IsSentAsIs(c)
    ensures EncodeChar(c) == ['%', UPPER[c as int / 16], UPPER[c as int % 16]]
  {
    KeptIs(c);
  }

  /** A value is sent as it is exactly when it has only these characters; every other byte becomes three. */
  lemma {:induction false} EncodedSize(value: string)
    requires IsBytes(value)
    ensures |Encode(value)| == |value| + 2 * Others(value)
  {
    if value != "" {
      EncodedSize(value[1..]);
      KeptIs(value[0]);
    }
  }

  function Others(value: string): nat {
    if value == "" then 0 else (if IsSentAsIs(value[0]) then 0 else 1) + Others(value[1..])
  }

  // ----- the order of parameters -----

  /** The order of keys is that of their first difference, and a proper prefix comes first. */
  lemma {:induction false} LessExactly(a: string, b: string)
    ensures Less(a, b) <==> exists k: nat :: Differ(a, b, k)
  {
    if b != "" {
      if a == "" || a[0] < b[0] {
        assert Differ(a, b, 0);
      } else if a[0] == b[0] {
        LessExactly(a[1..], b[1..]);
        if k: nat :| Differ(a[1..], b[1..], k) {
          assert a[..k + 1] == [a[0]] + a[1..][..k] && b[..k + 1] == [b[0]] + b[1..][..k];
          assert Differ(a, b, k + 1);
        }
        if k: nat :| Differ(a, b, k) {
          assert k > 0;
          assert a[1..][..k - 1] == a[..k][1..] && b[1..][..k - 1] == b[..k][1..];
          assert Differ(a[1..], b[1..], k - 1);
        }
      } else {
        forall k: nat ensures !Differ(a, b, k) {
          if k > 0 && k <= |a| && k < |b| { assert a[..k][0] == a[0] && b[..k][0] == b[0]; }
        }
      }
    }
  }

  predicate Differ(a: string, b: string, k: nat) {
    k <= |a| && k < |b| && a[..k] == b[..k] && (k == |a| || a[k] < b[k])
  }

  lemma {:induction false} LessTrans(a: string, b: string, c: string)
    requires Less(a, b) && Less(b, c)
    ensures Less(a, c)
  {
    if a != "" && a[0] == b[0] && b[0] == c[0] { LessTrans(a[1..], b[1..], c[1..]); }
  }

  lemma {:induction false} NotLessSelf(a: string)
    ensures !Less(a, a)
  {
    if a != "" { NotLessSelf(a[1..]); }
  }

  lemma {:induction false} UpperBoundIs(params: Params, key: string, i: nat)
    requires i <= |params|
    ensures var u := UpperBound(params, key, i);
      && (forall k :: i <= k < u ==> !Less(key, params[k].0))
      && (u < |params| ==> Less(key, params[u].0))
    decreases |params| - i
  {
    if i < |params| && !Less(key, params[i].0) { UpperBoundIs(params, key, i + 1); }
  }

  /** Behind the upper bound all keys are greater. */
  lemma {:induction false} GreaterBehind(params: Params, key: string, j: nat)
    requires Sorted(params) && UpperBound(params, key, 0) <= j < |params|
    ensures !Less(params[j].0, key) && params[j].0 != key
  {
    hide Less;
    var u := UpperBound(params, key, 0);
    UpperBoundIs(params, key, 0);
    NotLessSelf(params[u].0);
    assert !Less(params[j].0, params[u].0);
    if Less(params[j].0, key) { LessTrans(params[j].0, key, params[u].0); }
  }

  lemma EmplaceSorted(params: Params, key: string, value: string)
    requires Sorted(params)
    ensures Sorted(Emplace(params, key, value))
  {
    hide Less;
    var u := UpperBound(params, key, 0);
    UpperBoundIs(params, key, 0);
    NotLessSelf(key);
    var all := Emplace(params, key, value);
    forall i, j | 0 <= i < j < |all| ensures !Less(all[j].0, all[i].0) {
      if i == u {
        GreaterBehind(params, key, j - 1);
      }
    }
  }

  /** The values of a key, in order. */
  function Values(params: Params, key: string): seq<string> {
    if params == [] then [] else
      (if params[0].0 == key then [params[0].1] else []) + Values(params[1..], key)
  }

  lemma {:induction false} ValuesConcat(a: Params, b: Params, key: string)
    ensures Values(a + b, key) == Values(a, key) + Values(b, key)
  {
    if a == [] {
      assert a + b == b;
    } else {
      ValuesConcat(a[1..], b, key);
      assert (a + b)[1..] == a[1..] + b;
    }
  }

  lemma {:induction false} NoValues(params: Params, key: string)
    requires forall i :: 0 <= i < |params| ==> params[i].0 != key
    ensures Values(params, key) == []
  {
    if params != [] { NoValues(params[1..], key); }
  }

  /** A new value is the last one of its key. */
  lemma {:induction false} EmplaceValues(params: Params, key: string, value: string, k: string)
    requires Sorted(params)
    ensures Values(Emplace(params, key, value), k) == Values(params, k) + if k == key then [value] else []
  {
    hide Values, Sorted;
    var u := UpperBound(params, key, 0);
    var (front, back) := (params[..u], params[u..]);
    assert params == front + back;
    ValuesConcat(front, back, k);
    ValuesConcat(front + [(key, value)], back, k);
    ValuesConcat(front, [(key, value)], k);
    OneValue(key, value, k);
    if k == key {
      forall i | 0 <= i < |back| ensures back[i].0 != key {
        GreaterBehind(params, key, u + i);
      }
      NoValues(back, key);
    }
  }

  lemma {:induction false} OneValue(key: string, value: string, k: string)
    ensures Values([(key, value)], k) == if k == key then [value] else []
  {
    assert [(key, value)][1..] == [];
  }

  /** What the fields give for a key, in the order they come, a repeated field only once. */
  function Given(fields: seq<string>, key: string): seq<string> {
    if fields == [] then [] else
      var (before, kv) := (fields[..|fields| - 1], fields[|fields| - 1]);
      match KeyValue(kv)
      case Some((name, value)) =>
        Given(before, key) + if kv !in before && Decode(name, true) == key then [Decode(value, true)] else []
      case None => Given(before, key)
  }

  lemma {:induction false} CollectInOrder(fields: seq<string>, key: string)
    ensures Sorted(Collect(fields)) && Values(Collect(fields), key) == Given(fields, key)
  {
    hide Sorted, Values, KeyValue, Decode, Emplace;
    if fields == [] {
      NothingCollected(key);
    } else {
      var (before, kv) := (fields[..|fields| - 1], fields[|fields| - 1]);
      CollectInOrder(before, key);
      var pair := KeyValue(kv);
      if pair.Some? && kv !in before {
        var (name, value) := (Decode(pair.value.0, true), Decode(pair.value.1, true));
        EmplaceSorted(Collect(before), name, value);
        EmplaceValues(Collect(before), name, value, key);
      }
    }
  }

  lemma {:induction false} NothingCollected(key: string)
    ensures Sorted([]) && Values([], key) == []
  {
  }

  /** For every query: the parameters come out sorted by key, those of one key in the order of the text. */
  lemma {:induction false} ParseInOrder(query: string, key: string)
    ensures Sorted(Parse(query)) && Values(Parse(query), key) == Given(Fields(query, '&'), key)
  {
    CollectInOrder(Fields(query, '&'), key);
  }

  /** Of a field with several equal signs, the first piece is the key and the last the value. */
  lemma {:induction false} KeyValueOfMany(parts: seq<string>)
    requires parts != [] && forall i :: 0 <= i < |parts| ==> Solid(parts[i], '=')
    ensures KeyValue(Join(parts, '=')) == Some((parts[0], if |parts| == 1 then "" else parts[|parts| - 1]))
  {
    hide Fields, Join;
    FieldsOfJoin(parts, '=');
  }
}
