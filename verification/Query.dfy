/**
 URL query strings: percent encoding, decoding, and the two directions between a
 multimap of parameters and its text (externals/httplib/httplib.h).
 */
module Query {
  import opened Text
  import opened Wrappers

  predicate IsBytes(s: string) {
    forall i :: 0 <= i < |s| ==> s[i] as int < 256
  }

  predicate IsAlnum(c: char) {
    '0' <= c <= '9' || 'A' <= c <= 'Z' || 'a' <= c <= 'z'
  }

  /** The unreserved characters of section 2.3 of RFC 3986. */
  predicate IsUnreserved(c: char) {
    IsAlnum(c) || c == '-' || c == '.' || c == '_' || c == '~'
  }

  // ----- hexadecimal digits -----

  function HexValue(c: char): (v: Option<nat>)
    ensures v.Some? ==> v.value < 16
  {
    if '0' <= c <= '9' then Some(c as int - '0' as int)
    else if 'A' <= c <= 'F' then Some(c as int - 'A' as int + 10)
    else if 'a' <= c <= 'f' then Some(c as int - 'a' as int + 10)
    else None
  }

  function UpperHexDigit(n: nat): (c: char)
    requires n < 16
    ensures HexValue(c) == Some(n) && c != 'u'
  {
    "0123456789ABCDEF"[n]
  }

  /** The number written by the first `count` characters of `s`, if they are hexadecimal digits. */
  function FromHex(s: string, count: nat): (v: Option<nat>)
    decreases count
  {
    if count == 0 then Some(0)
    else if |s| < count then None
    else
      var high := FromHex(s[..count - 1], count - 1);
      var low := HexValue(s[count - 1]);
      if high.Some? && low.Some? then Some(high.value * 16 + low.value) else None
  }

  lemma {:induction false} FromHexBound(s: string, count: nat)
    ensures FromHex(s, count).Some? ==> FromHex(s, count).value < Power16(count)
  {
    if count > 0 && |s| >= count { FromHexBound(s[..count - 1], count - 1); }
  }

  function Power16(n: nat): nat {
    if n == 0 then 1 else 16 * Power16(n - 1)
  }

  method FromHexToI(s: string, i: nat, count: nat) returns (val: Option<nat>)
    requires i <= |s| && count > 0
    ensures val == FromHex(s[i..], count)
  {
    if i >= |s| { return None; }
    var v, n := 0, 0;
    while n < count
      invariant n <= count && i + n <= |s|
      invariant FromHex(s[i..i + n], n) == Some(v)
    {
      if i + n == |s| || s[i + n] == '\0' {
        FromHexStops(s[i..], n, count);
        return None;
      }
      var digit := HexValue(s[i + n]);
      if digit.None? {
        FromHexStops(s[i..], n, count);
        return None;
      }
      assert s[i..i + n + 1][..n] == s[i..i + n];
      v := v * 16 + digit.value;
      n := n + 1;
    }
    FromHexTake(s[i..], count);
    assert s[i..][..count] == s[i..i + count];
    return Some(v);
  }

  lemma {:induction false} FromHexTake(s: string, count: nat)
    requires count <= |s|
    ensures FromHex(s, count) == FromHex(s[..count], count)
  {
    if count > 0 { assert s[..count][..count - 1] == s[..count - 1]; }
  }

  lemma {:induction false} FromHexStops(s: string, n: nat, count: nat)
    requires n < count && (n < |s| ==> HexValue(s[n]).None?)
    ensures FromHex(s, count).None?
  {
    if |s| >= count && n < count - 1 {
      FromHexStops(s[..count - 1], n, count - 1);
    }
  }

  // ----- encoding -----

  predicate IsKept(c: char) {
    || IsAlnum(c)
    || c == '-' || c == '_' || c == '.' || c == '!' || c == '~' || c == '*' || c == '\'' || c == '(' || c == ')'
  }

  function EncodeChar(c: char): string
    requires c as int < 256
  {
    if IsKept(c) then [c] else ['%', UpperHexDigit(c as int / 16), UpperHexDigit(c as int % 16)]
  }

  function Encode(value: string): (r: string)
    requires IsBytes(value)
    ensures value != "" ==> r != ""
    ensures forall i :: 0 <= i < |r| ==> IsKept(r[i]) || r[i] == '%'
  {
    if value == "" then "" else EncodeChar(value[0]) + Encode(value[1..])
  }

  lemma {:induction false} EncodeAppend(a: string, b: string)
    requires IsBytes(a) && IsBytes(b)
    ensures IsBytes(a + b) && Encode(a + b) == Encode(a) + Encode(b)
  {
    hide EncodeChar, IsBytes;
    BytesAppend(a, b);
    if a == "" {
      assert a + b == b;
    } else {
      BytesTail(a);
      BytesTail(a + b);
      assert (a + b)[1..] == a[1..] + b;
      EncodeAppend(a[1..], b);
      Assoc(EncodeChar(a[0]), Encode(a[1..]), Encode(b));
    }
  }

  lemma BytesAppend(a: string, b: string)
    requires IsBytes(a) && IsBytes(b)
    ensures IsBytes(a + b)
  {
  }

  lemma BytesTail(a: string)
    requires IsBytes(a) && a != ""
    ensures a[0] as int < 256 && IsBytes(a[1..])
  {
  }

  lemma EncodeOne(c: char)
    requires c as int < 256
    ensures Encode([c]) == EncodeChar(c)
  {
    assert [c][1..] == "";
  }

  lemma EncodeNone()
    ensures Encode("") == ""
  {
  }

  method EncodeQueryParam(value: string) returns (escaped: string)
    requires IsBytes(value)
    ensures escaped == Encode(value)
  {
    hide Encode;
    escaped := "";
    EncodeNone();
    for i := 0 to |value|
      invariant IsBytes(value[..i]) && escaped == Encode(value[..i])
    {
      var c := value[i];
      assert value[..i + 1] == value[..i] + [c];
      EncodeAppend(value[..i], [c]);
      EncodeOne(c);
      if IsKept(c) {
        escaped := escaped + [c];
      } else {
        escaped := escaped + ['%', UpperHexDigit(c as int / 16), UpperHexDigit(c as int % 16)];
      }
    }
    assert value[..|value|] == value;
  }

  // ----- decoding -----

  /** The UTF-8 form of a code point; surrogates and numbers past U+10FFFF have none. */
  function Utf8(code: nat): string {
    if code < 0x80 then [code as char]
    else if code < 0x800 then [(0xC0 + code / 64) as char, (0x80 + code % 64) as char]
    else if 0xD800 <= code < 0xE000 then ""
    else if code < 0x10000 then
      [(0xE0 + code / 4096) as char, (0x80 + code / 64 % 64) as char, (0x80 + code % 64) as char]
    else if code < 0x110000 then
      [(0xF0 + code / 262144) as char, (0x80 + code / 4096 % 64) as char, (0x80 + code / 64 % 64) as char,
       (0x80 + code % 64) as char]
    else ""
  }

  /** What the text starts with, decoded, and how many characters that is. */
  function DecodeOne(s: string, plusToSpace: bool): (r: (string, nat))
    requires s != ""
    ensures 0 < r.1 <= |s|
  {
    if s[0] == '%' && |s| > 1 then
      if s[1] == 'u' then
        match FromHex(s[2..], 4)
        case Some(val) => (Utf8(val), 6)
        case None => ("%", 1)
      else
        match FromHex(s[1..], 2)
        case Some(val) => FromHexBound(s[1..], 2); assert Power16(1) == 16; ([val as char], 3)
        case None => ("%", 1)
    else if plusToSpace && s[0] == '+' then (" ", 1)
    else ([s[0]], 1)
  }

  function Decode(s: string, plusToSpace: bool): string
    decreases |s|
  {
    if s == "" then ""
    else
      var (out, n) := DecodeOne(s, plusToSpace);
      out + Decode(s[n..], plusToSpace)
  }

  /** One turn of the decoder's loop at index `i`: what it appends and how far it moves. */
  method DecodeAt(s: string, i: nat, plusToSpace: bool) returns (out: string, n: nat)
    requires i < |s|
    ensures (out, n) == DecodeOne(s[i..], plusToSpace)
  {
    hide Utf8;
    out, n := [s[i]], 1;
    if s[i] == '%' && i + 1 < |s| {
      if s[i + 1] == 'u' {
        assert s[i..][2..] == s[i + 2..];
        var val := FromHexToI(s, i + 2, 4);
        if val.Some? { out, n := Utf8(val.value), n + 5; }
      } else {
        assert s[i..][1..] == s[i + 1..];
        var val := FromHexToI(s, i + 1, 2);
        if val.Some? {
          FromHexBound(s[i + 1..], 2);
          assert Power16(1) == 16;
          out, n := [val.value as char], n + 2;
        }
      }
    } else if plusToSpace && s[i] == '+' {
      out := " ";
    }
  }

  method DecodeUrl(s: string, plusToSpace: bool) returns (result: string)
    ensures result == Decode(s, plusToSpace)
  {
    hide DecodeOne;
    result := "";
    var i := 0;
    while i < |s|
      invariant i <= |s|
      invariant result + Decode(s[i..], plusToSpace) == Decode(s, plusToSpace)
    {
      var out, n := DecodeAt(s, i, plusToSpace);
      assert s[i..][n..] == s[i + n..];
      result := result + out;
      i := i + n;
    }
  }

  // ----- decoding undoes encoding -----

  lemma {:induction false} FromHexTwo(s: string, high: nat, low: nat)
    requires high < 16 && low < 16 && |s| >= 2
    requires s[0] == UpperHexDigit(high) && s[1] == UpperHexDigit(low)
    ensures FromHex(s, 2) == Some(high * 16 + low)
  {
    assert FromHex(s[..1], 1) == Some(high);
  }

  lemma DecodeOneEncoded(c: char, tail: string, plusToSpace: bool)
    requires c as int < 256
    ensures DecodeOne(EncodeChar(c) + tail, plusToSpace) == ([c], |EncodeChar(c)|)
  {
    if !IsKept(c) {
      var s := EncodeChar(c) + tail;
      assert s[1] == UpperHexDigit(c as int / 16) && s[1..][1] == UpperHexDigit(c as int % 16);
      FromHexTwo(s[1..], c as int / 16, c as int % 16);
    }
  }

  /** Encoded text decodes to the value, whether or not plus signs mean spaces. */
  lemma {:induction false} DecodeEncode(value: string, plusToSpace: bool)
    requires IsBytes(value)
    ensures Decode(Encode(value), plusToSpace) == value
  {
    hide DecodeOne, EncodeChar;
    if value != "" {
      var e, tail := EncodeChar(value[0]), Encode(value[1..]);
      DecodeOneEncoded(value[0], tail, plusToSpace);
      assert (e + tail)[|e|..] == tail;
      DecodeEncode(value[1..], plusToSpace);
      assert value == [value[0]] + value[1..];
    }
  }

  lemma {:induction false} DecodeUnreserved(s: string, plusToSpace: bool)
    requires forall i :: 0 <= i < |s| ==> IsUnreserved(s[i])
    ensures Decode(s, plusToSpace) == s
  {
    if s != "" { DecodeUnreserved(s[1..], plusToSpace); }
  }

  lemma {:induction false} EncodeInjective(a: string, b: string)
    requires IsBytes(a) && IsBytes(b) && Encode(a) == Encode(b)
    ensures a == b
  {
    DecodeEncode(a, true);
    DecodeEncode(b, true);
  }

  // ----- parameter multimaps -----

  /** The pairs of a std::multimap in iteration order. */
  type Params = seq<(string, string)>

  /** std::string's order: by unsigned byte, a proper prefix first. */
  predicate Less(a: string, b: string) {
    b != "" && (a == "" || a[0] < b[0] || (a[0] == b[0] && Less(a[1..], b[1..])))
  }

  ghost predicate Sorted(params: Params) {
    forall i, j :: 0 <= i < j < |params| ==> !Less(params[j].0, params[i].0)
  }

  /** The first index from `i` on whose key is greater than `key`. */
  function UpperBound(params: Params, key: string, i: nat): (r: nat)
    requires i <= |params|
    ensures i <= r <= |params|
    decreases |params| - i
  {
    if i == |params| || Less(key, params[i].0) then i else UpperBound(params, key, i + 1)
  }

  function Emplace(params: Params, key: string, value: string): Params {
    var i := UpperBound(params, key, 0);
    params[..i] + [(key, value)] + params[i..]
  }

  lemma {:induction false} UpperBoundAtEnd(params: Params, key: string, i: nat)
    requires i <= |params| && forall k :: i <= k < |params| ==> !Less(key, params[k].0)
    ensures UpperBound(params, key, i) == |params|
    decreases |params| - i
  {
    if i < |params| { UpperBoundAtEnd(params, key, i + 1); }
  }

  // ----- the query text -----

  function PairText(p: (string, string)): string
    requires IsBytes(p.1)
  {
    p.0 + "=" + Encode(p.1)
  }

  ghost predicate AllBytes(params: Params) {
    forall i :: 0 <= i < |params| ==> IsBytes(params[i].1)
  }

  function Texts(params: Params): (r: seq<string>)
    requires AllBytes(params)
    ensures |r| == |params| && forall i :: 0 <= i < |r| ==> r[i] == PairText(params[i])
  {
    if params == [] then [] else Texts(params[..|params| - 1]) + [PairText(params[|params| - 1])]
  }

  lemma {:induction false} JoinLast(parts: seq<string>, last: string, d: char)
    ensures Join(parts + [last], d) == if parts == [] then last else Join(parts, d) + [d] + last
  {
    if |parts| > 1 {
      JoinLast(parts[1..], last, d);
      assert (parts + [last])[1..] == parts[1..] + [last];
    } else if |parts| == 1 {
      assert (parts + [last])[1..] == [last];
    }
  }

  lemma {:induction false} JoinNone(d: char)
    ensures Join([], d) == ""
  {
  }

  method ParamsToQueryStr(params: Params) returns (query: string)
    requires AllBytes(params)
    ensures query == Join(Texts(params), '&')
  {
    hide Join, Encode;
    query := "";
    JoinNone('&');
    for i := 0 to |params|
      invariant AllBytes(params[..i]) && query == Join(Texts(params[..i]), '&')
    {
      assert params[..i + 1][..i] == params[..i];
      assert Texts(params[..i + 1]) == Texts(params[..i]) + [PairText(params[i])];
      JoinLast(Texts(params[..i]), PairText(params[i]), '&');
      if i != 0 { query := query + "&"; }
      var value := EncodeQueryParam(params[i].1);
      query := query + params[i].0;
      query := query + "=";
      query := query + value;
    }
    assert params[..|params|] == params;
  }

  /** The key and value a field `kv` gives: its first piece and, of the others, the last. */
  function KeyValue(kv: string): Option<(string, string)> {
    var pieces := Fields(kv, '=');
    if pieces == [] then None
    else Some((pieces[0], if |pieces| == 1 then "" else pieces[|pieces| - 1]))
  }

  lemma KeyValueOf(key: string, value: string)
    requires Solid(key, '=') && (value != "" ==> Solid(value, '='))
    ensures KeyValue(key + "=" + value) == Some((key, value))
  {
    hide Fields, Trim;
    var s := key + "=" + value;
    assert s[..|key|] == key && s[|key|] == '=' && s[|key| + 1..] == value;
    FieldsAt(s, '=', |key|);
    TrimPlain(key);
    assert value[..|value|] == value;
    FieldsAt(value, '=', |value|);
    TrimPlain(value);
  }

  /** Taking in the fields in order, each only the first time it occurs. */
  function Collect(fields: seq<string>): Params {
    if fields == [] then [] else
      var (before, kv) := (fields[..|fields| - 1], fields[|fields| - 1]);
      var params := Collect(before);
      match KeyValue(kv)
      case Some((key, value)) =>
        if kv in before then params else Emplace(params, Decode(key, true), Decode(value, true))
      case None => params
  }

  lemma CollectNone()
    ensures Collect([]) == []
  {
  }

  lemma {:induction false} CollectLast(fields: seq<string>, kv: string)
    ensures Collect(fields + [kv]) ==
      if kv in fields then Collect(fields) else
        match KeyValue(kv)
        case None => Collect(fields)
        case Some(pair) => Emplace(Collect(fields), Decode(pair.0, true), Decode(pair.1, true))
  {
    assert (fields + [kv])[..|fields|] == fields;
  }

  function Parse(query: string): Params {
    Collect(Fields(query, '&'))
  }

  method SplitPair(kv: string) returns (key: string, val: string)
    ensures match KeyValue(kv) case None => key == "" case Some(p) => key != "" && (key, val) == p
  {
    var pieces := Split(kv, '=');
    FieldsNonEmpty(kv, '=');
    key, val := "", "";
    for i := 0 to |pieces|
      invariant (key == "") == (i == 0) && (i > 0 ==> key == pieces[0])
      invariant val == if i <= 1 then "" else pieces[i - 1]
    {
      assert pieces[i] in Fields(kv, '=');
      if key == "" {
        key := pieces[i];
      } else {
        val := pieces[i];
      }
    }
  }

  method ParseQueryText(query: string) returns (params: Params)
    ensures params == Parse(query)
  {
    hide Collect, KeyValue, Decode, Emplace, Elements, Fields;
    NoElements();
    var fields := Split(query, '&');
    var cache: set<string> := {};
    params := [];
    CollectNone();
    for i := 0 to |fields|
      invariant params == Collect(fields[..i])
      invariant cache == Elements(fields[..i])
    {
      var kv := fields[i];
      ElementsMore(fields, i);
      CollectLast(fields[..i], kv);
      var key, val := SplitPair(kv);
      if kv !in cache {
        cache := cache + {kv};
        if key != "" {
          key := DecodeUrl(key, true);
          val := DecodeUrl(val, true);
          params := Emplace(params, key, val);
        }
      }
    }
    assert fields[..|fields|] == fields;
  }

  // ----- round trip -----

  predicate IsKey(s: string) {
    s != "" && forall k :: 0 <= k < |s| ==> IsUnreserved(s[k])
  }

  /** Keys are written as they are, so they must be unreserved characters; values may be any bytes. */
  ghost predicate Writable(params: Params) {
    && Sorted(params) && AllBytes(params)
    && forall i :: 0 <= i < |params| ==> IsKey(params[i].0)
  }

  function Distinct(params: Params): Params {
    if params == [] then [] else
      var (before, p) := (params[..|params| - 1], params[|params| - 1]);
      if p in before then Distinct(before) else Distinct(before) + [p]
  }

  lemma {:induction false} DistinctFrom(params: Params)
    ensures forall p :: p in Distinct(params) ==> p in params
    ensures |Distinct(params)| <= |params|
  {
    if params != [] {
      DistinctFrom(params[..|params| - 1]);
      assert params == params[..|params| - 1] + [params[|params| - 1]];
    }
  }

  lemma PairTextSolid(p: (string, string))
    requires IsBytes(p.1) && IsKey(p.0)
    ensures Solid(PairText(p), '&')
  {
    var (key, value) := (p.0, Encode(p.1));
    var s := key + "=" + value;
    forall i | 0 <= i < |s| ensures s[i] != '&' && !IsBlank(s[i]) {
      if i < |key| { assert s[i] == key[i]; } else if i > |key| { assert s[i] == value[i - |key| - 1]; }
    }
  }

  lemma PairTextBack(p: (string, string))
    requires IsBytes(p.1) && IsKey(p.0)
    ensures KeyValue(PairText(p)) == Some((p.0, Encode(p.1)))
  {
    hide KeyValue;
    KeyValueOf(p.0, Encode(p.1));
  }

  lemma PairTextInjective(p: (string, string), q: (string, string))
    requires IsBytes(p.1) && IsKey(p.0) && IsBytes(q.1) && IsKey(q.0)
    requires PairText(p) == PairText(q)
    ensures p == q
  {
    hide KeyValue;
    PairTextBack(p);
    PairTextBack(q);
    EncodeInjective(p.1, q.1);
  }

  lemma {:induction false} TextRepeated(params: Params, p: (string, string))
    requires Writable(params) && IsBytes(p.1) && IsKey(p.0)
    ensures PairText(p) in Texts(params) <==> p in params
  {
    if p in params {
      var i :| 0 <= i < |params| && params[i] == p;
      assert Texts(params)[i] == PairText(p);
    } else if i :| 0 <= i < |params| && Texts(params)[i] == PairText(p) {
      PairTextInjective(params[i], p);
    }
  }

  /** A pair that sorts last is put last. */
  lemma {:induction false} EmplaceLast(params: Params, p: (string, string))
    requires Sorted(params + [p])
    ensures Emplace(Distinct(params), p.0, p.1) == Distinct(params) + [p]
  {
    hide Less;
    var d := Distinct(params);
    DistinctFrom(params);
    forall k | 0 <= k < |d| ensures !Less(p.0, d[k].0) {
      assert d[k] in params;
      var i :| 0 <= i < |params| && params[i] == d[k];
      assert (params + [p])[i] == d[k] && (params + [p])[|params|] == p;
    }
    UpperBoundAtEnd(d, p.0, 0);
  }

  lemma {:induction false} CollectTexts(params: Params)
    requires Writable(params)
    ensures Collect(Texts(params)) == Distinct(params)
  {
    hide KeyValue, PairText, Decode, Less, Collect, Emplace;
    if params == [] {
      CollectNone();
    } else {
      var n := |params| - 1;
      var (before, p) := (params[..n], params[n]);
      CollectTexts(before);
      CollectLast(Texts(before), PairText(p));
      PairTextBack(p);
      DecodeUnreserved(p.0, true);
      DecodeEncode(p.1, true);
      TextRepeated(before, p);
      assert before + [p] == params;
      EmplaceLast(before, p);
    }
  }

  /** Reading a written query gives back the pairs, each once. */
  lemma {:induction false} ParseWritten(params: Params)
    requires Writable(params)
    ensures Parse(Join(Texts(params), '&')) == Distinct(params)
  {
    forall i | 0 <= i < |params| ensures Solid(Texts(params)[i], '&') {
      PairTextSolid(params[i]);
    }
    FieldsOfJoin(Texts(params), '&');
    CollectTexts(params);
  }

  ghost predicate NoRepeats(params: Params) {
    forall i, j :: 0 <= i < j < |params| ==> params[i] != params[j]
  }

  lemma NoRepeatsLast(before: Params, p: (string, string))
    ensures NoRepeats(before + [p]) <==> NoRepeats(before) && p !in before
  {
    var params := before + [p];
    if NoRepeats(params) {
      forall i, j | 0 <= i < j < |before| ensures before[i] != before[j] {
        assert params[i] == before[i] && params[j] == before[j];
      }
      forall i | 0 <= i < |before| ensures before[i] != p {
        assert params[i] == before[i] && params[|before|] == p;
      }
    }
  }

  lemma {:induction false} DistinctSame(params: Params)
    ensures Distinct(params) == params <==> NoRepeats(params)
  {
    hide NoRepeats;
    if params == [] {
      NoneRepeat();
    } else {
      var n := |params| - 1;
      DistinctSame(params[..n]);
      DistinctFrom(params[..n]);
      NoRepeatsLast(params[..n], params[n]);
      assert params == params[..n] + [params[n]];
    }
  }

  lemma NoneRepeat()
    ensures NoRepeats([])
  {
  }

  /** The round trip holds exactly when no pair is repeated: the reader drops repetitions. */
  lemma {:induction false} RoundTrip(params: Params)
    requires Writable(params)
    ensures Parse(Join(Texts(params), '&')) == params <==> NoRepeats(params)
  {
    ParseWritten(params);
    DistinctSame(params);
  }
}
