/** Writing a multipart/form-data body, and reading it back. */
module MultipartForm {
  import opened MultipartChunks
  import opened MultipartSpec
  import opened Query
  import opened Text
  import opened Wrappers

  // ----- the serializer -----

  function Quoted(s: string): string {
    "\"" + s + "\""
  }

  /** The parameters of a Content-Disposition line. */
  function DispositionText(f: File): string {
    "name=" + Quoted(f.name) + if f.filename == "" then "" else "; filename=" + Quoted(f.filename)
  }

  function DispositionLine(f: File): string {
    "Content-Disposition:" + " " + "form-data;" + " " + DispositionText(f)
  }

  function TypeLine(f: File): string {
    "Content-Type:" + " " + f.contentType
  }

  function HeaderLines(f: File): string {
    DispositionLine(f) + CRLF + (if f.contentType == "" then "" else TypeLine(f) + CRLF) + CRLF
  }

  function ItemText(item: Part, boundary: string): string {
    OpeningLine(boundary) + HeaderLines(item.file) + item.content + CRLF
  }

  function ItemTexts(items: seq<Part>, boundary: string): string {
    if items == [] then "" else ItemText(items[0], boundary) + ItemTexts(items[1..], boundary)
  }

  function Serialized(items: seq<Part>, boundary: string, finish: bool): string {
    ItemTexts(items, boundary) + if finish then DASH + boundary + DASH + CRLF else ""
  }

  lemma {:induction false} ItemTextsLast(items: seq<Part>, item: Part, boundary: string)
    ensures ItemTexts(items + [item], boundary) == ItemTexts(items, boundary) + ItemText(item, boundary)
  {
    hide ItemText;
    if items == [] {
      assert [item][1..] == [];
      assert items + [item] == [item];
      assert ItemTexts([item], boundary) == ItemText(item, boundary) + ItemTexts([], boundary);
    } else {
      ItemTextsLast(items[1..], item, boundary);
      assert (items + [item])[1..] == items[1..] + [item];
    }
  }

  lemma LinesInPieces(f: File)
    ensures DispositionLine(f) == "Content-Disposition: form-data; name=\"" + f.name + "\"" +
                                  if f.filename == "" then "" else "; filename=\"" + f.filename + "\""
    ensures TypeLine(f) == "Content-Type: " + f.contentType
  {
    assert "Content-Disposition: form-data; name=\""
        == "Content-Disposition:" + " " + "form-data;" + " " + "name=" + "\"";
    assert "; filename=\"" == "; filename=" + "\"";
    assert "Content-Type: " == "Content-Type:" + " ";
  }

  method SerializeItemBegin(item: Part, boundary: string) returns (body: string)
    ensures body == OpeningLine(boundary) + HeaderLines(item.file)
  {
    hide DispositionLine, TypeLine;
    LinesInPieces(item.file);
    body := "--" + boundary + "\r\n";
    var line := "Content-Disposition: form-data; name=\"" + item.file.name + "\"";
    if item.file.filename != "" {
      line := line + ("; filename=\"" + item.file.filename + "\"");
    }
    body := body + line;
    body := body + "\r\n";
    if item.file.contentType != "" {
      body := body + ("Content-Type: " + item.file.contentType + "\r\n");
    }
    body := body + "\r\n";
  }

  method Serialize(items: seq<Part>, boundary: string, finish: bool) returns (body: string)
    ensures body == Serialized(items, boundary, finish)
  {
    hide HeaderLines, OpeningLine;
    body := "";
    for i := 0 to |items|
      invariant body == ItemTexts(items[..i], boundary)
    {
      assert items[..i + 1] == items[..i] + [items[i]];
      ItemTextsLast(items[..i], items[i], boundary);
      var begin := SerializeItemBegin(items[i], boundary);
      body := body + begin;
      body := body + (items[i].content + "\r\n");
    }
    assert items[..|items|] == items;
    if finish { body := body + ("--" + boundary + "--\r\n"); }
  }

  // ----- what can be written so that it reads back -----

  predicate IsBoundaryChar(c: char) {
    IsAlnum(c) || c == '-' || c == '_'
  }

  predicate IsBoundary(boundary: string) {
    forall i :: 0 <= i < |boundary| ==> IsBoundaryChar(boundary[i])
  }

  method IsBoundaryValid(boundary: string) returns (valid: bool)
    ensures valid == IsBoundary(boundary)
  {
    valid := true;
    var i := 0;
    while i < |boundary|
      invariant i <= |boundary| && valid
      invariant forall k :: 0 <= k < i ==> IsBoundaryChar(boundary[k])
    {
      var c := boundary[i];
      if !IsAlnum(c) && c != '-' && c != '_' {
        valid := false;
        break;
      }
      i := i + 1;
    }
  }

  /** A parameter value that survives splitting at ';' and '=' and stays on one line. */
  predicate IsPlain(s: string) {
    ';' !in s && '=' !in s && '\r' !in s && '\n' !in s
  }

  predicate IsPlainType(s: string) {
    '\r' !in s && '\n' !in s && (s != "" ==> !IsBlank(s[0]) && !IsBlank(s[|s| - 1]))
  }

  predicate IsWritable(f: File) {
    && IsPlain(f.name) && IsPlain(f.filename) && IsPlainType(f.contentType)
    && |DispositionLine(f)| < MAX_HEADER && |TypeLine(f)| < MAX_HEADER
  }

  ghost predicate IsForm(items: seq<Part>, boundary: string) {
    && items != [] && IsBoundary(boundary)
    && forall i :: 0 <= i < |items| ==>
         IsWritable(items[i].file) && Find(items[i].content, Delimiter(boundary)) == |items[i].content|
  }

  // ----- reading the header lines -----

  lemma UnquoteQuoted(s: string)
    ensures Unquote(Quoted(s)) == s
  {
  }

  lemma SolidPair(key: string, value: string, d: char)
    requires Solid(key, d) && Solid(value, d) && d != '='
    ensures Solid(key + "=" + value, d)
  {
  }

  lemma {:induction false} FieldsOfTwo(a: string, b: string)
    requires Solid(a, ';') && Solid(b, ';')
    ensures Fields(a + ";" + (" " + b), ';') == [a] + [b]
  {
    hide Fields, Trim;
    var s := a + ";" + (" " + b);
    assert s[..|a|] == a && s[|a|] == ';' && s[|a| + 1..] == " " + b;
    FieldsAt(s, ';', |a|);
    TrimPlain(a);
    assert (" " + b)[..|" " + b|] == " " + b;
    FieldsAt(" " + b, ';', |" " + b|);
    TrimOneBlank(b);
  }

  lemma {:induction false} FieldsOfOne(a: string)
    requires Solid(a, ';')
    ensures Fields(a, ';') == [a]
  {
    hide Fields, Trim;
    assert a[..|a|] == a;
    FieldsAt(a, ';', |a|);
    TrimPlain(a);
  }

  lemma ParamRead(key: string, value: string)
    requires Solid(key, '=') && Solid(key, ';') && key[0] != '\"' && IsPlain(value)
    ensures var kv := key + "=" + Quoted(value);
      Solid(kv, ';') && KeyValue(kv) == Some((key, Quoted(value)))
    ensures Unquote(key) == key && Unquote(Quoted(value)) == value
  {
    hide KeyValue;
    KeyValueOf(key, Quoted(value));
    SolidPair(key, Quoted(value), ';');
    UnquoteQuoted(value);
  }

  lemma DispositionTextOf(f: File)
    ensures f.filename == "" ==> DispositionText(f) == "name" + "=" + Quoted(f.name)
    ensures f.filename != "" ==>
      DispositionText(f) == "name" + "=" + Quoted(f.name) + ";" + (" " + ("filename" + "=" + Quoted(f.filename)))
  {
  }

  lemma ParamsRead(f: File)
    requires IsPlain(f.name) && IsPlain(f.filename)
    ensures DispositionParams(Fields(DispositionText(f), ';'))
         == [("name", f.name)] + if f.filename == "" then [] else [("filename", f.filename)]
  {
    hide KeyValue, Fields, DispositionParams, DispositionText, Quoted, Unquote;
    DispositionTextOf(f);
    ParamRead("name", f.name);
    var kv := "name" + "=" + Quoted(f.name);
    OneParam(kv, "name", Quoted(f.name));
    if f.filename == "" {
      FieldsOfOne(kv);
    } else {
      ParamRead("filename", f.filename);
      var kv2 := "filename" + "=" + Quoted(f.filename);
      FieldsOfTwo(kv, kv2);
      assert kv[0] == 'n' && kv2[0] == 'f';
      TwoParams(kv, kv2, "filename", Quoted(f.filename));
    }
  }

  lemma TrimOneBlank(s: string)
    requires s != "" && !IsBlank(s[0]) && !IsBlank(s[|s| - 1])
    ensures Trim(" " + s) == s
  {
    TrimLeftAt(" " + s, 1);
    assert (" " + s)[1..] == s;
    TrimPlain(s);
  }

  lemma OneParam(kv: string, key: string, value: string)
    requires KeyValue(kv) == Some((key, value))
    ensures DispositionParams([kv]) == [(Unquote(key), Unquote(value))]
  {
    assert [kv][..0] == [];
    assert DispositionParams([]) == [];
  }

  lemma TwoParams(first: string, kv: string, key: string, value: string)
    requires KeyValue(kv) == Some((key, value)) && kv != first
    ensures DispositionParams([first] + [kv]) == DispositionParams([first]) + [(Unquote(key), Unquote(value))]
  {
    assert ([first] + [kv])[..1] == [first];
  }

  lemma {:induction false} SkipOne(s: string)
    requires s != "" && !IsSpace(s[0])
    ensures SkipSpaces(" " + s) == s
  {
    assert (" " + s)[1..] == s;
  }

  lemma StartsWithItself(a: string, b: string)
    ensures StartsIgnoringCase(a + b, a) && (a + b)[|a|..] == b
  {
  }

  lemma MatchesText(text: string)
    requires text != "" && !IsSpace(text[0]) && '\n' !in text && '\r' !in text
    ensures MatchDisposition("Content-Disposition:" + (" " + ("form-data;" + (" " + text)))) == Some(text)
  {
    hide StartsIgnoringCase, SkipSpaces;
    var tail := "form-data;" + (" " + text);
    StartsWithItself("Content-Disposition:", " " + tail);
    SkipOne(tail);
    StartsWithItself("form-data;", " " + text);
    SkipOne(text);
  }

  lemma DispositionIsNotType(s: string)
    ensures !StartsIgnoringCase("Content-Disposition:" + s, "content-type:")
  {
    assert ("Content-Disposition:" + s)[8] == 'D' && "content-type:"[8] == 't';
  }

  lemma DispositionTextPlain(f: File)
    requires IsPlain(f.name) && IsPlain(f.filename)
    ensures var text := DispositionText(f); text != "" && text[0] == 'n' && '\n' !in text && '\r' !in text
  {
  }

  lemma DispositionReads(f: File)
    requires IsPlain(f.name) && IsPlain(f.filename)
    ensures ReadHeader(DispositionLine(f), NO_FILE) == Some(f.(contentType := ""))
  {
    hide MatchDisposition, DispositionParams, Fields, DispositionText, StartsIgnoringCase, WithDisposition;
    var text := DispositionText(f);
    DispositionTextPlain(f);
    MatchesText(text);
    assert DispositionLine(f) == "Content-Disposition:" + (" " + ("form-data;" + (" " + text)));
    DispositionIsNotType(" " + ("form-data;" + (" " + text)));
    ParamsRead(f);
    AppliesParams(f);
  }

  lemma AppliesParams(f: File)
    ensures WithDisposition([("name", f.name)] + if f.filename == "" then [] else [("filename", f.filename)], NO_FILE)
         == Some(f.(contentType := ""))
  {
    assert |"filename*"| == 9 && |"filename"| == 8 && |"name"| == 4;
    var params := [("name", f.name)] + if f.filename == "" then [] else [("filename", f.filename)];
    assert params[1..] == if f.filename == "" then [] else [("filename", f.filename)];
    if f.filename != "" {
      assert params[1..][1..] == [];
    }
    assert FirstValue([], "filename") == None && FirstValue([], "filename*") == None;
    assert FirstValue(params[1..], "filename") == if f.filename == "" then None else Some(f.filename);
    assert FirstValue(params[1..], "filename*") == None;
  }

  lemma TypeLineStarts(s: string)
    ensures var line := "Content-Type:" + s; StartsIgnoringCase(line, "content-type:") && line[|"content-type:"|..] == s
  {
    assert |"Content-Type:"| == |"content-type:"|;
  }

  lemma TypeReads(f: File, file: File)
    requires IsPlainType(f.contentType) && f.contentType != ""
    ensures ReadHeader(TypeLine(f), file) == Some(file.(contentType := f.contentType))
  {
    hide Trim, MatchDisposition;
    TypeLineStarts(" " + f.contentType);
    assert TypeLine(f) == "Content-Type:" + (" " + f.contentType);
    TrimOneBlank(f.contentType);
  }

  // ----- reading whole items -----

  lemma {:induction false} LineEnds(line: string, more: string)
    requires '\r' !in line
    ensures Find(line + CRLF + more, CRLF) == |line|
  {
    FindNone(line, CRLF);
    FindBeforeMark(line, CRLF, more);
  }

  /** One header line read off the front. */
  lemma {:induction false} ReadsLine(c: Config, line: string, more: string, file: File)
    requires c.state.Header? && c.rest == line + CRLF + more && line != "" && '\r' !in line && |line| < MAX_HEADER
    requires ReadHeader(line, c.file) == Some(file)
    ensures var d := c.(file := file, rest := more);
      ReadHeaders(c) == ReadHeaders(d) && (ShortLines(d) ==> ShortLines(c))
  {
    hide ReadHeader;
    LineEnds(line, more);
    assert c.rest[..|line|] == line && c.rest[|line| + 2..] == more;
  }

  lemma {:induction false} ReadsEmptyLine(c: Config, more: string)
    requires c.state.Header? && c.rest == CRLF + more
    ensures ReadHeaders(c) == (true, c.(parts := c.parts + [Part(c.file, "")], rest := more, state := Body))
    ensures ShortLines(c)
  {
    assert c.rest == "" + CRLF + more;
    LineEnds("", more);
    assert c.rest[2..] == more;
  }

  lemma {:induction false} HeadersRead(c: Config, f: File, more: string)
    requires c.state.Header? && c.file == NO_FILE && IsWritable(f) && c.rest == HeaderLines(f) + more
    ensures ReadHeaders(c) == (true, c.(file := f, parts := c.parts + [Part(f, "")], rest := more, state := Body))
    ensures ShortLines(c)
  {
    hide ReadHeader, ReadHeaders, ShortLines, DispositionLine, TypeLine;
    var (line, typeLine) := (DispositionLine(f), TypeLine(f));
    var file := f.(contentType := "");
    DispositionReads(f);
    LinesPlain(f);
    var rest := (if f.contentType == "" then "" else typeLine + CRLF) + CRLF + more;
    assert c.rest == line + CRLF + rest;
    ReadsLine(c, line, rest, file);
    var d := c.(file := file, rest := rest);
    if f.contentType == "" {
      assert rest == CRLF + more;
      ReadsEmptyLine(d, more);
    } else {
      assert rest == typeLine + CRLF + (CRLF + more);
      TypeReads(f, file);
      ReadsLine(d, typeLine, CRLF + more, f);
      ReadsEmptyLine(d.(file := f, rest := CRLF + more), more);
    }
  }

  lemma LinesPlain(f: File)
    requires IsWritable(f)
    ensures DispositionLine(f) != "" && '\r' !in DispositionLine(f) && |DispositionLine(f)| < MAX_HEADER
    ensures TypeLine(f) != "" && '\r' !in TypeLine(f) && |TypeLine(f)| < MAX_HEADER
  {
    hide DispositionText;
    DispositionTextPlain(f);
  }

  /** What follows the first opening line of a serialized form. */
  function AfterFirstLine(items: seq<Part>, boundary: string): string
    requires items != []
    decreases |items|, 1
  {
    HeaderLines(items[0].file) + (items[0].content + Delimiter(boundary) + AfterItem(items, boundary))
  }

  function AfterItem(items: seq<Part>, boundary: string): string
    requires items != []
    decreases |items|, 0
  {
    if |items| == 1 then DASH + CRLF else CRLF + AfterFirstLine(items[1..], boundary)
  }

  lemma Regroup(o: string, h: string, c: string, l: string, t: string, z: string, d: string, r: string)
    requires l + (t + z) == d + r
    ensures o + h + c + l + t + z == o + (h + (c + d + r))
  {
    assert o + h + c + l + t + z == o + h + c + (l + (t + z));
    assert o + h + c + (d + r) == o + (h + (c + d + r));
  }

  lemma DelimiterGroups(boundary: string, x: string)
    ensures CRLF + (DASH + boundary + x) == Delimiter(boundary) + x
  {
  }

  lemma {:induction false} SerializedShape(items: seq<Part>, boundary: string)
    requires items != []
    ensures Serialized(items, boundary, true) == OpeningLine(boundary) + AfterFirstLine(items, boundary)
  {
    hide HeaderLines, Delimiter, ItemTexts;
    var item, closing, texts := items[0], DASH + boundary + DASH + CRLF, ItemTexts(items[1..], boundary);
    if |items| == 1 {
      assert items[1..] == [];
      NoItems(boundary);
      DelimiterGroups(boundary, DASH + CRLF);
      assert texts + closing == DASH + boundary + (DASH + CRLF);
    } else {
      SerializedShape(items[1..], boundary);
      DelimiterGroups(boundary, AfterItem(items, boundary));
      assert texts + closing == DASH + boundary + (CRLF + AfterFirstLine(items[1..], boundary));
    }
    FirstItem(items, boundary);
    Regroup(OpeningLine(boundary), HeaderLines(item.file), item.content, CRLF, texts, closing,
            Delimiter(boundary), AfterItem(items, boundary));
  }

  lemma {:induction false} NoItems(boundary: string)
    ensures ItemTexts([], boundary) == ""
  {
  }

  lemma {:induction false} FirstItem(items: seq<Part>, boundary: string)
    requires items != []
    ensures ItemTexts(items, boundary) == OpeningLine(boundary) + HeaderLines(items[0].file) + items[0].content + CRLF
                                          + ItemTexts(items[1..], boundary)
  {
  }

  // ----- the round trip -----

  lemma DelimiterDistinct(boundary: string)
    requires IsBoundary(boundary)
    ensures Delimiter(boundary) != "" && Delimiter(boundary)[0] !in Delimiter(boundary)[1..]
  {
    var mark := Delimiter(boundary);
    forall i | 1 <= i < |mark| ensures mark[i] != '\r' {
      if i >= 4 { assert mark[i] == boundary[i - 4]; }
    }
  }

  lemma {:induction false} ItemReads(boundary: string, c: Config, items: seq<Part>)
    requires IsForm(items, boundary) && c.state.NewEntry? && c.rest == AfterFirstLine(items, boundary)
    ensures var d := Config(Boundary, c.valid, items[0].file, c.parts + [items[0]], AfterItem(items, boundary));
      && |d.rest| + 2 < |c.rest| && Drain(boundary, c) == Drain(boundary, d)
      && (Tame(boundary, d) ==> Tame(boundary, c))
  {
    hide HeaderLines, AfterItem, ShortLines, ReadHeaders, Find, Drain, Tame, Deliver;
    var (item, mark, after) := (items[0], Delimiter(boundary), AfterItem(items, boundary));
    var h := c.(file := NO_FILE, state := Header);
    var more := item.content + mark + after;
    HeadersRead(h, item.file, more);
    HeaderLinesLong(item.file);
    DrainNewEntry(boundary, c);
    var b := h.(file := item.file, parts := c.parts + [Part(item.file, "")], rest := more, state := Body);
    DelimiterDistinct(boundary);
    FindBeforeMark(item.content, mark, after);
    DrainHeaders(boundary, h, b);
    DrainBody(boundary, b);
    assert more[..|item.content|] == item.content && more[|item.content| + |mark|..] == after;
    FirstDelivery(c.parts, item);
  }

  lemma FirstDelivery(parts: seq<Part>, item: Part)
    ensures Deliver(parts + [Part(item.file, "")], item.content) == parts + [item]
  {
    assert "" + item.content == item.content;
  }

  lemma HeaderLinesLong(f: File)
    ensures |HeaderLines(f)| > 2
  {
  }

  lemma {:induction false} ItemsRead(boundary: string, c: Config, items: seq<Part>)
    requires IsForm(items, boundary) && c.state.NewEntry? && c.rest == AfterFirstLine(items, boundary)
    ensures Seen(Drain(boundary, c)) == (true, true, c.parts + items) && Tame(boundary, c)
    decreases |items|
  {
    hide AfterFirstLine, Find, Drain, Tame, AfterItem;
    var d := Config(Boundary, c.valid, items[0].file, c.parts + [items[0]], AfterItem(items, boundary));
    ItemReads(boundary, c, items);
    AfterItemIs(items, boundary);
    if |items| == 1 {
      assert items == [items[0]];
      DrainClosing(boundary, d);
    } else {
      var next := d.(rest := AfterFirstLine(items[1..], boundary), state := NewEntry);
      DrainAgain(boundary, d, next.rest);
      ItemsRead(boundary, next, items[1..]);
      assert c.parts + [items[0]] + items[1..] == c.parts + items;
    }
  }

  lemma {:induction false} AfterItemIs(items: seq<Part>, boundary: string)
    requires items != []
    ensures AfterItem(items, boundary)
         == if |items| == 1 then DASH + CRLF else CRLF + AfterFirstLine(items[1..], boundary)
  {
  }

  lemma {:induction false} DrainClosing(boundary: string, c: Config)
    requires c.state.Boundary? && c.rest == DASH + CRLF
    ensures Seen(Drain(boundary, c)) == (true, true, c.parts) && Tame(boundary, c)
  {
    assert c.rest[0] == '-' && c.rest[2..] == CRLF;
  }

  lemma {:induction false} DrainAgain(boundary: string, c: Config, rest: string)
    requires c.state.Boundary? && c.rest == CRLF + rest
    ensures var d := c.(rest := rest, state := NewEntry);
      Drain(boundary, c) == Drain(boundary, d) && (Tame(boundary, d) ==> Tame(boundary, c))
  {
    assert c.rest[2..] == rest && c.rest[0] == '\r';
  }

  /** Reading a serialized form at once gives back its items. */
  lemma {:induction false} WholeFormReads(items: seq<Part>, boundary: string)
    requires IsForm(items, boundary)
    ensures var c := FRESH.Add(Serialized(items, boundary, true));
      Seen(Drain(boundary, c)) == (true, true, items) && Tame(boundary, c)
  {
    hide AfterFirstLine, Serialized;
    SerializedShape(items, boundary);
    var c := FRESH.Add(Serialized(items, boundary, true));
    var line, rest := OpeningLine(boundary), AfterFirstLine(items, boundary);
    assert c.rest == line + rest && line <= c.rest && c.rest[|line|..] == rest;
    assert Find(c.rest, line) == 0;
    DrainOpening(boundary, c);
    ItemsRead(boundary, AfterOpening(boundary, c), items);
    assert FRESH.parts + items == items;
  }

  /**
   The round trip: however a serialized form is cut into chunks, as long as the first one holds its opening
   line, the parser accepts every chunk, ends valid, and its callbacks have received exactly the items.
   */
  lemma {:induction false} RoundTrip(items: seq<Part>, boundary: string, chunks: seq<string>)
    requires IsForm(items, boundary) && Flatten(chunks) == Serialized(items, boundary, true)
    requires OpensWhole(boundary, chunks)
    ensures Seen(FeedAll(boundary, FRESH, chunks)) == (true, true, items)
  {
    WholeFormReads(items, boundary);
    ChunksDoNotMatter(boundary, FRESH, chunks);
  }
}
