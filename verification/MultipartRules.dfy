/**
 What the multipart parser of externals/httplib/httplib.h makes of header lines that its own serializer does not write,
 and what it insists on: the length of lines and the closing delimiter.
 */
module MultipartRules {
  import opened MultipartChunks
  import opened MultipartForm
  import opened MultipartSpec
  import opened Query
  import opened Text
  import opened Wrappers
  import QueryForms

  // ----- letter case -----

  /** Equal but for the case of ASCII letters. */
  predicate SameLetter(a: char, b: char) {
    || a == b
    || ('A' <= a <= 'Z' && b as int == a as int + 32)
    || ('A' <= b <= 'Z' && a as int == b as int + 32)
  }

  predicate SameLetters(a: string, b: string) {
    |a| == |b| && forall i :: 0 <= i < |a| ==> SameLetter(a[i], b[i])
  }

  lemma LetterCase(a: char, b: char)
    ensures Lower(a) == Lower(b) <==> SameLetter(a, b)
  {
  }

  lemma CasePrefix(s: string, name: string)
    ensures StartsIgnoringCase(s, name) <==> |name| <= |s| && SameLetters(s[..|name|], name)
  {
    hide Lower, SameLetter;
    forall i | 0 <= i < |name| && |name| <= |s|
      ensures Lower(s[i]) == Lower(name[i]) <==> SameLetter(s[..|name|][i], name[i])
    {
      LetterCase(s[i], name[i]);
    }
    if |name| <= |s| && SameLetters(s[..|name|], name) {
      forall i | 0 <= i < |name| ensures Lower(s[i]) == Lower(name[i]) {
        assert SameLetter(s[..|name|][i], name[i]);
      }
    }
  }

  lemma CaseThen(head: string, more: string, name: string)
    requires SameLetters(head, name)
    ensures StartsIgnoringCase(head + more, name) && (head + more)[|name|..] == more
  {
    hide SameLetters, StartsIgnoringCase;
    SameLength(head, name);
    assert (head + more)[..|name|] == head;
    CasePrefix(head + more, name);
  }

  lemma SameLength(a: string, b: string)
    requires SameLetters(a, b)
    ensures |a| == |b|
  {
  }

  // ----- blanks -----

  ghost predicate AreBlanks(s: string) {
    forall i :: 0 <= i < |s| ==> s[i] == ' ' || s[i] == '\t'
  }

  ghost predicate IsTrimmed(s: string) {
    s != "" ==> s[0] != ' ' && s[0] != '\t' && s[|s| - 1] != ' ' && s[|s| - 1] != '\t'
  }

  lemma TrimPadded(lead: string, core: string, trail: string)
    requires AreBlanks(lead) && AreBlanks(trail) && IsTrimmed(core) && core != ""
    ensures Trim(lead + (core + trail)) == core
  {
    var s := lead + (core + trail);
    assert forall i :: 0 <= i < |lead| ==> s[i] == lead[i];
    TrimLeftAt(s, |lead|);
    var t := core + trail;
    assert s[|lead|..] == t;
    assert t[|core| - 1] == core[|core| - 1] && forall i :: |core| <= i < |t| ==> t[i] == trail[i - |core|];
    TrimRightAt(t, |core|);
    assert t[..|core|] == core;
  }

  lemma {:induction false} FieldsOfPadded(parts: seq<string>, cores: seq<string>, d: char)
    requires |parts| == |cores|
    requires forall i :: 0 <= i < |parts| ==> d !in parts[i] && Trim(parts[i]) == cores[i] && cores[i] != ""
    ensures Fields(Join(parts, d), d) == cores
  {
    hide Fields, Trim;
    var s := Join(parts, d);
    if parts == [] {
      FieldsAt("", d, 0);
      TrimPlain("");
    } else if |parts| == 1 {
      assert s[..|s|] == s;
      FieldsAt(s, d, |s|);
    } else {
      var n := |parts[0]|;
      assert s[..n] == parts[0] && s[n] == d && s[n + 1..] == Join(parts[1..], d);
      FieldsAt(s, d, n);
      FieldsOfPadded(parts[1..], cores[1..], d);
    }
  }

  // ----- Content-Type -----

  /** In any letter case, the type is what is left of the line without blanks around it. */
  lemma TypeLineReads(head: string, lead: string, value: string, trail: string, file: File)
    requires SameLetters(head, "content-type:") && AreBlanks(lead) && AreBlanks(trail)
    requires IsTrimmed(value) && value != ""
    ensures ReadHeader(head + (lead + (value + trail)), file) == Some(file.(contentType := value))
  {
    hide Trim, SameLetters, StartsIgnoringCase;
    CaseThen(head, lead + (value + trail), "content-type:");
    TrimPadded(lead, value, trail);
  }

  // ----- Content-Disposition: its parameters -----

  /** One parameter with its blanks, quoted or not. */
  datatype Param = Param(lead: string, key: string, before: string, after: string, value: string, quoted: bool,
                         trail: string)

  function ValueText(p: Param): string {
    if p.quoted then "\"" + p.value + "\"" else p.value
  }

  function Core(p: Param): string {
    (p.key + p.before) + "=" + (p.after + ValueText(p))
  }

  function ParamText(p: Param): string {
    p.lead + (Core(p) + p.trail)
  }

  predicate IsClean(s: string) {
    ';' !in s && '=' !in s
  }

  ghost predicate IsParam(p: Param) {
    && AreBlanks(p.lead) && AreBlanks(p.before) && AreBlanks(p.after) && AreBlanks(p.trail)
    && p.key != "" && IsClean(p.key) && IsTrimmed(p.key) && p.key[0] != '"'
    && IsClean(p.value)
    && (!p.quoted ==> IsTrimmed(p.value) && (p.value != "" ==> p.value[0] != '"') && (p.value == "" ==> p.after == ""))
  }

  ghost predicate AreParams(params: seq<Param>) {
    forall i :: 0 <= i < |params| ==> IsParam(params[i])
  }

  function ParamTexts(params: seq<Param>): (r: seq<string>)
    ensures |r| == |params| && forall i :: 0 <= i < |r| ==> r[i] == ParamText(params[i])
  {
    seq(|params|, i requires 0 <= i < |params| => ParamText(params[i]))
  }

  function Cores(params: seq<Param>): (r: seq<string>)
    ensures |r| == |params| && forall i :: 0 <= i < |r| ==> r[i] == Core(params[i])
  {
    seq(|params|, i requires 0 <= i < |params| => Core(params[i]))
  }

  /** The value that is given first for a key. */
  function FirstGiven(params: seq<Param>, key: string): Option<string> {
    if params == [] then None else
      var n := |params| - 1;
      var first := FirstGiven(params[..n], key);
      if first.Some? then first else if params[n].key == key then Some(params[n].value) else None
  }

  lemma BlanksClean(s: string, c: char)
    requires AreBlanks(s) && !IsBlank(c)
    ensures c !in s
  {
  }

  lemma ValueTextIs(p: Param)
    requires IsParam(p)
    ensures var v := ValueText(p);
      && IsTrimmed(v) && ';' !in v && '=' !in v && Unquote(v) == p.value
      && (v == "" ==> p.after == "")
  {
  }

  lemma CoreIs(p: Param)
    requires IsParam(p)
    ensures Core(p) != "" && IsTrimmed(Core(p)) && ';' !in Core(p)
    ensures ';' !in ParamText(p) && Trim(ParamText(p)) == Core(p)
  {
    hide Trim, ValueText, IsTrimmed;
    ValueTextIs(p);
    BlanksClean(p.lead, ';');
    BlanksClean(p.before, ';');
    BlanksClean(p.after, ';');
    BlanksClean(p.trail, ';');
    CoreTrimmed(p.key, p.before, p.after, ValueText(p));
    TrimPadded(p.lead, Core(p), p.trail);
  }

  lemma CoreTrimmed(key: string, before: string, after: string, v: string)
    requires key != "" && IsTrimmed(key) && IsTrimmed(v) && (v == "" ==> after == "")
    ensures IsTrimmed((key + before) + "=" + (after + v))
  {
    var s := (key + before) + "=" + (after + v);
    assert s[0] == key[0];
    assert v != "" ==> s[|s| - 1] == v[|v| - 1];
    assert v == "" ==> s[|s| - 1] == '=';
  }

  lemma CoreKeyValue(p: Param)
    requires IsParam(p)
    ensures KeyValue(Core(p)) == Some((p.key, ValueText(p))) && Unquote(p.key) == p.key
  {
    hide Fields, Trim, ValueText, IsTrimmed;
    ValueTextIs(p);
    BlanksClean(p.before, '=');
    BlanksClean(p.after, '=');
    var (a, b) := (p.key + p.before, p.after + ValueText(p));
    var s := Core(p);
    assert s[..|a|] == a && s[|a|] == '=' && s[|a| + 1..] == b;
    FieldsAt(s, '=', |a|);
    TrimKey(p.key, p.before);
    assert b[..|b|] == b;
    FieldsAt(b, '=', |b|);
    TrimValue(p.after, ValueText(p));
  }

  lemma TrimKey(key: string, before: string)
    requires key != "" && IsTrimmed(key) && AreBlanks(before)
    ensures Trim(key + before) == key
  {
    hide Trim;
    assert "" + (key + before) == key + before;
    TrimPadded("", key, before);
  }

  lemma TrimValue(after: string, v: string)
    requires IsTrimmed(v) && AreBlanks(after) && (v == "" ==> after == "")
    ensures Trim(after + v) == v
  {
    hide Trim;
    if v == "" {
      assert after + v == "";
      TrimPlain("");
    } else {
      assert after + (v + "") == after + v;
      TrimPadded(after, v, "");
    }
  }

  lemma {:induction false} FirstValueLast(params: seq<(string, string)>, p: (string, string), key: string)
    ensures FirstValue(params + [p], key) ==
      if FirstValue(params, key).Some? then FirstValue(params, key) else if p.0 == key then Some(p.1) else None
  {
    if params == [] {
      assert params + [p] == [p] && [p][1..] == [];
    } else {
      FirstValueLast(params[1..], p, key);
      assert (params + [p])[1..] == params[1..] + [p];
    }
  }

  lemma {:induction false} GivenBefore(params: seq<Param>, i: nat)
    requires i < |params|
    ensures FirstGiven(params, params[i].key).Some?
  {
    var n := |params| - 1;
    if i < n { GivenBefore(params[..n], i); }
  }

  /** The parser finds the value given first. */
  lemma {:induction false} ParamsRead(params: seq<Param>, key: string)
    requires AreParams(params)
    ensures FirstValue(DispositionParams(Cores(params)), key) == FirstGiven(params, key)
  {
    hide KeyValue, Core, ValueText, Unquote, IsParam, FirstValue;
    if params == [] {
      NoParamsRead(key);
    } else {
      var n := |params| - 1;
      var (before, p) := (params[..n], params[n]);
      ParamsRead(before, key);
      CoreKeyValue(p);
      ValueTextIs(p);
      assert Cores(params)[..n] == Cores(before) && Cores(params)[n] == Core(p);
      if Core(p) in Cores(before) {
        var j :| 0 <= j < n && Cores(before)[j] == Core(p);
        CoreKeyValue(before[j]);
        GivenBefore(before, j);
      } else {
        FirstValueLast(DispositionParams(Cores(before)), (p.key, p.value), key);
      }
    }
  }

  lemma {:induction false} NoParamsRead(key: string)
    ensures FirstValue(DispositionParams([]), key) == None
  {
  }

  // ----- Content-Disposition: the line -----

  ghost predicate AreSpaces(s: string) {
    forall i :: 0 <= i < |s| ==> s[i] == ' ' || 9 <= s[i] as int <= 13
  }

  lemma {:induction false} SpacesSkipped(spaces: string, more: string)
    requires AreSpaces(spaces) && (more != "" ==> !AreSpaces(more[..1]))
    ensures SkipSpaces(spaces + more) == more
  {
    if spaces == "" {
      assert spaces + more == more;
      if more != "" { assert more[..1][0] == more[0]; }
    } else {
      assert (spaces + more)[1..] == spaces[1..] + more;
      SpacesSkipped(spaces[1..], more);
    }
  }

  /** The line in any letter case, with any white space. */
  function DispositionText(head: string, gap: string, kind: string, space: string, text: string): string {
    head + (gap + (kind + (space + text)))
  }

  lemma LineMatches(head: string, gap: string, kind: string, space: string, text: string)
    requires SameLetters(head, "Content-Disposition:") && SameLetters(kind, "form-data;")
    requires AreSpaces(gap) && AreSpaces(space) && (text != "" ==> !AreSpaces(text[..1]))
    requires '\r' !in text && '\n' !in text
    ensures MatchDisposition(DispositionText(head, gap, kind, space, text)) == Some(text)
  {
    hide StartsIgnoringCase, SameLetters, SkipSpaces;
    var tail := kind + (space + text);
    CaseThen(head, gap + tail, "Content-Disposition:");
    KindIsNoSpace(kind, space + text);
    SpacesSkipped(gap, tail);
    CaseThen(kind, space + text, "form-data;");
    SpacesSkipped(space, text);
  }

  lemma KindIsNoSpace(kind: string, more: string)
    requires SameLetters(kind, "form-data;")
    ensures kind + more != "" && !AreSpaces((kind + more)[..1])
  {
    assert |kind| == 10 && SameLetter(kind[0], "form-data;"[0]);
    assert (kind + more)[..1][0] == kind[0];
  }

  lemma DispositionIsOther(head: string, more: string)
    requires SameLetters(head, "Content-Disposition:")
    ensures !StartsIgnoringCase(head + more, "content-type:")
  {
    assert |head| == 20 && SameLetter(head[8], "Content-Disposition:"[8]);
    assert (head + more)[8] == head[8] && "content-type:"[8] == 't' && "Content-Disposition:"[8] == 'D';
  }

  /** The extended form of a file name. */
  ghost predicate IsExtended(value: string) {
    && |value| > 7 && SameLetters(value[..7], "UTF-8''")
    && '\r' !in value[7..] && '\n' !in value[7..]
  }

  lemma ExtendedIs(value: string)
    ensures MatchExtended(value) == if IsExtended(value) then Some(value[7..]) else None
  {
    hide StartsIgnoringCase, SameLetters;
    CasePrefix(value, "UTF-8''");
  }

  /**
   Every Content-Disposition line of this grammar, in any letter case and with any blanks: the name is the one given
   first, and without one the line is refused; a file name is taken over; an extended file name, percent-encoded in
   UTF-8, overrides it, and in any other encoding the line is refused.
   */
  lemma {:induction false} DispositionLineReads(head: string, gap: string, kind: string, space: string,
                                                params: seq<Param>, file: File)
    requires SameLetters(head, "Content-Disposition:") && SameLetters(kind, "form-data;")
    requires AreSpaces(gap) && AreSpaces(space) && AreParams(params) && params != []
    requires var text := Join(ParamTexts(params), ';');
      (text != "" ==> !AreSpaces(text[..1])) && '\r' !in text && '\n' !in text
    ensures var line := DispositionText(head, gap, kind, space, Join(ParamTexts(params), ';'));
      var (name, plain, extended) :=
        (FirstGiven(params, "name"), FirstGiven(params, "filename"), FirstGiven(params, "filename*"));
      && (name.None? ==> ReadHeader(line, file) == None)
      && (name.Some? && extended.None? ==>
            ReadHeader(line, file) == Some(file.(name := name.value, filename := plain.GetOr(file.filename))))
      && (name.Some? && extended.Some? && !IsExtended(extended.value) ==> ReadHeader(line, file) == None)
      && (name.Some? && extended.Some? && IsExtended(extended.value) ==>
            ReadHeader(line, file) == Some(file.(name := name.value, filename := Decode(extended.value[7..], false))))
  {
    hide StartsIgnoringCase, SameLetters, MatchDisposition, DispositionParams, Fields, FirstValue, Join, MatchExtended,
      IsParam, AreSpaces, Decode, FirstGiven, IsExtended;
    var text := Join(ParamTexts(params), ';');
    LineMatches(head, gap, kind, space, text);
    DispositionIsOther(head, gap + (kind + (space + text)));
    FieldsAreCores(params);
    ParamsRead(params, "name");
    ParamsRead(params, "filename");
    ParamsRead(params, "filename*");
    if FirstGiven(params, "filename*").Some? { ExtendedIs(FirstGiven(params, "filename*").value); }
  }

  lemma FieldsAreCores(params: seq<Param>)
    requires AreParams(params)
    ensures Fields(Join(ParamTexts(params), ';'), ';') == Cores(params)
  {
    hide Fields, Join, Trim, IsParam;
    forall i | 0 <= i < |params|
      ensures ';' !in ParamTexts(params)[i] && Trim(ParamTexts(params)[i]) == Cores(params)[i] && Cores(params)[i] != ""
    {
      CoreIs(params[i]);
    }
    FieldsOfPadded(ParamTexts(params), Cores(params), ';');
  }

  /** An extended file name means what its writing means. */
  lemma {:induction false} ExtendedMeans(charset: string, pieces: seq<QueryForms.Piece>)
    requires SameLetters(charset, "UTF-8''") && QueryForms.IsWriting(pieces, false)
    requires var text := QueryForms.Written(pieces); text != "" && '\r' !in text && '\n' !in text
    ensures var value := charset + QueryForms.Written(pieces);
      IsExtended(value) && Decode(value[7..], false) == QueryForms.Meaning(pieces, false)
  {
    hide SameLetters;
    SameLength(charset, "UTF-8''");
    var text := QueryForms.Written(pieces);
    assert (charset + text)[..7] == charset && (charset + text)[7..] == text;
    QueryForms.DecodesWriting(pieces, false);
  }

  /** Lines of any other name are refused. */
  lemma OtherLinesRefused(line: string, file: File)
    requires |line| >= 13 ==> !SameLetters(line[..13], "content-type:")
    requires |line| >= 20 ==> !SameLetters(line[..20], "Content-Disposition:")
    ensures ReadHeader(line, file) == None
  {
    hide SameLetters, StartsIgnoringCase;
    CasePrefix(line, "content-type:");
    CasePrefix(line, "Content-Disposition:");
  }

  // ----- boundaries -----

  /** By their codes: digits, letters, the hyphen and the underscore. */
  lemma BoundaryExactly(boundary: string)
    ensures IsBoundary(boundary) <==>
      forall i :: 0 <= i < |boundary| ==>
        var n := boundary[i] as int; 48 <= n <= 57 || 65 <= n <= 90 || 97 <= n <= 122 || n == 45 || n == 95
  {
    forall i | 0 <= i < |boundary|
      ensures var n := boundary[i] as int;
        IsBoundaryChar(boundary[i]) <==> 48 <= n <= 57 || 65 <= n <= 90 || 97 <= n <= 122 || n == 45 || n == 95
    {
    }
  }

  // ----- header blocks -----

  /** Header lines applied one after the other. */
  function Applied(lines: seq<string>, file: File): Option<File> {
    if lines == [] then Some(file) else
      match ReadHeader(lines[0], file)
      case None => None
      case Some(next) => Applied(lines[1..], next)
  }

  ghost predicate AreLines(lines: seq<string>) {
    forall i :: 0 <= i < |lines| ==> lines[i] != "" && '\r' !in lines[i] && |lines[i]| < MAX_HEADER
  }

  function Block(lines: seq<string>): string {
    if lines == [] then CRLF else lines[0] + CRLF + Block(lines[1..])
  }

  /** A block of header lines, in whatever order, describes the part that follows, or is refused. */
  lemma {:induction false} BlockReads(c: Config, lines: seq<string>, more: string)
    requires c.state.Header? && AreLines(lines) && c.rest == Block(lines) + more
    ensures var f := Applied(lines, c.file);
      if f.None? then !ReadHeaders(c).0 && !ReadHeaders(c).1.valid
      else ReadHeaders(c)
           == (true, c.(file := f.value, parts := c.parts + [Part(f.value, "")], rest := more, state := Body))
    decreases |lines|
  {
    hide ReadHeader, ReadHeaders;
    if lines == [] {
      ReadsEmptyLine(c, more);
    } else {
      var rest := Block(lines[1..]) + more;
      Assoc(lines[0] + CRLF, Block(lines[1..]), more);
      var read := ReadHeader(lines[0], c.file);
      if read.None? {
        RefusesLine(c, lines[0], rest);
      } else {
        ReadsLine(c, lines[0], rest, read.value);
        BlockReads(c.(file := read.value, rest := rest), lines[1..], more);
      }
    }
  }

  lemma {:induction false} RefusesLine(c: Config, line: string, more: string)
    requires c.rest == line + CRLF + more && line != "" && '\r' !in line && ReadHeader(line, c.file).None?
    ensures ReadHeaders(c) == (false, c.(valid := false))
  {
    hide ReadHeader;
    LineEnds(line, more);
    assert c.rest[..|line|] == line;
  }

  // ----- long lines -----

  /** A first header line of more than 8192 bytes is refused, even before its end has come. */
  lemma {:induction false} LongLineRefused(boundary: string, line: string)
    requires IsBoundary(boundary) && Find(line, CRLF) > 8192
    ensures var r := Drain(boundary, FRESH.Add(OpeningLine(boundary) + line)); !r.0 && r.1.parts == []
  {
    hide Find, ReadHeaders, Deliver;
    var c := FRESH.Add(OpeningLine(boundary) + line);
    assert c.rest == OpeningLine(boundary) + line;
    OpeningFirst(OpeningLine(boundary), line);
    DrainOpening(boundary, c);
    var d := AfterOpening(boundary, c);
    assert d.rest == line;
    DrainNewEntry(boundary, d);
  }

  lemma {:induction false} OpeningFirst(a: string, b: string)
    requires a != ""
    ensures Find(a + b, a) == 0
  {
    assert a <= a + b;
  }

  // ----- only a closed form is valid -----

  ghost predicate Absent(s: string, pat: string) {
    forall j: nat :: !OccursAt(s, pat, j)
  }

  lemma AbsentBehind(s: string, pat: string, n: nat)
    requires Absent(s, pat) && n <= |s|
    ensures Absent(s[n..], pat)
  {
    forall j: nat ensures !OccursAt(s[n..], pat, j) {
      if j + |pat| <= |s[n..]| {
        assert s[n..][j..j + |pat|] == s[n + j..n + j + |pat|];
        assert !OccursAt(s, pat, n + j);
      }
    }
  }

  function Closing(boundary: string): string {
    Delimiter(boundary) + DASH
  }

  /** The form has not been closed, and what is still to come does not close it. */
  ghost predicate StaysOpen(boundary: string, c: Config, more: string) {
    !c.valid && Absent(c.rest + more, Closing(boundary)) && (c.state.Boundary? ==> !(DASH <= c.rest + more))
  }

  lemma OpenBehind(boundary: string, c: Config, d: Config, more: string, n: nat)
    requires StaysOpen(boundary, c, more) && n <= |c.rest| && d.rest == c.rest[n..] && !d.valid
    requires d.state.Boundary? ==> (c.state.Boundary? && n == 0)
    ensures StaysOpen(boundary, d, more)
  {
    hide Closing;
    assert (c.rest + more)[n..] == d.rest + more;
    AbsentBehind(c.rest + more, Closing(boundary), n);
  }

  lemma {:induction false} OpenHeaders(c: Config) returns (n: nat)
    requires c.state.Header? && !c.valid
    ensures var d := ReadHeaders(c).1;
      n <= |c.rest| && d.rest == c.rest[n..] && !d.valid && !d.state.Boundary?
    decreases |c.rest|
  {
    hide ReadHeader, Find;
    n := 0;
    var pos := Find(c.rest, CRLF);
    if pos < |c.rest| {
      if pos == 0 {
        n := 2;
      } else if ReadHeader(c.rest[..pos], c.file).Some? {
        var d := c.(file := ReadHeader(c.rest[..pos], c.file).value, rest := c.rest[pos + 2..]);
        var m := OpenHeaders(d);
        n := pos + 2 + m;
        assert c.rest[pos + 2..][m..] == c.rest[n..];
      }
    }
  }

  lemma OpenBody(boundary: string, c: Config, more: string)
    requires c.state.Body? && StaysOpen(boundary, c, more) && Find(c.rest, Delimiter(boundary)) < |c.rest|
    ensures StaysOpen(boundary, AfterBody(boundary, c), more)
  {
    hide Find, Deliver, Delimiter, Absent;
    var mark := Delimiter(boundary);
    MarkIsThere(boundary);
    var pos := Find(c.rest, mark);
    FindFirst(c.rest, mark);
    var d := AfterBody(boundary, c);
    var s := c.rest + more;
    var x := d.rest + more;
    assert s[pos + |mark|..] == x;
    AbsentBehind(s, Closing(boundary), pos + |mark|);
    NoDashBehind(s, mark, pos, x);
  }

  lemma MarkIsThere(boundary: string)
    ensures Delimiter(boundary) != ""
  {
  }

  lemma NoDashBehind(s: string, mark: string, pos: nat, x: string)
    requires Absent(s, mark + DASH) && pos + |mark| <= |s| && s[pos..pos + |mark|] == mark && s[pos + |mark|..] == x
    ensures !(DASH <= x)
  {
    if |x| >= 2 { assert s[pos..pos + |mark| + 2] == mark + x[..2]; }
    assert !OccursAt(s, mark + DASH, pos);
  }

  lemma OpenKeptBack(boundary: string, c: Config, more: string)
    requires c.state.Body? && StaysOpen(boundary, c, more)
    ensures StaysOpen(boundary, KeptBack(boundary, c), more)
  {
    hide StaysOpen, Deliver, Delimiter;
    var n := |c.rest| - |Delimiter(boundary)|;
    NotValidYet(boundary, c, more);
    if n > 0 { OpenBehind(boundary, c, KeptBack(boundary, c), more, n); }
  }

  lemma NotValidYet(boundary: string, c: Config, more: string)
    requires StaysOpen(boundary, c, more)
    ensures !c.valid && (c.state.Boundary? ==> !(DASH <= c.rest))
  {
    if DASH <= c.rest { assert (c.rest + more)[..2] == c.rest[..2]; }
  }

  lemma {:induction false} DrainOpen(boundary: string, c: Config, more: string)
    requires StaysOpen(boundary, c, more)
    ensures StaysOpen(boundary, Drain(boundary, c).1, more)
    decreases |c.rest|, c.state.NewEntry?
  {
    hide StaysOpen, ReadHeaders, Find, Deliver;
    NotValidYet(boundary, c, more);
    if c.rest == "" { return; }
    match c.state
    case Start =>
      var pos := Find(c.rest, OpeningLine(boundary));
      if pos < |c.rest| {
        var d := AfterOpening(boundary, c);
        OpenBehind(boundary, c, d, more, pos + |OpeningLine(boundary)|);
        DrainOpening(boundary, c);
        DrainOpen(boundary, d, more);
      } else {
        OpenBehind(boundary, c, c.(rest := c.rest[pos..]), more, pos);
      }
    case NewEntry =>
      var d := c.(file := NO_FILE, state := Header);
      assert c.rest[0..] == c.rest;
      OpenBehind(boundary, c, d, more, 0);
      DrainOpen(boundary, d, more);
    case Header =>
      var n := OpenHeaders(c);
      var (ok, d) := ReadHeaders(c);
      OpenBehind(boundary, c, d, more, n);
      if Find(c.rest, CRLF) <= MAX_HEADER && ok && d.state.Body? { DrainOpen(boundary, d, more); }
    case Body =>
      if Find(c.rest, Delimiter(boundary)) < |c.rest| {
        OpenBody(boundary, c, more);
        DrainBody(boundary, c);
        DrainOpen(boundary, AfterBody(boundary, c), more);
      } else {
        OpenKeptBack(boundary, c, more);
        DrainUnfinishedBody(boundary, c);
      }
    case Boundary =>
      if |c.rest| >= 2 && CRLF <= c.rest {
        var d := c.(rest := c.rest[2..], state := NewEntry);
        OpenBehind(boundary, c, d, more, 2);
        DrainOpen(boundary, d, more);
      }
  }

  /** However the input is cut: without a closing delimiter in it, the parser never reports a valid form. */
  lemma {:induction false} ValidOnlyWhenClosed(boundary: string, c: Config, chunks: seq<string>)
    requires StaysOpen(boundary, c, Flatten(chunks))
    ensures !FeedAll(boundary, c, chunks).1.valid
    decreases |chunks|
  {
    hide StaysOpen, Drain;
    NotValidYet(boundary, c, Flatten(chunks));
    if chunks != [] {
      var more := Flatten(chunks[1..]);
      OpenAdd(boundary, c, chunks[0], more);
      DrainOpen(boundary, c.Add(chunks[0]), more);
      var (ok, d) := Drain(boundary, c.Add(chunks[0]));
      NotValidYet(boundary, d, more);
      if ok { ValidOnlyWhenClosed(boundary, d, chunks[1..]); }
    }
  }

  lemma OpenAdd(boundary: string, c: Config, data: string, more: string)
    requires StaysOpen(boundary, c, data + more)
    ensures StaysOpen(boundary, c.Add(data), more)
  {
    hide Closing;
    Assoc(c.rest, data, more);
  }

  /** In particular from the start. */
  lemma {:induction false} UnclosedIsNotValid(boundary: string, chunks: seq<string>)
    requires Absent(Flatten(chunks), Closing(boundary))
    ensures !FeedAll(boundary, FRESH, chunks).1.valid
  {
    assert FRESH.rest + Flatten(chunks) == Flatten(chunks);
    ValidOnlyWhenClosed(boundary, FRESH, chunks);
  }
}
