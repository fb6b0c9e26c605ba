/**
 What the multipart/form-data push parser of externals/httplib/httplib.h computes: one
 pass over the bytes at hand, stopping where more are needed.  RFC 7578 section 4 and
 RFC 2046 section 5.1.1 define the format.

 A byte is a char below 256.
 */
module MultipartSpec {
  import opened Query
  import opened Text
  import opened Wrappers

  const MAX_HEADER := 8192

  datatype File = File(name: string, filename: string, contentType: string)

  const NO_FILE := File("", "", "")

  /** One form field: what the header callback got, and all its content callbacks joined. */
  datatype Part = Part(file: File, content: string)

  // ----- searching -----

  ghost predicate OccursAt(s: string, pat: string, i: nat) {
    i + |pat| <= |s| && s[i..i + |pat|] == pat
  }

  /** The first occurrence of `pat`, or |s|. */
  function Find(s: string, pat: string): (i: nat)
    requires pat != ""
    ensures i <= |s| && (i < |s| ==> i + |pat| <= |s|)
  {
    if s == "" || pat <= s then 0 else 1 + Find(s[1..], pat)
  }

  lemma {:induction false} FindFirst(s: string, pat: string)
    requires pat != ""
    ensures Find(s, pat) < |s| ==> OccursAt(s, pat, Find(s, pat))
    ensures forall j: nat | j < Find(s, pat) :: !OccursAt(s, pat, j)
  {
    if s != "" && !(pat <= s) {
      FindFirst(s[1..], pat);
      var i := Find(s[1..], pat);
      OccursShift(s, pat, i);
      forall j: nat | j < i + 1 ensures !OccursAt(s, pat, j) {
        if j > 0 { OccursShift(s, pat, j - 1); }
      }
    }
  }

  lemma OccursShift(s: string, pat: string, i: nat)
    requires s != ""
    ensures OccursAt(s[1..], pat, i) <==> OccursAt(s, pat, i + 1)
  {
    if i + 1 + |pat| <= |s| {
      var a, b := s[1..][i..i + |pat|], s[i + 1..i + 1 + |pat|];
      assert |a| == |b| && forall k :: 0 <= k < |pat| ==> a[k] == b[k];
    }
  }

  /** The specification of searching: where it stops is decided by first occurrences alone. */
  lemma {:induction false} FindAt(s: string, pat: string, i: nat)
    requires pat != "" && i <= |s| && (i < |s| ==> OccursAt(s, pat, i))
    requires forall j: nat | j < i :: !OccursAt(s, pat, j)
    ensures Find(s, pat) == i
  {
    FindFirst(s, pat);
  }

  /** More input does not move an occurrence that has been found. */
  lemma {:induction false} FindStable(s: string, x: string, pat: string)
    requires pat != "" && Find(s, pat) < |s|
    ensures Find(s + x, pat) == Find(s, pat)
  {
    if !(pat <= s) {
      assert (s + x)[1..] == s[1..] + x;
      FindStable(s[1..], x, pat);
    }
  }

  /** If `pat` does not occur in `s`, dropping all but its last |pat| bytes loses no later occurrence. */
  lemma {:induction false} FindAfterDrop(s: string, x: string, pat: string, n: nat)
    requires pat != "" && Find(s, pat) == |s| && n + |pat| <= |s|
    ensures Find(s + x, pat) == n + Find(s[n..] + x, pat)
    decreases n
  {
    if n == 0 {
      assert s[n..] == s;
    } else {
      assert (s + x)[1..] == s[1..] + x;
      assert s[1..][n - 1..] == s[n..];
      FindAfterDrop(s[1..], x, pat, n - 1);
    }
  }

  /** A pattern whose first character does not come again in it cannot overlap itself. */
  lemma {:induction false} FindBeforeMark(a: string, pat: string, x: string)
    requires pat != "" && pat[0] !in pat[1..] && Find(a, pat) == |a|
    ensures Find(a + pat + x, pat) == |a|
  {
    var s := a + pat + x;
    if a == "" {
      assert s == pat + x;
    } else {
      if |a| < |pat| {
        assert s[|a|] == pat[0] && pat[|a|] == pat[1..][|a| - 1];
      }
      assert s[1..] == a[1..] + pat + x;
      FindBeforeMark(a[1..], pat, x);
    }
  }

  lemma {:induction false} FindNone(a: string, pat: string)
    requires pat != "" && pat[0] !in a
    ensures Find(a, pat) == |a|
  {
    if a != "" { FindNone(a[1..], pat); }
  }

  // ----- one header line -----

  function Lower(c: char): char {
    if 'A' <= c <= 'Z' then c + ('a' - 'A') else c
  }

  /** `a` starts with `b`, letters compared without regard to case. */
  predicate StartsIgnoringCase(a: string, b: string) {
    |b| <= |a| && forall i :: 0 <= i < |b| ==> Lower(a[i]) == Lower(b[i])
  }

  /** The regular expression class \s. */
  predicate IsSpace(c: char) {
    c == ' ' || 9 <= c as int <= 13
  }

  function SkipSpaces(s: string): (r: string)
    ensures |r| <= |s|
  {
    if s != "" && IsSpace(s[0]) then SkipSpaces(s[1..]) else s
  }

  /** Content-Disposition:\s*form-data;\s*(.*) matched against the whole line without regard to case. */
  function MatchDisposition(line: string): Option<string> {
    if !StartsIgnoringCase(line, "Content-Disposition:") then None else
      var r := SkipSpaces(line[|"Content-Disposition:"|..]);
      if !StartsIgnoringCase(r, "form-data;") then None else
        var params := SkipSpaces(r[|"form-data;"|..]);
        if '\n' in params || '\r' in params then None else Some(params)
  }

  function Unquote(s: string): string {
    if |s| >= 2 && s[0] == '"' && s[|s| - 1] == '"' then s[1..|s| - 1] else s
  }

  /** The parameters in the order they are inserted, each field only the first time it occurs. */
  function DispositionParams(fields: seq<string>): seq<(string, string)> {
    if fields == [] then [] else
      var (before, kv) := (fields[..|fields| - 1], fields[|fields| - 1]);
      var params := DispositionParams(before);
      match KeyValue(kv)
      case Some((key, value)) => if kv in before then params else params + [(Unquote(key), Unquote(value))]
      case None => params
  }

  function FirstValue(params: seq<(string, string)>, key: string): Option<string> {
    if params == [] then None
    else if params[0].0 == key then Some(params[0].1)
    else FirstValue(params[1..], key)
  }

  /** UTF-8''(.+?) matched against the whole value without regard to case. */
  function MatchExtended(value: string): Option<string> {
    if StartsIgnoringCase(value, "UTF-8''") && |value| > 7 && '\n' !in value[7..] && '\r' !in value[7..]
    then Some(value[7..]) else None
  }

  function WithDisposition(params: seq<(string, string)>, file: File): Option<File> {
    match FirstValue(params, "name")
    case None => None
    case Some(name) =>
      var f := file.(name := name, filename := FirstValue(params, "filename").GetOr(file.filename));
      match FirstValue(params, "filename*")
      case None => Some(f)
      case Some(extended) =>
        match MatchExtended(extended)
        case None => None
        case Some(text) => Some(f.(filename := Decode(text, false)))
  }

  /** The part's description after one more header line, or None when the line is refused. */
  function ReadHeader(line: string, file: File): Option<File> {
    if StartsIgnoringCase(line, "content-type:") then
      Some(file.(contentType := Trim(line[|"content-type:"|..])))
    else
      match MatchDisposition(line)
      case None => None
      case Some(params) => WithDisposition(DispositionParams(Fields(params, ';')), file)
  }

  // ----- the parser as one pass -----

  datatype State = Start | NewEntry | Header | Body | Boundary

  /** The parser between two steps: `parts` is what its callbacks have received, `rest` the bytes at hand. */
  datatype Config = Config(state: State, valid: bool, file: File, parts: seq<Part>, rest: string) {
    function Add(data: string): Config {
      this.(rest := rest + data)
    }
  }

  const CRLF := "\r\n"
  const DASH := "--"

  function OpeningLine(boundary: string): string {
    DASH + boundary + CRLF
  }

  function Delimiter(boundary: string): string {
    CRLF + DASH + boundary
  }

  /** The content callback: more content for the part whose header came last. */
  function Deliver(parts: seq<Part>, data: string): seq<Part> {
    if parts == [] then []
    else
      var last := parts[|parts| - 1];
      parts[..|parts| - 1] + [last.(content := last.content + data)]
  }

  /** Header lines up to the empty line, as many as are complete. */
  function ReadHeaders(c: Config): (r: (bool, Config))
    ensures |r.1.rest| <= |c.rest| && (r.1.state != c.state ==> |r.1.rest| < |c.rest|)
    decreases |c.rest|
  {
    var pos := Find(c.rest, CRLF);
    if pos == |c.rest| then (true, c)
    else if pos == 0 then (true, c.(parts := c.parts + [Part(c.file, "")], rest := c.rest[2..], state := Body))
    else
      match ReadHeader(c.rest[..pos], c.file)
      case None => (false, c.(valid := false))
      case Some(file) => ReadHeaders(c.(file := file, rest := c.rest[pos + 2..]))
  }

  /** Steps until more bytes are needed or the input is refused. */
  function Drain(boundary: string, c: Config): (bool, Config)
    decreases |c.rest|, c.state.NewEntry?
  {
    if c.rest == "" then (true, c) else
    match c.state
    case Start =>
      var line := OpeningLine(boundary);
      var rest := c.rest[Find(c.rest, line)..];
      if |line| > |rest| then (true, c.(rest := rest))
      else if !(line <= rest) then (false, c.(rest := rest))
      else Drain(boundary, c.(rest := rest[|line|..], state := NewEntry))
    case NewEntry =>
      Drain(boundary, c.(file := NO_FILE, state := Header))
    case Header =>
      if Find(c.rest, CRLF) > MAX_HEADER then (false, c) else
        var (ok, d) := ReadHeaders(c);
        if ok && d.state.Body? then Drain(boundary, d) else (ok, d)
    case Body =>
      var mark := Delimiter(boundary);
      if |mark| > |c.rest| then (true, c) else
        var pos := Find(c.rest, mark);
        if pos < |c.rest| then
          Drain(boundary, c.(parts := Deliver(c.parts, c.rest[..pos]), rest := c.rest[pos + |mark|..],
                             state := Boundary))
        else
          var len := |c.rest| - |mark|;
          (true, if len > 0 then c.(parts := Deliver(c.parts, c.rest[..len]), rest := c.rest[len..]) else c)
    case Boundary =>
      if |CRLF| > |c.rest| then (true, c)
      else if CRLF <= c.rest then Drain(boundary, c.(rest := c.rest[2..], state := NewEntry))
      else if DASH <= c.rest then (true, c.(valid := true, rest := ""))
      else (true, c)
  }

  /** Feeding chunk after chunk, until one is refused. */
  function FeedAll(boundary: string, c: Config, chunks: seq<string>): (bool, Config)
    decreases |chunks|
  {
    if chunks == [] then (true, c) else
      var (ok, d) := Drain(boundary, c.Add(chunks[0]));
      if ok then FeedAll(boundary, d, chunks[1..]) else (false, d)
  }

  function Flatten(chunks: seq<string>): string {
    if chunks == [] then "" else chunks[0] + Flatten(chunks[1..])
  }
}
