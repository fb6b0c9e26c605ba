/**
 What becomes of a serialized form whose opening line does not come in one piece: the parser throws away what it has
 of it, and whatever it makes of the rest, it is not the form.
 */
module MultipartLost {
  import opened MultipartChunks
  import opened MultipartForm
  import opened MultipartSpec
  import opened Text

  // ----- suffixes -----

  predicate IsSuffix(x: string, s: string) {
    |x| <= |s| && s[|s| - |x|..] == x
  }

  lemma SuffixTail(x: string, y: string, s: string)
    requires IsSuffix(x + y, s)
    ensures IsSuffix(y, s)
  {
    assert s[|s| - |y|..] == s[|s| - |x + y|..][|x|..];
  }

  lemma SuffixDrop(x: string, n: nat, s: string)
    requires IsSuffix(x, s) && n <= |x|
    ensures IsSuffix(x[n..], s)
  {
    assert x == x[..n] + x[n..];
    SuffixTail(x[..n], x[n..], s);
  }

  /** Of two suffixes the shorter one is a suffix of the longer one. */
  lemma SuffixIn(x: string, y: string, s: string)
    requires IsSuffix(x, s) && IsSuffix(y, s) && |x| <= |y|
    ensures IsSuffix(x, y) && forall i :: 0 <= i < |x| ==> x[i] == y[|y| - |x| + i]
  {
    forall i | 0 <= i < |x| ensures x[i] == y[|y| - |x| + i] {
      assert x[i] == s[|s| - |x| + i] && y[|y| - |x| + i] == s[|s| - |x| + i];
    }
  }

  // ----- the form and its suffixes -----

  /** What a form has from the content of its first item on. */
  function Full(items: seq<Part>, boundary: string): string
    requires items != []
  {
    items[0].content + Delimiter(boundary) + AfterItem(items, boundary)
  }

  lemma FormIs(items: seq<Part>, boundary: string)
    requires items != []
    ensures Serialized(items, boundary, true)
         == OpeningLine(boundary) + HeaderLines(items[0].file) + Full(items, boundary)
  {
    hide HeaderLines, Delimiter, AfterItem, Serialized;
    SerializedShape(items, boundary);
    var (l, h, f) := (OpeningLine(boundary), HeaderLines(items[0].file), Full(items, boundary));
    assert l + (h + f) == l + h + f;
  }

  lemma {:induction false} AfterItemNext(items: seq<Part>, boundary: string)
    requires |items| > 1
    ensures AfterItem(items, boundary) == CRLF + HeaderLines(items[1].file) + Full(items[1..], boundary)
  {
    hide HeaderLines, Delimiter;
    var (h, f) := (HeaderLines(items[1].file), Full(items[1..], boundary));
    assert CRLF + (h + f) == CRLF + h + f;
  }

  /** Everything from item k's content on is a suffix of the form. */
  lemma {:induction false} FullIsSuffix(items: seq<Part>, boundary: string, k: nat)
    requires k < |items|
    ensures IsSuffix(Full(items[k..], boundary), Serialized(items, boundary, true))
  {
    hide HeaderLines, Delimiter, AfterItem, Serialized, Full;
    var s := Serialized(items, boundary, true);
    if k == 0 {
      FormIs(items, boundary);
      assert items[0..] == items;
      SuffixSelf(OpeningLine(boundary) + HeaderLines(items[0].file), Full(items, boundary));
    } else {
      FullIsSuffix(items, boundary, k - 1);
      DelimiterIsSuffix(items, boundary, k - 1);
      AfterItemNext(items[k - 1..], boundary);
      assert items[k - 1..][1..] == items[k..] && items[k - 1..][1] == items[k];
      var (d, h, f) := (Delimiter(boundary), HeaderLines(items[k].file), Full(items[k..], boundary));
      assert d + (CRLF + h + f) == d + CRLF + h + f;
      SuffixTail(d + CRLF + h, f, s);
    }
  }

  lemma SuffixSelf(x: string, y: string)
    ensures IsSuffix(y, x + y)
  {
  }

  /** ... and so is the delimiter behind that content with all that follows. */
  lemma {:induction false} DelimiterIsSuffix(items: seq<Part>, boundary: string, k: nat)
    requires k < |items| && IsSuffix(Full(items[k..], boundary), Serialized(items, boundary, true))
    ensures IsSuffix(Delimiter(boundary) + AfterItem(items[k..], boundary), Serialized(items, boundary, true))
  {
    hide Delimiter, AfterItem, Serialized;
    var (c, d, a) := (items[k].content, Delimiter(boundary), AfterItem(items[k..], boundary));
    assert c + d + a == c + (d + a);
    SuffixTail(c, d + a, Serialized(items, boundary, true));
  }

  lemma {:induction false} FullLength(items: seq<Part>, boundary: string)
    requires items != []
    ensures |Full(items, boundary)| == |items[0].content| + |Delimiter(boundary)| + |AfterItem(items, boundary)|
  {
  }

  // ----- line breaks in what was written -----

  /** Delimiters and header lines have their carriage returns only where lines end. */
  lemma DelimiterPlain(boundary: string)
    requires IsBoundary(boundary)
    ensures var d := Delimiter(boundary);
      && |d| >= 4 && d[0] == '\r' && d[1] == '\n' && d[2] == '-' && d[3] == '-'
      && forall i :: 1 <= i < |d| ==> d[i] != '\r'
  {
    var d := Delimiter(boundary);
    forall i | 1 <= i < |d| ensures d[i] != '\r' {
      if i >= 4 { assert d[i] == boundary[i - 4]; }
    }
  }

  lemma OpeningPlain(boundary: string)
    requires IsBoundary(boundary)
    ensures var l := OpeningLine(boundary);
      && |l| >= 4 && l[0] == '-' && l[|l| - 2] == '\r' && l[|l| - 1] == '\n'
      && (forall i :: 0 <= i < |l| - 2 ==> l[i] != '\r' && l[i] != '"')
  {
    var l := OpeningLine(boundary);
    forall i | 0 <= i < |l| - 2 ensures l[i] != '\r' && l[i] != '"' {
      if i >= 2 { assert l[i] == boundary[i - 2]; }
    }
  }

  lemma DispositionEnds(f: File)
    ensures var l := DispositionLine(f); l != "" && l[0] == 'C' && l[|l| - 1] == '"'
  {
  }

  /** Where the carriage returns in header lines are, and what is around them. */
  lemma HeaderReturns(f: File, i: nat)
    requires IsWritable(f) && i < |HeaderLines(f)| && HeaderLines(f)[i] == '\r'
    ensures var h := HeaderLines(f);
      && i + 2 <= |h|
      && (i + 2 < |h| ==> h[i + 2] == 'C' || h[i + 2] == '\r')
      && i > 0 && (h[i - 1] == '"' || (i + 4 == |h| && h[i + 1..] == "\n\r\n" && f.contentType != "") || i + 2 == |h|)
  {
    hide DispositionLine, TypeLine, IsWritable;
    LinesPlain(f);
    DispositionEnds(f);
    var h, a := HeaderLines(f), DispositionLine(f);
    assert h[..|a|] == a && h[|a|] == '\r' && h[|a| + 1] == '\n';
    assert forall k :: 0 <= k < |a| ==> h[k] == a[k];
    if f.contentType == "" {
      assert |h| == |a| + 4 && h[|a| + 2] == '\r' && h[|a| + 3] == '\n';
    } else {
      var t := TypeLine(f);
      TypeStarts(f);
      assert |h| == |a| + |t| + 6 && forall k :: 0 <= k < |t| ==> h[|a| + 2 + k] == t[k];
      var e := |a| + 2 + |t|;
      assert h[e] == '\r' && h[e + 1] == '\n' && h[e + 2] == '\r' && h[e + 3] == '\n';
    }
  }

  lemma TypeStarts(f: File)
    ensures TypeLine(f) != "" && TypeLine(f)[0] == 'C'
  {
  }

  // ----- where marks can be found later than they should be -----

  /** An opening line other than the first begins an item too late, or ends a Content-Type line. */
  lemma OpeningLate(items: seq<Part>, boundary: string, x: string)
    requires IsForm(items, boundary) && IsSuffix(OpeningLine(boundary) + x, Serialized(items, boundary, true))
    requires |OpeningLine(boundary) + x| < |Serialized(items, boundary, true)|
    ensures IsSuffix(CRLF + x, Serialized(items, boundary, true))
    ensures |x| <= |Full(items, boundary)| ||
            (x == CRLF + Full(items, boundary) && items[0].file.contentType != "")
  {
    hide HeaderLines, Serialized, Full, IsWritable;
    var (s, l, h, f) := (Serialized(items, boundary, true), OpeningLine(boundary), HeaderLines(items[0].file),
                         Full(items, boundary));
    FormIs(items, boundary);
    OpeningPlain(boundary);
    assert l + x == l[..|l| - 2] + (CRLF + x);
    SuffixTail(l[..|l| - 2], CRLF + x, s);
    if |x| > |f| { OpeningInHeader(l, items[0].file, f, x); }
  }

  /** Within the headers an opening line can only end a Content-Type line. */
  lemma OpeningInHeader(l: string, file: File, f: string, x: string)
    requires IsWritable(file) && |l| >= 4 && l[|l| - 2] == '\r' && l[|l| - 1] == '\n'
    requires forall i :: 0 <= i < |l| - 2 ==> l[i] != '\r' && l[i] != '"'
    requires |f| < |x| < |HeaderLines(file)| + |f| && IsSuffix(l + x, l + HeaderLines(file) + f)
    ensures x == CRLF + f && file.contentType != ""
  {
    hide HeaderLines, IsWritable, IsSuffix;
    var h := HeaderLines(file);
    var n := |h| + |f| - |x|;
    var s := l + h + f;
    EndsBefore(l, x, s);
    Middle(l, h, f, n);
    assert s[|l| + n - 2] == l[|l| - 2] && s[|l| + n - 3] == l[|l| - 3];
    assert n >= 2 && h[n - 2] == '\r';
    HeaderReturns(file, n - 2);
    assert h[n..] == h[n - 1..][1..];
  }

  lemma EndsBefore(l: string, x: string, s: string)
    requires IsSuffix(l + x, s)
    ensures |x| + |l| <= |s| && x == s[|s| - |x|..]
    ensures forall j :: |s| - |x| - |l| <= j < |s| - |x| ==> s[j] == l[j - (|s| - |x| - |l|)]
  {
    SuffixTail(l, x, s);
    var o := |s| - |x| - |l|;
    forall j | o <= j < o + |l| ensures s[j] == l[j - o] {
      assert s[o..][j - o] == (l + x)[j - o];
    }
  }

  lemma Middle(l: string, h: string, f: string, n: nat)
    requires n <= |h|
    ensures (l + h + f)[|l| + n..] == h[n..] + f
    ensures forall j :: 0 <= j < |l| ==> (l + h + f)[j] == l[j]
    ensures forall j :: |l| <= j < |l| + |h| ==> (l + h + f)[j] == h[j - |l|]
  {
  }

  /** After the delimiter of item k another one can only come when the next item's content has begun, or never. */
  lemma {:induction false} DelimiterLate(items: seq<Part>, boundary: string, k: nat, x: string)
    requires IsForm(items, boundary) && k < |items|
    requires IsSuffix(Delimiter(boundary) + x, Serialized(items, boundary, true))
    requires |x| < |AfterItem(items[k..], boundary)|
    ensures k + 1 < |items| && |x| < |Full(items[k + 1..], boundary)|
  {
    hide HeaderLines, Serialized, Full, AfterItem, IsWritable, Delimiter, IsSuffix;
    var (s, d, a) := (Serialized(items, boundary, true), Delimiter(boundary), AfterItem(items[k..], boundary));
    FullIsSuffix(items, boundary, k);
    DelimiterIsSuffix(items, boundary, k);
    DelimiterPlain(boundary);
    var o, w := |a| - |x|, d + a;
    AfterItemIs(items[k..], boundary);
    if k + 1 == |items| {
      assert a == "--\r\n";
      NoLaterMark(d, o);
    } else if |x| >= |Full(items[k + 1..], boundary)| {
      AfterItemNext(items[k..], boundary);
      assert items[k..][1..] == items[k + 1..] && items[k..][1] == items[k + 1];
      var (h, f) := (HeaderLines(items[k + 1].file), Full(items[k + 1..], boundary));
      Assoc(d, CRLF + h, f);
      Assoc(d, CRLF, h);
      NoDashAfterBreak(items[k + 1].file, d, f, o);
    }
    MarkInside(d, x, w, s);
  }

  lemma MarkInside(d: string, x: string, w: string, s: string)
    requires IsSuffix(d + x, s) && IsSuffix(w, s) && |d + x| <= |w| && |d| >= 4 && d[0] == '\r' && d[2] == '-'
    ensures var o := |w| - |d + x|; w[o] == '\r' && w[o + 2] == '-'
  {
    hide IsSuffix;
    SuffixIn(d + x, w, s);
    assert (d + x)[0] == d[0] && (d + x)[2] == d[2];
  }

  lemma NoLaterMark(d: string, o: nat)
    requires |d| >= 4 && (forall i :: 1 <= i < |d| ==> d[i] != '\r') && 1 <= o <= 4
    ensures (d + "--\r\n")[o] != '\r'
  {
    assert o < |d| ==> (d + "--\r\n")[o] == d[o];
    assert (d + "--\r\n")[|d|] == '-';
  }

  /** No line of a header begins with a dash. */
  lemma NoDashAfterBreak(file: File, d: string, f: string, o: nat)
    requires IsWritable(file) && |d| >= 4 && forall i :: 1 <= i < |d| ==> d[i] != '\r'
    requires 1 <= o <= 2 + |HeaderLines(file)|
    ensures var w := d + CRLF + HeaderLines(file) + f; w[o] != '\r' || w[o + 2] != '-'
  {
    hide HeaderLines, IsWritable;
    var h := HeaderLines(file);
    var w := d + CRLF + h + f;
    HeaderStarts(file);
    if o < |d| {
      assert w[o] == d[o];
    } else if o < |d| + 2 {
      assert w[|d|] == '\r' && w[|d| + 1] == '\n' && w[|d| + 2] == h[0];
    } else {
      var i := o - |d| - 2;
      assert w[o] == h[i] && (i + 2 < |h| ==> w[o + 2] == h[i + 2]);
      if h[i] == '\r' { HeaderReturns(file, i); }
    }
  }

  lemma HeaderStarts(f: File)
    ensures |HeaderLines(f)| > 4 && HeaderLines(f)[0] == 'C'
  {
    hide DispositionLine;
    DispositionEnds(f);
    assert HeaderLines(f)[0] == DispositionLine(f)[0];
  }

  // ----- a parser that is ahead of the form -----

  /** With more content for the last one, and more parts, these can still become the items. */
  predicate CanBecome(parts: seq<Part>, items: seq<Part>) {
    parts == [] ||
    var n := |parts| - 1;
    && n < |items| && parts[..n] == items[..n]
    && parts[n].file == items[n].file && parts[n].content <= items[n].content
  }

  lemma CanBecomeBefore(parts: seq<Part>, part: Part, items: seq<Part>)
    requires CanBecome(parts + [part], items)
    ensures parts <= items && |parts| < |items|
  {
    assert (parts + [part])[..|parts|] == parts;
  }

  lemma CanBecomeSooner(parts: seq<Part>, data: string, items: seq<Part>)
    requires CanBecome(Deliver(parts, data), items)
    ensures CanBecome(parts, items)
  {
    if parts != [] {
      var n := |parts| - 1;
      assert Deliver(parts, data)[..n] == parts[..n];
      assert Deliver(parts, data)[n].content == parts[n].content + data;
      assert parts[n].content <= parts[n].content + data;
    }
  }

  /** No delimiter begins within the first `n` bytes. */
  ghost predicate NoneBefore(t: string, mark: string, n: nat) {
    forall j: nat :: j < n ==> !OccursAt(t, mark, j)
  }

  /** In a body: what is left is less than the item's content and all that follows it. */
  ghost predicate AheadInBody(items: seq<Part>, boundary: string, c: Config, more: string)
    requires c.parts != [] && |c.parts| <= |items|
  {
    var k := |c.parts| - 1;
    var content := c.parts[k].content;
    var t := content + (c.rest + more);
    && IsSuffix(CRLF + CRLF + t, Serialized(items, boundary, true)) && |t| < |Full(items[k..], boundary)|
    && NoneBefore(t, Delimiter(boundary), |content|)
    && (content != "" ==> |c.rest| >= |Delimiter(boundary)|)
  }

  /** In a header: what is left is no more than the item's content and all that follows it. */
  ghost predicate AheadInHeader(items: seq<Part>, boundary: string, c: Config, more: string)
    requires |c.parts| < |items|
  {
    var x := c.rest + more;
    || (IsSuffix(CRLF + x, Serialized(items, boundary, true)) && |x| <= |Full(items[|c.parts|..], boundary)|)
    || (c.parts == [] && (c.state.NewEntry? || c.file == NO_FILE) && items[0].file.contentType != "" &&
        x == CRLF + Full(items, boundary))
  }

  /** The parser has seen less of the form than it should have, or its parts have gone wrong already. */
  ghost predicate Ahead(items: seq<Part>, boundary: string, c: Config, more: string) {
    var x := c.rest + more;
    match c.state
    case Start => c.parts == [] && IsSuffix(x, Serialized(items, boundary, true)) &&
                  |x| < |Serialized(items, boundary, true)|
    case Body =>
      c.parts != [] && (CanBecome(c.parts, items) ==> AheadInBody(items, boundary, c, more))
    case Boundary =>
      c.parts <= items ==>
        && |c.parts| < |items| && IsSuffix(x, Serialized(items, boundary, true))
        && |x| < |Full(items[|c.parts|..], boundary)|
    case _ =>
      c.parts <= items ==> |c.parts| < |items| && AheadInHeader(items, boundary, c, more)
  }

  lemma AheadOpening(items: seq<Part>, boundary: string, c: Config, more: string)
    requires IsForm(items, boundary) && c.state.Start? && Ahead(items, boundary, c, more)
    requires Find(c.rest, OpeningLine(boundary)) < |c.rest|
    ensures Ahead(items, boundary, AfterOpening(boundary, c), more)
  {
    hide Serialized, Full, Find, IsForm;
    var l := OpeningLine(boundary);
    var pos := Find(c.rest, l);
    FindFirst(c.rest, l);
    var d := AfterOpening(boundary, c);
    var x := d.rest + more;
    assert (c.rest + more)[pos..] == l + x;
    SuffixDrop(c.rest + more, pos, Serialized(items, boundary, true));
    FormNotEmpty(items, boundary);
    OpeningLate(items, boundary, x);
    assert items[0..] == items;
  }

  lemma FormNotEmpty(items: seq<Part>, boundary: string)
    requires IsForm(items, boundary)
    ensures items != [] && IsBoundary(boundary)
  {
  }

  lemma AheadStart(items: seq<Part>, boundary: string, c: Config, more: string, n: nat)
    requires (c.state.Start? || c.state.Boundary?) && Ahead(items, boundary, c, more) && n <= |c.rest|
    ensures Ahead(items, boundary, c.(rest := c.rest[n..]), more)
    ensures Ahead(items, boundary, c.(valid := true, rest := c.rest[n..]), more)
  {
    hide Serialized, Full;
    assert (c.rest + more)[n..] == c.rest[n..] + more;
    if IsSuffix(c.rest + more, Serialized(items, boundary, true)) {
      SuffixDrop(c.rest + more, n, Serialized(items, boundary, true));
    }
  }

  lemma AheadAgain(items: seq<Part>, boundary: string, c: Config, more: string)
    requires c.state.Boundary? && Ahead(items, boundary, c, more) && CRLF <= c.rest
    ensures Ahead(items, boundary, c.(rest := c.rest[2..], state := NewEntry), more)
  {
    hide Serialized, Full;
    assert CRLF + (c.rest[2..] + more) == c.rest + more;
  }

  /** The empty line behind the headers. */
  lemma AheadEmptyLine(items: seq<Part>, boundary: string, c: Config, more: string)
    requires c.state.Header? && Ahead(items, boundary, c, more) && CRLF <= c.rest
    ensures Ahead(items, boundary, c.(parts := c.parts + [Part(c.file, "")], rest := c.rest[2..], state := Body), more)
  {
    hide Serialized, Full;
    var d := c.(parts := c.parts + [Part(c.file, "")], rest := c.rest[2..], state := Body);
    if CanBecome(d.parts, items) {
      CanBecomeBefore(c.parts, Part(c.file, ""), items);
      var x := d.rest + more;
      assert c.rest + more == CRLF + x && "" + x == x;
      assert c.parts == [] ==> d.parts[0].file == c.file && d.parts[0].file == items[0].file;
      assert CRLF + (CRLF + x) == CRLF + CRLF + x;
    }
  }

  lemma AheadLine(items: seq<Part>, boundary: string, c: Config, more: string, pos: nat, file: File)
    requires c.state.Header? && Ahead(items, boundary, c, more)
    requires 0 < pos && pos + 2 <= |c.rest| && c.rest[pos..pos + 2] == CRLF && !(CRLF <= c.rest)
    ensures Ahead(items, boundary, c.(file := file, rest := c.rest[pos + 2..]), more)
  {
    hide Serialized, Full;
    var d := c.(file := file, rest := c.rest[pos + 2..]);
    if c.parts <= items {
      var x, y := c.rest + more, d.rest + more;
      BreakFirst(Full(items, boundary));
      assert x[..2] == c.rest[..2];
      assert CRLF + x == (CRLF + x[..pos]) + (CRLF + y);
      SuffixTail(CRLF + x[..pos], CRLF + y, Serialized(items, boundary, true));
    }
  }

  lemma BreakFirst(x: string)
    ensures (CRLF + x)[..2] == CRLF
  {
  }

  lemma {:induction false} AheadHeaders(items: seq<Part>, boundary: string, c: Config, more: string)
    requires c.state.Header? && Ahead(items, boundary, c, more)
    ensures var (ok, d) := ReadHeaders(c);
      ok ==> (d.state.Header? || d.state.Body?) && Ahead(items, boundary, d, more)
    decreases |c.rest|
  {
    hide Ahead, ReadHeader;
    var pos := Find(c.rest, CRLF);
    FindFirst(c.rest, CRLF);
    if pos < |c.rest| {
      if pos == 0 {
        AheadEmptyLine(items, boundary, c, more);
      } else if ReadHeader(c.rest[..pos], c.file).Some? {
        var file := ReadHeader(c.rest[..pos], c.file).value;
        assert !OccursAt(c.rest, CRLF, 0);
        AheadLine(items, boundary, c, more, pos, file);
        AheadHeaders(items, boundary, c.(file := file, rest := c.rest[pos + 2..]), more);
      }
    }
  }

  lemma AheadDelimiter(items: seq<Part>, boundary: string, c: Config, more: string)
    requires IsForm(items, boundary) && c.state.Body? && Ahead(items, boundary, c, more)
    requires Find(c.rest, Delimiter(boundary)) < |c.rest|
    ensures Ahead(items, boundary, AfterBody(boundary, c), more)
  {
    hide Serialized, Full, Find, IsForm, Delimiter, CanBecome, IsSuffix, NoneBefore;
    var mark := Delimiter(boundary);
    MarkNotEmpty(boundary);
    var pos := Find(c.rest, mark);
    var d := AfterBody(boundary, c);
    if d.parts <= items {
      var (k, data, x) := (|c.parts| - 1, c.rest[..pos], d.rest + more);
      PrefixCanBecome(d.parts, items);
      CanBecomeSooner(c.parts, data, items);
      CanBecomeCount(c.parts, items);
      var content := c.parts[k].content;
      assert d.parts[k] == items[k] && items[k].content == content + data;
      SplitAtMark(c.rest, mark, more);
      BodyEnds(items, boundary, k, content, data, x);
    }
  }

  lemma {:induction false} SplitAtMark(rest: string, mark: string, more: string)
    requires mark != "" && Find(rest, mark) < |rest|
    ensures var pos := Find(rest, mark); rest + more == rest[..pos] + (mark + (rest[pos + |mark|..] + more))
  {
    hide Find;
    FindFirst(rest, mark);
    var pos := Find(rest, mark);
    var (a, b) := (rest[..pos], rest[pos + |mark|..]);
    assert rest == a + rest[pos..pos + |mark|] + b;
    Assoc(a + mark, b, more);
    Assoc(a, mark, b + more);
  }

  lemma MarkNotEmpty(boundary: string)
    ensures |Delimiter(boundary)| >= 4
  {
  }

  /** When the content of item k ends ahead of its place. */
  lemma BodyEnds(items: seq<Part>, boundary: string, k: nat, content: string, data: string, x: string)
    requires IsForm(items, boundary) && k < |items| && items[k].content == content + data
    requires var t := content + (data + (Delimiter(boundary) + x));
      IsSuffix(CRLF + CRLF + t, Serialized(items, boundary, true)) && |t| < |Full(items[k..], boundary)|
    ensures k + 1 < |items| && IsSuffix(x, Serialized(items, boundary, true)) && |x| < |Full(items[k + 1..], boundary)|
  {
    hide Serialized, Full, IsForm, Delimiter, IsSuffix, AfterItem;
    var (s, mark) := (Serialized(items, boundary, true), Delimiter(boundary));
    var breaks := CRLF + CRLF;
    assert breaks + (content + (data + (mark + x))) == (breaks + content + data) + (mark + x);
    SuffixTail(breaks + content + data, mark + x, s);
    SuffixTail(mark, x, s);
    FullLength(items[k..], boundary);
    DelimiterLate(items, boundary, k, x);
  }

  lemma PrefixCanBecome(parts: seq<Part>, items: seq<Part>)
    requires parts <= items
    ensures CanBecome(parts, items)
  {
    if parts != [] { assert parts[|parts| - 1] == items[|parts| - 1]; }
  }

  lemma AheadKeptBack(items: seq<Part>, boundary: string, c: Config, more: string)
    requires c.state.Body? && Ahead(items, boundary, c, more) && Find(c.rest, Delimiter(boundary)) == |c.rest|
    ensures Ahead(items, boundary, KeptBack(boundary, c), more)
  {
    hide Serialized, Full, Find, Delimiter, CanBecome;
    var mark := Delimiter(boundary);
    MarkNotEmpty(boundary);
    var len := |c.rest| - |mark|;
    var d := KeptBack(boundary, c);
    if len > 0 && CanBecome(d.parts, items) {
      FindFirst(c.rest, mark);
      CanBecomeSooner(c.parts, c.rest[..len], items);
      CanBecomeCount(c.parts, items);
      var content := c.parts[|c.parts| - 1].content;
      var t := content + (c.rest + more);
      assert c.rest + more == c.rest[..len] + (d.rest + more);
      assert (content + c.rest[..len]) + (d.rest + more) == t;
      forall j: nat | j < |content| + len ensures !OccursAt(t, mark, j) {
        if j >= |content| {
          assert t[j..j + |mark|] == c.rest[j - |content|..j - |content| + |mark|];
          assert !OccursAt(c.rest, mark, j - |content|);
        }
      }
    }
  }

  lemma CanBecomeCount(parts: seq<Part>, items: seq<Part>)
    requires CanBecome(parts, items)
    ensures |parts| <= |items|
  {
  }

  /** Once ahead, the parser stays ahead. */
  lemma {:induction false} DrainAhead(items: seq<Part>, boundary: string, c: Config, more: string)
    requires IsForm(items, boundary) && Ahead(items, boundary, c, more)
    ensures var (ok, d) := Drain(boundary, c);
      ok ==> Ahead(items, boundary, d, more) && (d.state.Body? ==> |d.rest| <= |Delimiter(boundary)|)
    decreases |c.rest|, c.state.NewEntry?
  {
    hide Ahead, IsForm, ReadHeaders;
    if c.rest == "" { return; }
    match c.state
    case Start =>
      if Find(c.rest, OpeningLine(boundary)) < |c.rest| {
        AheadOpening(items, boundary, c, more);
        DrainOpening(boundary, c);
        DrainAhead(items, boundary, AfterOpening(boundary, c), more);
      } else {
        AheadStart(items, boundary, c, more, |c.rest|);
      }
    case NewEntry =>
      AheadEntry(items, boundary, c, more);
      DrainAhead(items, boundary, c.(file := NO_FILE, state := Header), more);
    case Header =>
      AheadHeaders(items, boundary, c, more);
      if Find(c.rest, CRLF) <= MAX_HEADER {
        var (ok, d) := ReadHeaders(c);
        if ok && d.state.Body? { DrainAhead(items, boundary, d, more); }
      }
    case Body =>
      if Find(c.rest, Delimiter(boundary)) < |c.rest| {
        AheadDelimiter(items, boundary, c, more);
        DrainBody(boundary, c);
        DrainAhead(items, boundary, AfterBody(boundary, c), more);
      } else {
        AheadKeptBack(items, boundary, c, more);
        DrainUnfinishedBody(boundary, c);
      }
    case Boundary =>
      if |c.rest| >= 2 && CRLF <= c.rest {
        AheadAgain(items, boundary, c, more);
        DrainAhead(items, boundary, c.(rest := c.rest[2..], state := NewEntry), more);
      } else if |c.rest| >= 2 && DASH <= c.rest {
        AheadStart(items, boundary, c, more, |c.rest|);
        assert c.rest[|c.rest|..] == "";
      }
  }

  lemma AheadEntry(items: seq<Part>, boundary: string, c: Config, more: string)
    requires c.state.NewEntry? && Ahead(items, boundary, c, more)
    ensures Ahead(items, boundary, c.(file := NO_FILE, state := Header), more)
  {
  }

  lemma AheadAdd(items: seq<Part>, boundary: string, c: Config, data: string, more: string)
    requires Ahead(items, boundary, c, data + more)
    ensures Ahead(items, boundary, c.Add(data), more)
  {
    hide Serialized, Full, CanBecome;
    assert c.rest + (data + more) == c.rest + data + more;
  }

  // ----- where that ends -----

  /** A parser that is ahead at the end of the input has not got the items. */
  lemma AheadAtEnd(items: seq<Part>, boundary: string, c: Config)
    requires IsForm(items, boundary) && Ahead(items, boundary, c, "")
    requires c.state.Body? ==> |c.rest| <= |Delimiter(boundary)|
    ensures c.parts != items
  {
    if c.parts == items {
      hide Serialized, Full, IsForm, Delimiter, CanBecome, IsSuffix, NoneBefore;
      FormNotEmpty(items, boundary);
      PrefixCanBecome(items, items);
      assert c.state.Body?;
      var k := |items| - 1;
      assert c.rest + "" == c.rest;
      NoLastBody(items, boundary, c.rest);
    }
  }

  /** The content of the last item cannot have been found ahead of its place. */
  lemma NoLastBody(items: seq<Part>, boundary: string, rest: string)
    requires IsForm(items, boundary) && items != []
    requires var content, d := items[|items| - 1].content, Delimiter(boundary);
      NoneBefore(content + rest, d, |content|) && |rest| <= |d| && (content != "" ==> |rest| >= |d|)
    ensures !IsSuffix(CRLF + CRLF + (items[|items| - 1].content + rest), Serialized(items, boundary, true))
  {
    hide Serialized, IsForm, Delimiter, AfterItem, Full, IsSuffix, NoneBefore;
    FormNotEmpty(items, boundary);
    var k := |items| - 1;
    var (s, c, d) := (Serialized(items, boundary, true), items[k].content, Delimiter(boundary));
    FullIsSuffix(items, boundary, k);
    DelimiterPlain(boundary);
    LastFull(items, boundary);
    var u, z := CRLF + CRLF + (c + rest), c + d + "--\r\n";
    var i := Mismatch(c, rest, d);
    NotSuffix(u, z, s, i);
  }

  lemma NotSuffix(x: string, y: string, s: string, i: nat)
    requires IsSuffix(y, s) && i < |x| <= |y| && x[i] != y[|y| - |x| + i]
    ensures !IsSuffix(x, s)
  {
    if IsSuffix(x, s) { SuffixIn(x, y, s); }
  }

  lemma LastFull(items: seq<Part>, boundary: string)
    requires items != []
    ensures Full(items[|items| - 1..], boundary) == items[|items| - 1].content + Delimiter(boundary) + "--\r\n"
  {
    assert DASH + CRLF == "--\r\n";
  }

  /** Where two line breaks before the content would have to stand, something else stands. */
  lemma Mismatch(c: string, rest: string, d: string) returns (i: nat)
    requires |d| >= 4 && d[0] == '\r' && d[1] == '\n' && d[2] == '-' && d[3] == '-'
    requires forall i :: 1 <= i < |d| ==> d[i] != '\r'
    requires |rest| <= |d| && (c != "" ==> |rest| >= |d|) && NoneBefore(c + rest, d, |c|)
    ensures var (u, z) := (CRLF + CRLF + (c + rest), c + d + "--\r\n");
      i < |u| <= |z| && u[i] != z[|z| - |u| + i]
  {
    if c == "" {
      assert "" + rest == rest && "" + d == d;
      i := MismatchEmpty(rest, d);
    } else if |c| >= 4 {
      i := MismatchLong(c, rest, d);
    } else {
      i := MismatchShort(c, rest, d);
    }
  }

  lemma Breaks(t: string)
    ensures var u := CRLF + CRLF + t;
      && |u| == |t| + 4 && u[0] == '\r' && u[1] == '\n' && u[2] == '\r' && u[3] == '\n'
      && forall k :: 4 <= k < |u| ==> u[k] == t[k - 4]
  {
  }

  lemma MismatchEmpty(rest: string, d: string) returns (i: nat)
    requires |d| >= 4 && (forall i :: 1 <= i < |d| ==> d[i] != '\r') && |rest| <= |d|
    ensures var (u, z) := (CRLF + CRLF + rest, d + "--\r\n"); i < |u| <= |z| && u[i] != z[|z| - |u| + i]
  {
    var z, o := d + "--\r\n", |d| - |rest|;
    Breaks(rest);
    i := if rest == "" then 0 else 2;
    assert z[|d|] == '-' && z[|d| + 1] == '-';
    assert o + 2 < |d| ==> z[o + 2] == d[o + 2];
  }

  lemma MismatchShort(c: string, rest: string, d: string) returns (i: nat)
    requires |d| >= 4 && d[0] == '\r' && d[2] == '-' && |rest| == |d| && 1 <= |c| <= 3
    ensures var (u, z) := (CRLF + CRLF + (c + rest), c + d + "--\r\n");
      i < |u| == |z| && u[i] != z[i]
  {
    Breaks(c + rest);
    Middle(c, d, "--\r\n", 0);
    assert (c + rest)[0] == c[0];
    i := if |c| != 2 then |c| else if c[0] != '\r' then 0 else 4;
  }

  lemma MismatchLong(c: string, rest: string, d: string) returns (i: nat)
    requires |rest| == |d| > 0 && |c| >= 4 && NoneBefore(c + rest, d, |c|)
    ensures var (u, z) := (CRLF + CRLF + (c + rest), c + d + "--\r\n");
      i < |u| == |z| && u[i] != z[i]
  {
    var t := c + rest;
    Breaks(t);
    Middle(c, d, "--\r\n", 0);
    assert !OccursAt(t, d, |c| - 4);
    var k := Difference(t[|c| - 4..|c| - 4 + |d|], d);
    i := |c| + k;
  }

  lemma {:induction false} Difference(a: string, b: string) returns (k: nat)
    requires |a| == |b| && a != b
    ensures k < |a| && a[k] != b[k]
  {
    if a[0] != b[0] {
      k := 0;
    } else {
      assert a == [a[0]] + a[1..] && b == [b[0]] + b[1..];
      k := Difference(a[1..], b[1..]);
      k := k + 1;
    }
  }

  lemma {:induction false} FeedAhead(items: seq<Part>, boundary: string, c: Config, chunks: seq<string>)
    requires IsForm(items, boundary) && Ahead(items, boundary, c, Flatten(chunks))
    requires c.state.Body? ==> |c.rest| <= |Delimiter(boundary)|
    ensures var (ok, d) := FeedAll(boundary, c, chunks); ok ==> d.parts != items
    decreases |chunks|
  {
    hide Ahead, Drain, IsForm;
    if chunks == [] {
      AheadAtEnd(items, boundary, c);
    } else {
      var more := Flatten(chunks[1..]);
      AheadAdd(items, boundary, c, chunks[0], more);
      DrainAhead(items, boundary, c.Add(chunks[0]), more);
      var (ok, d) := Drain(boundary, c.Add(chunks[0]));
      if ok { FeedAhead(items, boundary, d, chunks[1..]); }
    }
  }

  // ----- the theorems -----

  /** A first piece of the opening line is thrown away. */
  lemma {:induction false} PieceIsDropped(boundary: string, piece: string)
    requires |piece| < |OpeningLine(boundary)|
    ensures Drain(boundary, FRESH.Add(piece)) == (true, FRESH)
  {
    FindShort(piece, OpeningLine(boundary));
    assert FRESH.Add(piece).rest == piece && piece[|piece|..] == "";
  }

  lemma {:induction false} LongPiece(line: string, x: string, piece: string, more: string)
    requires line + x == piece + more && line != ""
    ensures |piece| >= |line| ==> Find(piece, line) == 0
  {
    if |piece| >= |line| {
      assert (piece + more)[..|line|] == piece[..|line|] && (line + x)[..|line|] == line;
    }
  }

  lemma {:induction false} LostUnlessWhole(items: seq<Part>, boundary: string, chunks: seq<string>)
    requires IsForm(items, boundary) && Flatten(chunks) == Serialized(items, boundary, true)
    requires !OpensWhole(boundary, chunks)
    ensures var (ok, d) := FeedAll(boundary, FRESH, chunks); ok ==> d.parts != items
  {
    hide IsForm, Serialized, Drain;
    var (l, s) := (OpeningLine(boundary), Serialized(items, boundary, true));
    var (piece, more) := (chunks[0], Flatten(chunks[1..]));
    FormNotEmpty(items, boundary);
    FormIs(items, boundary);
    var x := HeaderLines(items[0].file) + Full(items, boundary);
    assert s == l + x;
    LongPiece(l, x, piece, more);
    PieceIsDropped(boundary, piece);
    if piece == "" {
      LostUnlessWhole(items, boundary, chunks[1..]);
    } else {
      assert FRESH.rest + more == more && s[|piece|..] == more;
      FeedAhead(items, boundary, FRESH, chunks[1..]);
    }
  }

  /** For every form and every way of cutting it: it is read back if and only if its opening line comes in one piece. */
  lemma {:induction false} OpeningDecides(items: seq<Part>, boundary: string, chunks: seq<string>)
    requires IsForm(items, boundary) && Flatten(chunks) == Serialized(items, boundary, true)
    ensures Seen(FeedAll(boundary, FRESH, chunks)) == (true, true, items) <==> OpensWhole(boundary, chunks)
  {
    hide IsForm, Serialized, FeedAll, OpensWhole;
    if OpensWhole(boundary, chunks) {
      RoundTrip(items, boundary, chunks);
    } else {
      LostUnlessWhole(items, boundary, chunks);
    }
  }

  // ----- what is lost -----

  lemma OccursChar(s: string, pat: string, j: nat, i: nat)
    requires i < |pat|
    ensures OccursAt(s, pat, j) ==> j + i < |s| && s[j + i] == pat[i]
  {
    if OccursAt(s, pat, j) { assert s[j..j + |pat|][i] == s[j + i]; }
  }

  lemma {:induction false} FindBehind(pre: string, boundary: string, x: string)
    requires IsBoundary(boundary) && |pre| >= 2 && pre[|pre| - 2] == '\r' && pre[|pre| - 1] == '\n'
    requires Find(pre, OpeningLine(boundary)) == |pre|
    ensures Find(pre + (OpeningLine(boundary) + x), OpeningLine(boundary)) == |pre|
  {
    hide Find;
    var l := OpeningLine(boundary);
    var s := pre + (l + x);
    OpeningPlain(boundary);
    FindFirst(pre, l);
    assert s[|pre| - 2] == '\r' && s[|pre| - 1] == '\n';
    forall j: nat | j < |pre| ensures !OccursAt(s, l, j) {
      if j + |l| <= |pre| {
        assert s[j..j + |l|] == pre[j..j + |l|];
        assert !OccursAt(pre, l, j);
      } else {
        OccursChar(s, l, j, if j == |pre| - 1 then 0 else |pre| - 2 - j);
      }
    }
    assert s[|pre|..|pre| + |l|] == l;
    FindAt(s, l, |pre|);
  }

  /**
   A form of several items whose opening line is cut loses its first item, and the parser still reports a valid form:
   as long as that item does not hold an opening line of its own and the next one's comes in one piece.
   */
  lemma {:induction false} FirstItemIsLost(items: seq<Part>, boundary: string, piece: string, pre: string,
                                           chunks: seq<string>)
    requires IsForm(items, boundary) && |items| > 1 && 0 < |piece| < |OpeningLine(boundary)|
    requires piece + pre == ItemText(items[0], boundary) && Find(pre, OpeningLine(boundary)) == |pre|
    requires Flatten(chunks) == pre + Serialized(items[1..], boundary, true) && OpensWhole(boundary, chunks)
    ensures piece + Flatten(chunks) == Serialized(items, boundary, true)
    ensures Seen(FeedAll(boundary, FRESH, [piece] + chunks)) == (true, true, items[1..])
  {
    hide HeaderLines, ItemText, OpensWhole, Drain, Tame, IsForm, Serialized, Find, Flatten;
    var (rest, text) := (items[1..], Serialized(items[1..], boundary, true));
    FirstText(items, boundary);
    assert piece + (pre + text) == piece + pre + text;
    PieceIsDropped(boundary, piece);
    assert ([piece] + chunks)[1..] == chunks;
    LineBreakAtEnd(items[0], boundary, piece, pre);
    RestIsForm(items, boundary);
    FormNotEmpty(items, boundary);
    LateFormReads(rest, boundary, pre);
    FreshIsDrained(boundary);
    ChunksDoNotMatter(boundary, FRESH, chunks);
  }

  lemma FreshHas(x: string)
    ensures FRESH.Add(x).rest == x
  {
  }

  lemma DropBoth(a: string, b: string, c: string)
    ensures (a + (b + c))[|a| + |b|..] == c
  {
  }

  lemma {:induction false} FreshIsDrained(boundary: string)
    ensures Drain(boundary, FRESH) == (true, FRESH)
  {
  }

  lemma FirstText(items: seq<Part>, boundary: string)
    requires items != []
    ensures Serialized(items, boundary, true) == ItemText(items[0], boundary) + Serialized(items[1..], boundary, true)
  {
    hide ItemText;
    var (a, b, c) := (ItemText(items[0], boundary), ItemTexts(items[1..], boundary), DASH + boundary + DASH + CRLF);
    assert a + b + c == a + (b + c);
  }

  lemma RestIsForm(items: seq<Part>, boundary: string)
    requires IsForm(items, boundary) && |items| > 1
    ensures IsForm(items[1..], boundary)
  {
    hide IsWritable, Find;
    assert forall i :: 0 <= i < |items[1..]| ==> items[1..][i] == items[i + 1];
  }

  lemma LineBreakAtEnd(item: Part, boundary: string, piece: string, pre: string)
    requires piece + pre == ItemText(item, boundary) && |piece| < |OpeningLine(boundary)|
    ensures |pre| >= 2 && pre[|pre| - 2] == '\r' && pre[|pre| - 1] == '\n'
  {
    hide HeaderLines, OpeningLine;
    var text := ItemText(item, boundary);
    assert |text| >= |OpeningLine(boundary)| + 2 && text[|text| - 2] == '\r' && text[|text| - 1] == '\n';
    assert |pre| >= 2 ==> pre[|pre| - 2] == text[|text| - 2] && pre[|pre| - 1] == text[|text| - 1];
    assert |piece| + |pre| == |text|;
  }

  /** Text before the opening line does not matter. */
  lemma {:induction false} LateFormReads(items: seq<Part>, boundary: string, pre: string)
    requires IsForm(items, boundary) && |pre| >= 2 && pre[|pre| - 2] == '\r' && pre[|pre| - 1] == '\n'
    requires Find(pre, OpeningLine(boundary)) == |pre|
    ensures var c := FRESH.Add(pre + Serialized(items, boundary, true));
      Seen(Drain(boundary, c)) == (true, true, items) && Tame(boundary, c)
  {
    hide AfterFirstLine, Serialized, Find, IsForm, Drain, Tame, OpeningLine, AfterOpening;
    FormNotEmpty(items, boundary);
    SerializedShape(items, boundary);
    var rest := AfterFirstLine(items, boundary);
    var c := FRESH.Add(pre + (OpeningLine(boundary) + rest));
    OpensBehind(boundary, pre, rest);
    var d := FRESH.(rest := rest, state := NewEntry);
    DrainOpening(boundary, c);
    ItemsRead(boundary, d, items);
    AtOpening(boundary, c);
    assert FRESH.parts + items == items;
  }

  lemma {:induction false} OpensBehind(boundary: string, pre: string, rest: string)
    requires IsBoundary(boundary) && |pre| >= 2 && pre[|pre| - 2] == '\r' && pre[|pre| - 1] == '\n'
    requires Find(pre, OpeningLine(boundary)) == |pre|
    ensures var c := FRESH.Add(pre + (OpeningLine(boundary) + rest));
      && Find(c.rest, OpeningLine(boundary)) < |c.rest|
      && AfterOpening(boundary, c) == FRESH.(rest := rest, state := NewEntry)
  {
    hide Find, OpeningLine, IsBoundary;
    var line := OpeningLine(boundary);
    var s := pre + (line + rest);
    OpeningPlain(boundary);
    FindBehind(pre, boundary, rest);
    DropBoth(pre, line, rest);
    FreshHas(s);
    assert |s| == |pre| + |line| + |rest|;
  }
}
