/** How the input is cut into chunks does not matter to the multipart parser. */
module MultipartChunks {
  import opened MultipartSpec
  import opened Wrappers

  /** What a caller of the parser gets to see. */
  function Seen(r: (bool, Config)): (bool, bool, seq<Part>) {
    (r.0, r.1.valid, r.1.parts)
  }

  // ----- inputs on which cutting makes no difference -----

  /** Every header line, also an unfinished one, is within the limit. */
  ghost predicate ShortLines(c: Config)
    decreases |c.rest|
  {
    var pos := Find(c.rest, CRLF);
    if pos == |c.rest| then pos <= MAX_HEADER
    else
      && pos < MAX_HEADER
      && (pos > 0 && ReadHeader(c.rest[..pos], c.file).Some? ==>
            ShortLines(c.(file := ReadHeader(c.rest[..pos], c.file).value, rest := c.rest[pos + 2..])))
  }

  /** Header lines are short, and nothing but the final line break follows the closing delimiter. */
  ghost predicate Tame(boundary: string, c: Config)
    decreases |c.rest|, c.state.NewEntry?
  {
    c.rest == "" ||
    match c.state
    case Start =>
      var pos := Find(c.rest, OpeningLine(boundary));
      pos < |c.rest| ==> Tame(boundary, AfterOpening(boundary, c))
    case NewEntry => Tame(boundary, c.(file := NO_FILE, state := Header))
    case Header =>
      && ShortLines(c)
      && var (ok, d) := ReadHeaders(c);
         (ok && d.state.Body? ==> Tame(boundary, d))
    case Body =>
      var pos := Find(c.rest, Delimiter(boundary));
      pos < |c.rest| ==> Tame(boundary, AfterBody(boundary, c))
    case Boundary =>
      && (CRLF <= c.rest ==> Tame(boundary, c.(rest := c.rest[2..], state := NewEntry)))
      && (DASH <= c.rest ==> c.rest[2..] <= CRLF)
  }

  function AfterOpening(boundary: string, c: Config): (d: Config)
    requires Find(c.rest, OpeningLine(boundary)) < |c.rest|
    ensures |d.rest| < |c.rest|
  {
    c.(rest := c.rest[Find(c.rest, OpeningLine(boundary)) + |OpeningLine(boundary)|..], state := NewEntry)
  }

  function AfterBody(boundary: string, c: Config): (d: Config)
    requires Find(c.rest, Delimiter(boundary)) < |c.rest|
    ensures |d.rest| < |c.rest|
  {
    var pos := Find(c.rest, Delimiter(boundary));
    c.(parts := Deliver(c.parts, c.rest[..pos]), rest := c.rest[pos + |Delimiter(boundary)|..], state := Boundary)
  }

  // ----- one step -----

  lemma {:induction false} DrainOpening(boundary: string, c: Config)
    requires c.state.Start? && Find(c.rest, OpeningLine(boundary)) < |c.rest|
    ensures Drain(boundary, c) == Drain(boundary, AfterOpening(boundary, c))
  {
    hide ReadHeaders, Deliver, Find;
    var line := OpeningLine(boundary);
    var pos := Find(c.rest, line);
    FindFirst(c.rest, line);
    assert c.rest[pos..][..|line|] == c.rest[pos..pos + |line|];
    assert c.rest[pos..][|line|..] == c.rest[pos + |line|..];
  }

  lemma {:induction false} DrainBody(boundary: string, c: Config)
    requires c.state.Body? && Find(c.rest, Delimiter(boundary)) < |c.rest|
    ensures Drain(boundary, c) == Drain(boundary, AfterBody(boundary, c))
    ensures Tame(boundary, AfterBody(boundary, c)) ==> Tame(boundary, c)
  {
  }

  lemma {:induction false} DrainHeaders(boundary: string, c: Config, d: Config)
    requires c.state.Header? && c.rest != "" && ShortLines(c) && ReadHeaders(c) == (true, d) && d.state.Body?
    ensures Drain(boundary, c) == Drain(boundary, d)
    ensures Tame(boundary, d) ==> Tame(boundary, c)
  {
    ShortFirstLine(c);
  }

  lemma {:induction false} DrainNewEntry(boundary: string, c: Config)
    requires c.state.NewEntry? && c.rest != ""
    ensures var d := c.(file := NO_FILE, state := Header);
      Drain(boundary, c) == Drain(boundary, d) && Tame(boundary, c) == Tame(boundary, d)
  {
  }

  lemma {:induction false} OpeningStable(boundary: string, c: Config, x: string)
    requires Find(c.rest, OpeningLine(boundary)) < |c.rest|
    ensures Find(c.rest + x, OpeningLine(boundary)) < |c.rest + x|
    ensures AfterOpening(boundary, c.Add(x)) == AfterOpening(boundary, c).Add(x)
  {
    FindStable(c.rest, x, OpeningLine(boundary));
  }

  lemma {:induction false} BodyStable(boundary: string, c: Config, x: string)
    requires Find(c.rest, Delimiter(boundary)) < |c.rest|
    ensures Find(c.rest + x, Delimiter(boundary)) < |c.rest + x|
    ensures AfterBody(boundary, c.Add(x)) == AfterBody(boundary, c).Add(x)
  {
    hide Find, Deliver;
    var mark := Delimiter(boundary);
    var pos := Find(c.rest, mark);
    FindStable(c.rest, x, mark);
    assert (c.rest + x)[..pos] == c.rest[..pos];
    assert (c.rest + x)[pos + |mark|..] == c.rest[pos + |mark|..] + x;
  }

  lemma {:induction false} FindLate(s: string, x: string, pat: string)
    requires pat != "" && Find(s, pat) == |s|
    ensures Find(s + x, pat) + |pat| > |s|
  {
    if |s| >= |pat| {
      assert (s + x)[1..] == s[1..] + x;
      FindLate(s[1..], x, pat);
    }
  }

  // ----- headers -----

  lemma {:induction false} HeadersAbsorb(c: Config, x: string)
    requires c.state.Header? && ShortLines(c.Add(x))
    ensures ShortLines(c)
    ensures var (ok, d) := ReadHeaders(c);
      && (d.state.Header? || d.state.Body?)
      && (!ok || d.state.Body? ==> ReadHeaders(c.Add(x)) == (ok, d.Add(x)))
      && (ok && d.state.Header? ==> ReadHeaders(c.Add(x)) == ReadHeaders(d.Add(x)) && ShortLines(d.Add(x)))
    decreases |c.rest|
  {
    hide ReadHeader;
    var pos := Find(c.rest, CRLF);
    if pos == |c.rest| {
      FindLate(c.rest, x, CRLF);
    } else {
      FindStable(c.rest, x, CRLF);
      assert (c.rest + x)[..pos] == c.rest[..pos];
      assert (c.rest + x)[pos + 2..] == c.rest[pos + 2..] + x;
      if pos > 0 && ReadHeader(c.rest[..pos], c.file).Some? {
        HeadersAbsorb(c.(file := ReadHeader(c.rest[..pos], c.file).value, rest := c.rest[pos + 2..]), x);
      }
    }
  }

  lemma {:induction false} ShortFirstLine(c: Config)
    requires ShortLines(c)
    ensures Find(c.rest, CRLF) <= MAX_HEADER
  {
  }

  // ----- bodies -----

  lemma DeliverTwice(parts: seq<Part>, a: string, b: string)
    ensures Deliver(Deliver(parts, a), b) == Deliver(parts, a + b)
  {
    if parts != [] {
      var last := parts[|parts| - 1];
      assert last.content + a + b == last.content + (a + b);
    }
  }

  /** What is kept back of a body without a delimiter in it. */
  function KeptBack(boundary: string, c: Config): Config {
    var len := |c.rest| - |Delimiter(boundary)|;
    if len > 0 then c.(parts := Deliver(c.parts, c.rest[..len]), rest := c.rest[len..]) else c
  }

  lemma {:induction false} DrainUnfinishedBody(boundary: string, c: Config)
    requires c.state.Body? && Find(c.rest, Delimiter(boundary)) == |c.rest|
    ensures Drain(boundary, c) == (true, KeptBack(boundary, c))
  {
  }

  lemma KeptBackTwice(boundary: string, c: Config, x: string)
    ensures KeptBack(boundary, KeptBack(boundary, c).Add(x)) == KeptBack(boundary, c.Add(x))
  {
    var n := |c.rest| - |Delimiter(boundary)|;
    var d := KeptBack(boundary, c);
    if x == "" {
      assert c.rest + x == c.rest && d.rest + x == d.rest;
    } else if n > 0 {
      DeliverTwice(c.parts, c.rest[..n], (c.rest[n..] + x)[..|x|]);
      DropSplit(c.rest, x, n, |x|);
    }
  }

  lemma DropSplit(s: string, x: string, n: nat, p: nat)
    requires n <= |s| && n + p <= |s + x|
    ensures (s + x)[..n + p] == s[..n] + (s[n..] + x)[..p] && (s + x)[n + p..] == (s[n..] + x)[p..]
  {
  }

  lemma {:induction false} KeptBackFound(boundary: string, c: Config, x: string)
    requires Find(c.rest, Delimiter(boundary)) == |c.rest|
    requires Find(c.rest + x, Delimiter(boundary)) < |c.rest + x|
    ensures var d := KeptBack(boundary, c).Add(x);
      Find(d.rest, Delimiter(boundary)) < |d.rest| && AfterBody(boundary, d) == AfterBody(boundary, c.Add(x))
  {
    hide Deliver, Find;
    var mark := Delimiter(boundary);
    var n := |c.rest| - |mark|;
    if n > 0 {
      FindAfterDrop(c.rest, x, mark, n);
      var p := Find(c.rest[n..] + x, mark);
      DeliverTwice(c.parts, c.rest[..n], (c.rest[n..] + x)[..p]);
      DropSplit(c.rest, x, n, p);
      DropSplit(c.rest, x, n, p + |mark|);
    }
  }

  lemma {:induction false} KeptBackMissing(boundary: string, c: Config, x: string)
    requires Find(c.rest, Delimiter(boundary)) == |c.rest|
    requires Find(c.rest + x, Delimiter(boundary)) == |c.rest + x|
    ensures var d := KeptBack(boundary, c).Add(x); Find(d.rest, Delimiter(boundary)) == |d.rest|
  {
    var n := |c.rest| - |Delimiter(boundary)|;
    if n > 0 { FindAfterDrop(c.rest, x, Delimiter(boundary), n); }
  }

  lemma {:induction false} BodyAbsorb(boundary: string, c: Config, x: string)
    requires c.state.Body? && Find(c.rest, Delimiter(boundary)) == |c.rest| && Tame(boundary, c.Add(x))
    ensures var d := KeptBack(boundary, c).Add(x);
      Tame(boundary, d) && Drain(boundary, d) == Drain(boundary, c.Add(x))
  {
    hide Drain, Deliver;
    var d := KeptBack(boundary, c).Add(x);
    if Find(c.rest + x, Delimiter(boundary)) < |c.rest + x| {
      KeptBackFound(boundary, c, x);
      DrainBody(boundary, d);
      DrainBody(boundary, c.Add(x));
    } else {
      KeptBackMissing(boundary, c, x);
      KeptBackTwice(boundary, c, x);
      DrainUnfinishedBody(boundary, d);
      DrainUnfinishedBody(boundary, c.Add(x));
    }
  }

  // ----- all states -----

  /** The opening line is either not begun or all there. */
  ghost predicate Opened(boundary: string, c: Config) {
    c.state.Start? ==> c.rest == "" || Find(c.rest, OpeningLine(boundary)) < |c.rest|
  }

  /** Stopping for more input and going on gives what reading everything at once gives. */
  ghost predicate Absorbs(boundary: string, c: Config, x: string) {
    Tame(boundary, c) &&
    var (ok, d) := Drain(boundary, c);
    if ok then Tame(boundary, d.Add(x)) && Seen(Drain(boundary, d.Add(x))) == Seen(Drain(boundary, c.Add(x)))
    else Seen(Drain(boundary, c.Add(x))) == Seen((false, d))
  }

  lemma {:induction false} Absorb(boundary: string, c: Config, x: string)
    requires Opened(boundary, c) && Tame(boundary, c.Add(x))
    ensures Absorbs(boundary, c, x)
    decreases |c.rest|, c.state.NewEntry?
  {
    hide Drain, Tame, Find, Deliver;
    if c.rest == "" {
      NothingAtHand(boundary, c);
    } else {
      match c.state
      case Start =>
        OpeningStable(boundary, c, x);
        DrainOpening(boundary, c);
        DrainOpening(boundary, c.Add(x));
        AtOpening(boundary, c);
        AtOpening(boundary, c.Add(x));
        Absorb(boundary, AfterOpening(boundary, c), x);
      case NewEntry =>
        DrainNewEntry(boundary, c);
        DrainNewEntry(boundary, c.Add(x));
        Absorb(boundary, c.(file := NO_FILE, state := Header), x);
      case Header =>
        AbsorbHeader(boundary, c, x);
      case Body =>
        AtBody(boundary, c);
        if Find(c.rest, Delimiter(boundary)) < |c.rest| {
          BodyStable(boundary, c, x);
          DrainBody(boundary, c);
          DrainBody(boundary, c.Add(x));
          AtBody(boundary, c.Add(x));
          Absorb(boundary, AfterBody(boundary, c), x);
        } else {
          DrainUnfinishedBody(boundary, c);
          BodyAbsorb(boundary, c, x);
        }
      case Boundary =>
        AtBoundary(boundary, c);
        AtBoundary(boundary, c.Add(x));
        if CRLF <= c.rest || DASH <= c.rest {
          assert (c.rest + x)[..2] == c.rest[..2] && (c.rest + x)[2..] == c.rest[2..] + x;
        }
        if CRLF <= c.rest {
          Absorb(boundary, c.(rest := c.rest[2..], state := NewEntry), x);
        } else if DASH <= c.rest {
          ClosedAbsorbs(boundary, c, x);
        }
    }
  }

  lemma {:induction false} NothingAtHand(boundary: string, c: Config)
    requires c.rest == ""
    ensures Drain(boundary, c) == (true, c) && Tame(boundary, c)
  {
  }

  lemma {:induction false} AtOpening(boundary: string, c: Config)
    requires c.state.Start? && Find(c.rest, OpeningLine(boundary)) < |c.rest|
    ensures Tame(boundary, c) == Tame(boundary, AfterOpening(boundary, c))
  {
  }

  lemma {:induction false} AtBody(boundary: string, c: Config)
    requires c.state.Body? && c.rest != ""
    ensures Tame(boundary, c) <==>
      (Find(c.rest, Delimiter(boundary)) < |c.rest| ==> Tame(boundary, AfterBody(boundary, c)))
  {
  }

  /** In state Boundary the next two bytes decide. */
  lemma {:induction false} AtBoundary(boundary: string, c: Config)
    requires c.state.Boundary?
    ensures CRLF <= c.rest ==>
      var d := c.(rest := c.rest[2..], state := NewEntry);
      Drain(boundary, c) == Drain(boundary, d) && Tame(boundary, c) == Tame(boundary, d)
    ensures DASH <= c.rest ==> (Tame(boundary, c) <==> c.rest[2..] <= CRLF)
    ensures !(CRLF <= c.rest) && !(DASH <= c.rest) ==> Drain(boundary, c) == (true, c) && Tame(boundary, c)
  {
    assert CRLF <= c.rest ==> c.rest[0] == '\r';
    assert DASH <= c.rest ==> c.rest[0] == '-';
  }

  lemma {:induction false} AbsorbHeader(boundary: string, c: Config, x: string)
    requires c.state.Header? && c.rest != "" && Tame(boundary, c.Add(x))
    ensures Absorbs(boundary, c, x)
    decreases |c.rest|, false, 0
  {
    hide Drain, Tame, ReadHeaders, ShortLines;
    AtHeader(boundary, c.Add(x));
    HeadersAbsorb(c, x);
    AtHeader(boundary, c);
    var (ok, d) := ReadHeaders(c);
    if ok && d.state.Body? {
      Absorb(boundary, d, x);
    } else if ok {
      AtHeader(boundary, d.Add(x));
    }
  }

  /** In state Header everything depends on the header lines. */
  lemma {:induction false} AtHeader(boundary: string, c: Config)
    requires c.state.Header?
    ensures var (ok, d) := ReadHeaders(c);
      && (Tame(boundary, c) <==> ShortLines(c) && (ok && d.state.Body? ==> Tame(boundary, d)))
      && (ShortLines(c) ==> Drain(boundary, c) == if ok && d.state.Body? then Drain(boundary, d) else (ok, d))
  {
    hide ReadHeader;
    if c.rest == "" {
      assert ReadHeaders(c) == (true, c);
    } else {
      hide ReadHeaders;
      if ShortLines(c) { ShortFirstLine(c); }
    }
  }

  /** After the closing delimiter only a line break may come, in pieces or not at all. */
  lemma ClosedAbsorbs(boundary: string, c: Config, x: string)
    requires c.state.Boundary? && DASH <= c.rest && c.rest[2..] + x <= CRLF
    ensures Absorbs(boundary, c, x)
  {
    var d := c.(valid := true, rest := "").Add(x);
    assert d.rest == x && |x| <= 2;
    assert |x| == 2 ==> x == c.rest[2..] + x;
    assert c.rest[0] == DASH[0] && (c.rest + x)[0] == DASH[0] && DASH[0] != CRLF[0];
    assert Drain(boundary, c) == (true, c.(valid := true, rest := ""));
    assert Drain(boundary, c.Add(x)) == (true, c.(valid := true, rest := ""));
    if |x| == 2 {
      assert x[2..] == "";
      assert Drain(boundary, d) == Drain(boundary, d.(rest := "", state := NewEntry));
    }
  }

  // ----- all chunkings -----

  lemma {:induction false} NeverBackToStart(boundary: string, c: Config)
    requires !c.state.Start?
    ensures !Drain(boundary, c).1.state.Start?
    decreases |c.rest|, c.state.NewEntry?
  {
    if c.rest == "" { return; }
    match c.state
    case NewEntry => NeverBackToStart(boundary, c.(file := NO_FILE, state := Header));
    case Header =>
      if Find(c.rest, CRLF) <= MAX_HEADER {
        HeadersState(c);
        var (ok, d) := ReadHeaders(c);
        if ok && d.state.Body? { NeverBackToStart(boundary, d); }
      }
    case Body =>
      if Find(c.rest, Delimiter(boundary)) < |c.rest| {
        DrainBody(boundary, c);
        NeverBackToStart(boundary, AfterBody(boundary, c));
      }
    case Boundary =>
      if |c.rest| >= 2 && CRLF <= c.rest { NeverBackToStart(boundary, c.(rest := c.rest[2..], state := NewEntry)); }
  }

  lemma {:induction false} HeadersState(c: Config)
    requires c.state.Header?
    ensures ReadHeaders(c).1.state.Header? || ReadHeaders(c).1.state.Body?
    decreases |c.rest|
  {
    hide ReadHeader, Find;
    var pos := Find(c.rest, CRLF);
    if 0 < pos < |c.rest| && ReadHeader(c.rest[..pos], c.file).Some? {
      HeadersState(c.(file := ReadHeader(c.rest[..pos], c.file).value, rest := c.rest[pos + 2..]));
    }
  }

  /** The first chunk that is not empty holds the whole opening line. */
  ghost predicate OpensWhole(boundary: string, chunks: seq<string>) {
    chunks != [] ==>
      if chunks[0] == "" then OpensWhole(boundary, chunks[1..])
      else Find(chunks[0], OpeningLine(boundary)) < |chunks[0]|
  }

  /** Any way of cutting the input gives what the whole input gives at once. */
  lemma {:induction false} ChunksDoNotMatter(boundary: string, c: Config, chunks: seq<string>)
    requires Tame(boundary, c.Add(Flatten(chunks))) && Seen(Drain(boundary, c)) == Seen((true, c))
    requires c.state.Start? ==> c.rest == "" && OpensWhole(boundary, chunks)
    ensures Seen(FeedAll(boundary, c, chunks)) == Seen(Drain(boundary, c.Add(Flatten(chunks))))
    decreases |chunks|
  {
    if chunks == [] {
      assert c.rest + "" == c.rest;
    } else {
      hide Drain, Tame;
      var e, rest := c.Add(chunks[0]), Flatten(chunks[1..]);
      assert c.rest + (chunks[0] + rest) == c.rest + chunks[0] + rest;
      assert c.Add(Flatten(chunks)) == e.Add(rest);
      assert c.state.Start? ==> e.rest == chunks[0];
      Absorb(boundary, e, rest);
      assert e.Add("") == e by { assert e.rest + "" == e.rest; }
      Absorb(boundary, e, "");
      var (ok, d) := Drain(boundary, e);
      if ok {
        assert d.Add("") == d by { assert d.rest + "" == d.rest; }
        StartOnlyWhenEmpty(boundary, e);
        ChunksDoNotMatter(boundary, d, chunks[1..]);
      }
    }
  }

  lemma {:induction false} StartOnlyWhenEmpty(boundary: string, c: Config)
    requires Opened(boundary, c)
    ensures Drain(boundary, c).1.state.Start? ==> c.rest == "" && Drain(boundary, c).1 == c
  {
    if c.rest != "" {
      if c.state.Start? {
        DrainOpening(boundary, c);
        NeverBackToStart(boundary, AfterOpening(boundary, c));
      } else {
        NeverBackToStart(boundary, c);
      }
    }
  }

  const FRESH := Config(Start, false, NO_FILE, [], "")

  lemma {:induction false} FindShort(s: string, pat: string)
    requires |s| < |pat|
    ensures Find(s, pat) == |s|
  {
    if s != "" { FindShort(s[1..], pat); }
  }
}
