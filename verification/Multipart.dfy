/**
 The multipart/form-data push parser of externals/httplib/httplib.h: a five-state machine
 over a sliding window of a growing buffer.  What its callbacks have received is the field
 `parts`; unless they are known to accept everything they may refuse at any time.
 */
module Multipart {
  import opened MultipartSpec
  import opened Query
  import opened Text
  import opened Wrappers

  // ----- header lines -----

  method StartWithCaseIgnore(a: string, b: string) returns (r: bool)
    ensures r == StartsIgnoringCase(a, b)
  {
    if |a| < |b| { return false; }
    for i := 0 to |b|
      invariant forall k :: 0 <= k < i ==> Lower(a[k]) == Lower(b[k])
    {
      if Lower(a[i]) != Lower(b[i]) { return false; }
    }
    return true;
  }

  method ParseDispositionParams(text: string) returns (params: seq<(string, string)>)
    ensures params == DispositionParams(Fields(text, ';'))
  {
    hide DispositionParams, KeyValue, Unquote, Elements, Fields;
    NoElements();
    var fields := Split(text, ';');
    var cache: set<string> := {};
    params := [];
    NoParams();
    for i := 0 to |fields|
      invariant params == DispositionParams(fields[..i])
      invariant cache == Elements(fields[..i])
    {
      var kv := fields[i];
      ElementsMore(fields, i);
      ParamsLast(fields[..i], kv);
      var key, val := SplitPair(kv);
      if kv !in cache {
        cache := cache + {kv};
        if key != "" { params := params + [(Unquote(key), Unquote(val))]; }
      }
    }
    assert fields[..|fields|] == fields;
  }

  lemma NoParams()
    ensures DispositionParams([]) == []
  {
  }

  lemma {:induction false} ParamsLast(fields: seq<string>, kv: string)
    ensures DispositionParams(fields + [kv]) ==
      if kv in fields then DispositionParams(fields) else
        match KeyValue(kv)
        case None => DispositionParams(fields)
        case Some(pair) => DispositionParams(fields) + [(Unquote(pair.0), Unquote(pair.1))]
  {
    assert (fields + [kv])[..|fields|] == fields;
  }

  method ParseHeader(line: string, file: File) returns (r: Option<File>)
    ensures r == ReadHeader(line, file)
  {
    hide StartsIgnoringCase, DispositionParams, Fields, Trim, FirstValue;
    var isType := StartWithCaseIgnore(line, "content-type:");
    if isType {
      assert |line| >= |"content-type:"| by { IgnoringCaseLength(line, "content-type:"); }
      var contentType := TrimCopy(line[|"content-type:"|..]);
      return Some(file.(contentType := contentType));
    }
    var matched := MatchDisposition(line);
    if matched.None? { return None; }
    var params := ParseDispositionParams(matched.value);
    var f := file;
    var it := FirstValue(params, "name");
    if it.None? { return None; }
    f := f.(name := it.value);
    it := FirstValue(params, "filename");
    if it.Some? { f := f.(filename := it.value); }
    it := FirstValue(params, "filename*");
    if it.Some? {
      var m := MatchExtended(it.value);
      if m.None? { return None; }
      var name := DecodeUrl(m.value, false);
      f := f.(filename := name);
    }
    return Some(f);
  }

  lemma IgnoringCaseLength(a: string, b: string)
    requires StartsIgnoringCase(a, b)
    ensures |a| >= |b|
  {
  }

  lemma ReadHeadersUnfold(c: Config)
    ensures var pos := Find(c.rest, CRLF);
      ReadHeaders(c) ==
      if pos == |c.rest| then (true, c)
      else if pos == 0 then (true, c.(parts := c.parts + [Part(c.file, "")], rest := c.rest[2..], state := Body))
      else
        match ReadHeader(c.rest[..pos], c.file)
        case None => (false, c.(valid := false))
        case Some(file) => ReadHeaders(c.(file := file, rest := c.rest[pos + 2..]))
  {
  }

  // ----- the parser -----

  class MultipartFormDataParser {
    const boundary: string
    const dashBoundaryCrlf: string
    const crlfDashBoundary: string
    const accepting: bool         // the callbacks never refuse

    var state: State
    var isValid: bool
    var file: File
    var parts: seq<Part>
    var buf: string
    var spos: nat
    var epos: nat

    constructor (boundary: string, accepting: bool)
      ensures Valid() && this.boundary == boundary && this.accepting == accepting
      ensures View() == Config(Start, false, NO_FILE, [], "")
    {
      this.boundary, this.accepting := boundary, accepting;
      dashBoundaryCrlf := "--" + boundary + "\r\n";
      crlfDashBoundary := "\r\n" + "--" + boundary;
      state, isValid, file, parts := Start, false, NO_FILE, [];
      buf, spos, epos := "", 0, 0;
    }

    ghost predicate Valid()
      reads this
    {
      && spos <= epos <= |buf|
      && dashBoundaryCrlf == OpeningLine(boundary) && crlfDashBoundary == Delimiter(boundary)
    }

    ghost function Window(): string
      requires Valid()
      reads this
    {
      buf[spos..epos]
    }

    ghost function View(): Config
      requires Valid()
      reads this
    {
      Config(state, isValid, file, parts, Window())
    }

    function BufSize(): nat
      requires spos <= epos
      reads this
    {
      epos - spos
    }

    /** Does `s` stand at index `pos` of the buffer? */
    method StartWith(pos: nat, s: string) returns (r: bool)
      requires Valid() && spos <= pos <= epos
      ensures r == (s <= buf[pos..epos])
    {
      if epos - pos < |s| { return false; }
      for i := 0 to |s|
        invariant forall k :: 0 <= k < i ==> buf[pos + k] == s[k]
      {
        if buf[i + pos] != s[i] { return false; }
      }
      return true;
    }

    method BufFind(s: string) returns (r: nat)
      requires Valid() && s != ""
      ensures r == Find(Window(), s)
    {
      hide Find;
      var c := s[0];
      var off := spos;
      while off < epos
        invariant spos <= off <= epos
        invariant forall j: nat | j < off - spos :: !OccursAt(Window(), s, j)
      {
        var pos := off;
        while pos < epos && buf[pos] != c
          invariant off <= pos <= epos
          invariant forall j: nat | j < pos - spos :: !OccursAt(Window(), s, j)
        {
          assert Window()[pos - spos] != s[0];
          pos := pos + 1;
        }
        if pos == epos {
          FindAt(Window(), s, BufSize());
          return BufSize();
        }
        var remaining := epos - pos;
        if |s| > remaining {
          FindAt(Window(), s, BufSize());
          return BufSize();
        }
        var here := StartWith(pos, s);
        assert here == OccursAt(Window(), s, pos - spos) by {
          assert Window()[pos - spos..pos - spos + |s|] == buf[pos..epos][..|s|];
        }
        if here {
          FindAt(Window(), s, pos - spos);
          return pos - spos;
        }
        off := pos + 1;
      }
      FindAt(Window(), s, BufSize());
      return BufSize();
    }

    /** Moves the window to the front of the buffer and appends the new bytes to it. */
    method BufAppend(data: string)
      requires Valid()
      modifies `buf, `spos, `epos
      ensures Valid() && Window() == old(Window()) + data
    {
      var remaining := BufSize();
      if remaining > 0 && spos > 0 {
        var i := 0;
        while i < remaining
          invariant i <= remaining && |buf| == old(|buf|) && spos == old(spos) && epos == old(epos)
          invariant forall k :: 0 <= k < i ==> buf[k] == old(buf[spos + k])
          invariant forall k :: i <= k < |buf| ==> buf[k] == old(buf[k])
        {
          buf := buf[i := buf[spos + i]];
          i := i + 1;
        }
      }
      spos := 0;
      epos := remaining;
      assert buf[..epos] == old(Window());
      if remaining + |data| > |buf| {
        buf := buf + seq(remaining + |data| - |buf|, _ => '\0');
      }
      var j := 0;
      while j < |data|
        invariant j <= |data| && epos + |data| <= |buf| && spos == 0 && epos == remaining
        invariant buf[..epos] == old(Window())
        invariant forall k :: 0 <= k < j ==> buf[epos + k] == data[k]
      {
        buf := buf[epos + j := data[j]];
        j := j + 1;
      }
      epos := epos + |data|;
    }

    method BufErase(size: nat)
      requires Valid() && size <= BufSize()
      modifies `spos
      ensures Valid() && Window() == old(Window())[size..]
    {
      spos := spos + size;
    }

    /** What a callback answers. */
    method IsAccepted() returns (r: bool)
      ensures accepting ==> r
    {
      r := true;
      if !accepting { r := *; }
    }

    /** A callback has refused: the parser is not valid any more. */
    ghost predicate Refused(ok: bool)
      reads this
    {
      !accepting && !ok && !isValid
    }

    /** Reads header lines as long as there is a complete one. */
    method ReadHeaderLines() returns (ok: bool)
      requires Valid() && state.Header?
      modifies this
      ensures Valid() && ((ok, View()) == ReadHeaders(old(View())) || Refused(ok))
    {
      hide Find, ReadHeader, ReadHeaders;
      var pos := BufFind("\r\n");
      while pos < BufSize()
        invariant Valid() && state.Header? && pos == Find(Window(), CRLF)
        invariant ReadHeaders(View()) == ReadHeaders(old(View()))
        decreases BufSize()
      {
        ReadHeadersUnfold(View());
        if pos == 0 {
          var accepted := IsAccepted();
          if !accepted {
            isValid := false;
            return false;
          }
          parts := parts + [Part(file, "")];
          BufErase(2);
          state := Body;
          return true;
        }
        var header := buf[spos..spos + pos];
        assert header == Window()[..pos];
        var read := ParseHeader(header, file);
        if read.None? {
          isValid := false;
          return false;
        }
        file := read.value;
        BufErase(pos + 2);
        pos := BufFind("\r\n");
      }
      ReadHeadersUnfold(View());
      return true;
    }

    /** From `c` the loop goes on at the smaller `d` with the same result, or returns at `d`, or is refused. */
    ghost predicate Steps(r: Option<bool>, c: Config, d: Config)
      reads this
    {
      match r
      case Some(ok) => Drain(boundary, c) == (ok, d) || Refused(ok)
      case None => Drain(boundary, c) == Drain(boundary, d) && |d.rest| < |c.rest|
    }

    /** State Start; None means that the loop goes on. */
    method StepOpening() returns (r: Option<bool>)
      requires Valid() && state.Start? && BufSize() > 0
      modifies this
      ensures Valid() && Steps(r, old(View()), View())
    {
      hide Find, ReadHeaders, Deliver;
      var pos := BufFind(dashBoundaryCrlf);
      BufErase(pos);
      if |dashBoundaryCrlf| > BufSize() { return Some(true); }
      var here := StartWith(spos, dashBoundaryCrlf);
      if !here { return Some(false); }
      BufErase(|dashBoundaryCrlf|);
      state := NewEntry;
      return None;
    }

    /** State Header; None means that the loop goes on. */
    method StepHeaders() returns (r: Option<bool>)
      requires Valid() && state.Header? && BufSize() > 0
      modifies this
      ensures Valid() && Steps(r, old(View()), View())
    {
      hide Find, ReadHeaders, Deliver;
      var pos := BufFind("\r\n");
      if pos > MAX_HEADER { return Some(false); }
      var ok := ReadHeaderLines();
      return if ok && state.Body? then None else Some(ok);
    }

    /** State Body; None means that the loop goes on. */
    method StepBody() returns (r: Option<bool>)
      requires Valid() && state.Body? && BufSize() > 0
      modifies this
      ensures Valid() && Steps(r, old(View()), View())
    {
      hide Find, ReadHeaders, Deliver;
      if |crlfDashBoundary| > BufSize() { return Some(true); }
      var pos := BufFind(crlfDashBoundary);
      if pos < BufSize() {
        assert buf[spos..spos + pos] == Window()[..pos];
        var accepted := IsAccepted();
        if !accepted {
          isValid := false;
          return Some(false);
        }
        parts := Deliver(parts, buf[spos..spos + pos]);
        BufErase(pos + |crlfDashBoundary|);
        state := Boundary;
        return None;
      }
      var len := BufSize() - |crlfDashBoundary|;
      if len > 0 {
        assert buf[spos..spos + len] == Window()[..len];
        var accepted := IsAccepted();
        if !accepted {
          isValid := false;
          return Some(false);
        }
        parts := Deliver(parts, buf[spos..spos + len]);
        BufErase(len);
      }
      return Some(true);
    }

    /** State Boundary; None means that the loop goes on. */
    method StepBoundary() returns (r: Option<bool>)
      requires Valid() && state.Boundary? && BufSize() > 0
      modifies this
      ensures Valid() && Steps(r, old(View()), View())
    {
      hide Find, ReadHeaders, Deliver;
      if |"\r\n"| > BufSize() { return Some(true); }
      var more := StartWith(spos, "\r\n");
      if more {
        BufErase(2);
        state := NewEntry;
        return None;
      }
      if |"--"| > BufSize() { return Some(true); }
      var closing := StartWith(spos, "--");
      if !closing { return Some(true); }
      BufErase(2);
      isValid := true;
      BufErase(BufSize());
      assert Drain(boundary, View()) == (true, View());
      return None;
    }

    /** Takes in one chunk; false means that the input is malformed or a callback has refused. */
    method Parse(data: string) returns (ok: bool)
      requires Valid()
      modifies this
      ensures Valid() && ((ok, View()) == Drain(boundary, old(View()).Add(data)) || Refused(ok))
    {
      hide Find, ReadHeaders, Deliver;
      BufAppend(data);
      ghost var goal := Drain(boundary, View());
      while BufSize() > 0
        invariant Valid() && Drain(boundary, View()) == goal
        decreases BufSize(), state.NewEntry?
      {
        var r := None;
        match state {
          case Start => r := StepOpening();
          case NewEntry =>
            file := NO_FILE;
            state := Header;
          case Header => r := StepHeaders();
          case Body => r := StepBody();
          case Boundary => r := StepBoundary();
        }
        if r.Some? { return r.value; }
      }
      return true;
    }
  }

  /** A reader that hands on its chunks until the parser refuses one. */
  method ParseChunks(p: MultipartFormDataParser, chunks: seq<string>) returns (ok: bool)
    requires p.Valid()
    modifies p
    ensures p.Valid() && ((ok, p.View()) == FeedAll(p.boundary, old(p.View()), chunks) || p.Refused(ok))
  {
    hide Drain;
    for i := 0 to |chunks|
      invariant p.Valid() && FeedAll(p.boundary, p.View(), chunks[i..]) == FeedAll(p.boundary, old(p.View()), chunks)
    {
      assert chunks[i..][1..] == chunks[i + 1..];
      ok := p.Parse(chunks[i]);
      if !ok { return false; }
    }
    return true;
  }
}
