/**
 Splitting and trimming of byte strings, as the query and header parsers of
 externals/httplib/httplib.h do it.  A byte is a char below 256.
 */
module Text {

  predicate IsBlank(c: char) {
    c == ' ' || c == '\t'
  }

  lemma Assoc<T>(a: seq<T>, b: seq<T>, c: seq<T>)
    ensures a + (b + c) == a + b + c
  {
  }

  function Elements(s: seq<string>): set<string> {
    set x | x in s
  }

  lemma NoElements()
    ensures Elements([]) == {}
  {
  }

  lemma ElementsMore(s: seq<string>, i: nat)
    requires i < |s|
    ensures s[..i + 1] == s[..i] + [s[i]] && (s[i] in Elements(s[..i]) <==> s[i] in s[..i])
    ensures Elements(s[..i + 1]) == if s[i] in s[..i] then Elements(s[..i]) else Elements(s[..i]) + {s[i]}
  {
    assert s[..i + 1] == s[..i] + [s[i]];
  }

  // ----- trimming -----

  function TrimLeft(s: string): string {
    if s != "" && IsBlank(s[0]) then TrimLeft(s[1..]) else s
  }

  function TrimRight(s: string): string {
    if s != "" && IsBlank(s[|s| - 1]) then TrimRight(s[..|s| - 1]) else s
  }

  function Trim(s: string): string {
    TrimRight(TrimLeft(s))
  }

  /** A string whose ends are not blank is left alone. */
  lemma TrimPlain(s: string)
    requires s != "" ==> !IsBlank(s[0]) && !IsBlank(s[|s| - 1])
    ensures Trim(s) == s
  {
  }

  lemma {:induction false} TrimLeftAt(s: string, n: nat)
    requires n <= |s| && (forall i :: 0 <= i < n ==> IsBlank(s[i])) && (n < |s| ==> !IsBlank(s[n]))
    ensures TrimLeft(s) == s[n..]
  {
    if n > 0 {
      TrimLeftAt(s[1..], n - 1);
      assert s[1..][n - 1..] == s[n..];
    }
  }

  lemma {:induction false} TrimRightAt(s: string, n: nat)
    requires n <= |s| && (forall i :: n <= i < |s| ==> IsBlank(s[i])) && (n > 0 ==> !IsBlank(s[n - 1]))
    ensures TrimRight(s) == s[..n]
  {
    if n < |s| {
      TrimRightAt(s[..|s| - 1], n);
      assert s[..|s| - 1][..n] == s[..n];
    } else {
      assert s[..n] == s;
    }
  }

  /**
   The two scans: forwards from `left` to the end of the whole text, backwards from `right` to its start.
   Unless the piece is all blank they end inside it, around the trimmed piece; otherwise they cross.
   */
  method TrimRange(s: string, left: nat, right: nat) returns (l: nat, r: nat)
    requires left <= right <= |s|
    ensures left <= l <= |s| && r <= right
    ensures if Trim(s[left..right]) == "" then r <= left && right <= l
            else l < r && s[l..r] == Trim(s[left..right])
  {
    hide Trim;
    l, r := left, right;
    while l < |s| && IsBlank(s[l])
      invariant left <= l <= |s|
      invariant forall i :: left <= i < l ==> IsBlank(s[i])
    {
      l := l + 1;
    }
    while r > 0 && IsBlank(s[r - 1])
      invariant r <= right
      invariant forall i :: r <= i < right ==> IsBlank(s[i])
    {
      r := r - 1;
    }
    TrimBetween(s, left, right, l, r);
  }

  lemma TakeOfSlice(s: string, l: nat, m: nat, r: nat)
    requires l <= m <= r <= |s|
    ensures s[l..r][..m - l] == s[l..m]
  {
    var (a, b) := (s[l..r], s[l..m]);
    assert forall i :: 0 <= i < m - l ==> a[..m - l][i] == s[l + i] && b[i] == s[l + i];
  }

  lemma TrimBetween(s: string, left: nat, right: nat, l: nat, r: nat)
    requires left <= l <= |s| && left <= right <= |s| && r <= right
    requires (forall i :: left <= i < l ==> IsBlank(s[i])) && (forall i :: r <= i < right ==> IsBlank(s[i]))
    requires (l < |s| ==> !IsBlank(s[l])) && (r > 0 ==> !IsBlank(s[r - 1]))
    ensures if Trim(s[left..right]) == "" then r <= left && right <= l
            else l < r && s[l..r] == Trim(s[left..right])
  {
    var piece := s[left..right];
    if l < right {
      assert l < r;
      TrimLeftAt(piece, l - left);
      var rest := s[l..right];
      assert piece[l - left..] == rest;
      assert rest[r - l - 1] == s[r - 1];
      TrimRightAt(rest, r - l);
      TakeOfSlice(s, l, r, right);
    } else {
      TrimLeftAt(piece, |piece|);
      assert piece[|piece|..] == "";
    }
  }

  /** trim_copy: an all-blank string has l = |s| and r = 0, for which substr(|s|, huge) is empty. */
  method TrimCopy(s: string) returns (t: string)
    ensures t == Trim(s)
  {
    assert s[0..|s|] == s;
    var l, r := TrimRange(s, 0, |s|);
    t := if l < r then s[l..r] else "";
  }

  // ----- splitting -----

  function NonEmpty(s: string): seq<string> {
    if s == "" then [] else [s]
  }

  /** Index of the first `d`, or |s|. */
  function IndexOf(s: string, d: char): (i: nat)
    ensures i <= |s| && d !in s[..i] && (i < |s| ==> s[i] == d)
  {
    if s == "" || s[0] == d then 0 else
      var i := IndexOf(s[1..], d);
      assert s[..i + 1] == [s[0]] + s[1..][..i];
      i + 1
  }

  lemma {:induction false} IndexOfAt(s: string, d: char, i: nat)
    requires i <= |s| && d !in s[..i] && (i < |s| ==> s[i] == d)
    ensures IndexOf(s, d) == i
  {
  }

  /** The pieces between separators, trimmed, without the empty ones. */
  function Fields(s: string, d: char): seq<string>
    decreases |s|
  {
    var i := IndexOf(s, d);
    if i == |s| then NonEmpty(Trim(s)) else NonEmpty(Trim(s[..i])) + Fields(s[i + 1..], d)
  }

  lemma {:induction false} FieldsAt(s: string, d: char, i: nat)
    requires i <= |s| && d !in s[..i] && (i < |s| ==> s[i] == d)
    ensures Fields(s, d) == NonEmpty(Trim(s[..i])) + if i == |s| then [] else Fields(s[i + 1..], d)
  {
    IndexOfAt(s, d, i);
    if i == |s| { assert s[..i] == s; }
  }

  /** The fields from index `beg` on, when the first piece there ends at `i`. */
  lemma {:induction false} FieldsFrom(s: string, d: char, beg: nat, i: nat)
    requires beg <= i <= |s| && d !in s[beg..i] && (i < |s| ==> s[i] == d)
    ensures Fields(s[beg..], d) == NonEmpty(Trim(s[beg..i])) + if i == |s| then [] else Fields(s[i + 1..], d)
  {
    hide Fields, Trim;
    var piece := s[beg..];
    assert piece[..i - beg] == s[beg..i];
    assert i < |s| ==> piece[i - beg] == d && piece[i - beg + 1..] == s[i + 1..];
    FieldsAt(piece, d, i - beg);
  }

  /** Hands the piece [beg, i) to the callback unless it is blank. */
  method AddField(fields: seq<string>, s: string, beg: nat, i: nat) returns (r: seq<string>)
    requires beg <= i <= |s|
    ensures r == fields + NonEmpty(Trim(s[beg..i]))
  {
    hide Trim;
    var left, right := TrimRange(s, beg, i);
    r := if left < right then fields + [s[left..right]] else fields;
  }

  method Split(s: string, d: char) returns (fields: seq<string>)
    ensures fields == Fields(s, d)
  {
    hide Fields, Trim, IndexOf;
    fields := [];
    var i, beg := 0, 0;
    while i < |s|
      invariant beg <= i <= |s| && d !in s[beg..i]
      invariant fields + Fields(s[beg..], d) == Fields(s, d)
    {
      if s[i] == d {
        FieldsFrom(s, d, beg, i);
        fields := AddField(fields, s, beg, i);
        beg := i + 1;
      }
      i := i + 1;
    }
    FieldsFrom(s, d, beg, i);
    if i != 0 {
      fields := AddField(fields, s, beg, i);
    } else {
      TrimPlain("");
    }
  }

  lemma {:induction false} FieldsNonEmpty(s: string, d: char)
    ensures forall f :: f in Fields(s, d) ==> f != ""
    decreases |s|
  {
    var i := IndexOf(s, d);
    if i < |s| { FieldsNonEmpty(s[i + 1..], d); }
  }

  // ----- splitting undoes joining -----

  function Join(parts: seq<string>, d: char): string {
    if parts == [] then ""
    else if |parts| == 1 then parts[0]
    else parts[0] + [d] + Join(parts[1..], d)
  }

  /** A part that splitting gives back unchanged. */
  ghost predicate Solid(s: string, d: char) {
    s != "" && d !in s && !IsBlank(s[0]) && !IsBlank(s[|s| - 1])
  }

  lemma {:induction false} FieldsOfJoin(parts: seq<string>, d: char)
    requires forall i :: 0 <= i < |parts| ==> Solid(parts[i], d)
    ensures Fields(Join(parts, d), d) == parts
  {
    hide Fields, Trim;
    var s := Join(parts, d);
    if parts == [] {
      FieldsAt("", d, 0);
      TrimPlain("");
    } else if |parts| == 1 {
      assert s[..|s|] == s;
      FieldsAt(s, d, |s|);
      TrimPlain(s);
    } else {
      var n := |parts[0]|;
      assert s[..n] == parts[0] && s[n + 1..] == Join(parts[1..], d);
      FieldsAt(s, d, n);
      TrimPlain(parts[0]);
      FieldsOfJoin(parts[1..], d);
    }
  }
  /** The parts, trimmed, without those that are blank. */
  function Trimmed(parts: seq<string>): seq<string> {
    if parts == [] then [] else NonEmpty(Trim(parts[0])) + Trimmed(parts[1..])
  }

  /** Splitting any text, whatever lies between its separators: each part trimmed, and only blank ones left out. */
  lemma {:induction false} FieldsOfParts(parts: seq<string>, d: char)
    requires forall i :: 0 <= i < |parts| ==> d !in parts[i]
    ensures Fields(Join(parts, d), d) == Trimmed(parts)
  {
    hide Fields, Trim;
    var s := Join(parts, d);
    if parts == [] {
      FieldsAt("", d, 0);
      TrimPlain("");
    } else if |parts| == 1 {
      assert s[..|s|] == s;
      FieldsAt(s, d, |s|);
      assert Trimmed(parts[1..]) == [];
    } else {
      var n := |parts[0]|;
      assert s[..n] == parts[0] && s[n] == d && s[n + 1..] == Join(parts[1..], d);
      FieldsAt(s, d, n);
      FieldsOfParts(parts[1..], d);
    }
  }
}
