/**
 The meaning of a command line: a plain left-to-right scan that never moves an
 argument.  The permuting parser in Getopt.dfy is proved against it.

 Strings are C strings without their terminator.
 */
module GetoptSpec {
  import opened Text
  import opened Wrappers

  datatype Ordering = RequireOrder | Permute | ReturnInOrder

  /** One row of the caller's long option table; `flag` names the variable to set, if any. */
  datatype LongOption = LongOption(name: string, hasArg: int, flag: Option<nat>, val: int)

  /** What one call reports: its result, optarg, and what it writes to optopt, *longind and *flag. */
  datatype Event = Event(code: int, arg: Option<string>, optopt: Option<int>, longIndex: Option<nat>,
                         store: Option<(nat, int)>)

  /** What a whole command line comes to: the reports in order, the elements they use up, and the rest. */
  datatype Parsed = Parsed(events: seq<Event>, consumed: seq<string>, operands: seq<string>) {
    function Prepend(e: Event): Parsed {
      this.(events := [e] + events)
    }
  }

  /** The option table in force: optstring without its ordering prefix, the long options (or NULL), the ordering. */
  datatype Table = Table(optstring: string, longopts: Option<seq<LongOption>>, ordering: Ordering)

  // ----- words -----

  predicate IsOperand(w: string) {
    |w| < 2 || w[0] != '-'
  }

  predicate IsLong(t: Table, w: string) {
    t.longopts.Some? && 2 <= |w| && w[1] == '-'
  }

  predicate HasPrefixSign(optstring: string) {
    optstring != "" && (optstring[0] == '-' || optstring[0] == '+')
  }

  function StripSign(optstring: string): string {
    if HasPrefixSign(optstring) then optstring[1..] else optstring
  }

  function OrderingOf(optstring: string, posixlyCorrect: bool): Ordering {
    if optstring != "" && optstring[0] == '-' then ReturnInOrder
    else if optstring != "" && optstring[0] == '+' then RequireOrder
    else if posixlyCorrect then RequireOrder
    else Permute
  }

  // ----- short options -----

  datatype Kind = Unknown | Plain | Required | Optional

  function KindOf(optstring: string, c: char): Kind {
    var i := IndexOf(optstring, c);
    if i == |optstring| || c == ':' || c == ';' then Unknown
    else if "::" <= optstring[i + 1..] then Optional
    else if ":" <= optstring[i + 1..] then Required
    else Plain
  }

  /** The optstring uses the `W;` extension, which is not part of this model. */
  predicate UsesW(optstring: string) {
    var i := IndexOf(optstring, 'W');
    i < |optstring| && ";" <= optstring[i + 1..]
  }

  function MissingCode(optstring: string): int {
    if optstring != "" && optstring[0] == ':' then ':' as int else '?' as int
  }

  /** The reports of one option word and how many of the following elements it takes as its argument. */
  datatype Word = Word(events: seq<Event>, taken: nat)

  function Report(code: int, arg: Option<string>): Event {
    Event(code, arg, None, None, None)
  }

  function Complain(code: int, optopt: int): Event {
    Event(code, None, Some(optopt), None, None)
  }

  /** A cluster of short options `chars`, followed on the command line by `next`. */
  function Cluster(optstring: string, chars: string, next: seq<string>): (w: Word)
    requires chars != ""
    ensures w.events != [] && w.taken <= |next| && w.taken <= 1
  {
    var c, rest := chars[0], chars[1..];
    match KindOf(optstring, c)
    case Optional => Word([Report(c as int, if rest == "" then None else Some(rest))], 0)
    case Required =>
      if rest != "" then Word([Report(c as int, Some(rest))], 0)
      else if next == [] then Word([Complain(MissingCode(optstring), c as int)], 0)
      else Word([Report(c as int, Some(next[0]))], 1)
    case kind =>
      var e := if kind.Plain? then Report(c as int, None) else Complain('?' as int, c as int);
      if rest == "" then Word([e], 0) else
        var w := Cluster(optstring, rest, next);
        Word([e] + w.events, w.taken)
  }

  // ----- long options -----

  datatype Lookup = Found(index: nat) | Ambiguous | Missing

  predicate SameEffect(a: LongOption, b: LongOption) {
    a.hasArg == b.hasArg && a.flag == b.flag && a.val == b.val
  }

  predicate Exact(options: seq<LongOption>, key: string, i: nat) {
    i < |options| && options[i].name == key
  }

  predicate Abbreviated(options: seq<LongOption>, key: string, i: nat) {
    i < |options| && key <= options[i].name
  }

  /** `r` is the right answer for `key`: the first exact name, else the one meaning all its completions share. */
  ghost predicate IsLookup(options: seq<LongOption>, key: string, r: Lookup) {
    match r
    case Found(i) =>
      || (Exact(options, key, i) && forall j: nat | j < i :: !Exact(options, key, j))
      || (&& (forall j: nat :: !Exact(options, key, j))
          && Abbreviated(options, key, i)
          && (forall j: nat | j < i :: !Abbreviated(options, key, j))
          && (forall j: nat | Abbreviated(options, key, j) :: SameEffect(options[i], options[j])))
    case Ambiguous =>
      && (forall j: nat :: !Exact(options, key, j))
      && exists i: nat, j: nat ::
           Abbreviated(options, key, i) && Abbreviated(options, key, j) && !SameEffect(options[i], options[j])
    case Missing => forall j: nat :: !Abbreviated(options, key, j)
  }

  function FirstExact(options: seq<LongOption>, key: string, from: nat): (i: nat)
    requires from <= |options|
    ensures from <= i <= |options| && (i < |options| ==> Exact(options, key, i))
    ensures forall j: nat | from <= j < i :: !Exact(options, key, j)
    decreases |options| - from
  {
    if from == |options| || Exact(options, key, from) then from else FirstExact(options, key, from + 1)
  }

  function FirstAbbreviated(options: seq<LongOption>, key: string, from: nat): (i: nat)
    requires from <= |options|
    ensures from <= i <= |options| && (i < |options| ==> Abbreviated(options, key, i))
    ensures forall j: nat | from <= j < i :: !Abbreviated(options, key, j)
    decreases |options| - from
  {
    if from == |options| || Abbreviated(options, key, from) then from else FirstAbbreviated(options, key, from + 1)
  }

  function LookUp(options: seq<LongOption>, key: string): (r: Lookup)
    ensures IsLookup(options, key, r)
    ensures r.Found? ==> r.index < |options|
  {
    var e := FirstExact(options, key, 0);
    if e < |options| then Found(e) else
      var p := FirstAbbreviated(options, key, 0);
      if p == |options| then Missing
      else if exists j: nat :: p < j < |options| && Abbreviated(options, key, j)
                               && !SameEffect(options[p], options[j]) then Ambiguous
      else Found(p)
  }

  /** Only one answer is right. */
  lemma LookupUnique(options: seq<LongOption>, key: string, r: Lookup, s: Lookup)
    requires IsLookup(options, key, r) && IsLookup(options, key, s)
    ensures r == s
  {
    if r.Found? && s.Missing? {
      assert Abbreviated(options, key, r.index);
    } else if s.Found? && r.Missing? {
      assert Abbreviated(options, key, s.index);
    }
  }

  /** The report for a recognised long option. */
  function Accept(option: LongOption, index: nat, arg: Option<string>): Event {
    match option.flag
    case None => Event(option.val, arg, None, Some(index), None)
    case Some(f) => Event(0, arg, None, Some(index), Some((f, option.val)))
  }

  /** A word `--body`, followed on the command line by `next`. */
  function LongWord(t: Table, body: string, next: seq<string>): (w: Word)
    requires t.longopts.Some?
    ensures |w.events| == 1 && w.taken <= |next| && w.taken <= 1
  {
    var options := t.longopts.value;
    var n := IndexOf(body, '=');
    match LookUp(options, body[..n])
    case Ambiguous => Word([Complain('?' as int, 0)], 0)
    case Missing => Word([Complain('?' as int, 0)], 0)
    case Found(i) =>
      var option := options[i];
      if n < |body| then
        if option.hasArg != 0 then Word([Accept(option, i, Some(body[n + 1..]))], 0)
        else Word([Complain('?' as int, option.val)], 0)
      else if option.hasArg != 1 then Word([Accept(option, i, None)], 0)
      else if next == [] then Word([Complain(MissingCode(t.optstring), option.val)], 0)
      else Word([Accept(option, i, Some(next[0]))], 1)
  }

  // ----- whole command lines -----

  function ReadWord(t: Table, w: string, next: seq<string>): (r: Word)
    requires !IsOperand(w)
    ensures r.events != [] && r.taken <= |next| && r.taken <= 1
  {
    if IsLong(t, w) then LongWord(t, w[2..], next) else Cluster(t.optstring, w[1..], next)
  }

  /** The scan: what the arguments mean, read once from left to right. */
  function Scan(t: Table, args: seq<string>): Parsed
    decreases |args|, 1
  {
    if args == [] then Parsed([], [], [])
    else if args[0] == "--" then Parsed([], [args[0]], args[1..])
    else if IsOperand(args[0]) then
      match t.ordering
      case RequireOrder => Parsed([], [], args)
      case Permute =>
        var r := Scan(t, args[1..]);
        r.(operands := [args[0]] + r.operands)
      case ReturnInOrder =>
        var r := Scan(t, args[1..]);
        Parsed([Report(1, Some(args[0]))] + r.events, [args[0]] + r.consumed, r.operands)
    else AfterWord(t, ReadWord(t, args[0], args[1..]), args)
  }

  /** The scan of `args` when their first element has been read as `w`. */
  function AfterWord(t: Table, w: Word, args: seq<string>): Parsed
    requires 1 + w.taken <= |args|
    decreases |args|, 0
  {
    var n := 1 + w.taken;
    var r := Scan(t, args[n..]);
    Parsed(w.events + r.events, args[..n] + r.consumed, r.operands)
  }

  /** No argument is lost, duplicated or reordered within its class. */
  ghost predicate IsMerge(s: seq<string>, a: seq<string>, b: seq<string>)
    decreases |s|
  {
    if s == [] then a == [] && b == []
    else
      || (a != [] && a[0] == s[0] && IsMerge(s[1..], a[1..], b))
      || (b != [] && b[0] == s[0] && IsMerge(s[1..], a, b[1..]))
  }

  lemma {:induction false} MergeRight(s: seq<string>)
    ensures IsMerge(s, [], s)
  {
    if s != [] { MergeRight(s[1..]); }
  }

  lemma {:induction false} MergeLeft(p: seq<string>, s: seq<string>, a: seq<string>, b: seq<string>)
    requires IsMerge(s, a, b)
    ensures IsMerge(p + s, p + a, b)
  {
    if p == [] {
      assert p + s == s && p + a == a;
    } else {
      MergeLeft(p[1..], s, a, b);
      assert (p + s)[1..] == p[1..] + s && (p + a)[1..] == p[1..] + a;
    }
  }

  /** The scan is a stable partition: its two halves interleave to the arguments. */
  lemma {:induction false} ScanPartitions(t: Table, args: seq<string>)
    ensures var r := Scan(t, args); IsMerge(args, r.consumed, r.operands)
    decreases |args|
  {
    var r := Scan(t, args);
    if args == [] {
    } else if args[0] == "--" {
      MergeRight(args[1..]);
      MergeLeft([args[0]], args[1..], [], args[1..]);
      assert [args[0]] + args[1..] == args && [args[0]] + [] == r.consumed;
    } else if IsOperand(args[0]) {
      if t.ordering.RequireOrder? {
        MergeRight(args);
      } else {
        ScanPartitions(t, args[1..]);
        if t.ordering.ReturnInOrder? {
          var q := Scan(t, args[1..]);
          MergeLeft([args[0]], args[1..], q.consumed, q.operands);
          assert [args[0]] + args[1..] == args;
        } else {
          var q := Scan(t, args[1..]);
          assert r.operands[1..] == q.operands;
        }
      }
    } else {
      var n := 1 + ReadWord(t, args[0], args[1..]).taken;
      ScanPartitions(t, args[n..]);
      var q := Scan(t, args[n..]);
      MergeLeft(args[..n], args[n..], q.consumed, q.operands);
      assert args[..n] + args[n..] == args;
    }
  }

  // ----- bounds on the reports -----

  function Characters(args: seq<string>): nat {
    if args == [] then 0 else |args[0]| + Characters(args[1..])
  }

  lemma {:induction false} ClusterBound(optstring: string, chars: string, next: seq<string>)
    requires chars != ""
    ensures |Cluster(optstring, chars, next).events| <= |chars|
  {
    if |chars| > 1 { ClusterBound(optstring, chars[1..], next); }
  }

  /** Every report uses up at least one character or one element, so any caller's loop ends. */
  lemma {:induction false} ScanBound(t: Table, args: seq<string>)
    ensures |Scan(t, args).events| <= Characters(args) + |args|
    decreases |args|
  {
    if args == [] || args[0] == "--" || (IsOperand(args[0]) && t.ordering.RequireOrder?) {
    } else if IsOperand(args[0]) {
      ScanBound(t, args[1..]);
    } else {
      var w := ReadWord(t, args[0], args[1..]);
      if !IsLong(t, args[0]) { ClusterBound(t.optstring, args[0][1..], args[1..]); }
      ScanBound(t, args[1 + w.taken..]);
      if w.taken == 1 {
        assert args[1..][1..] == args[2..];
      }
    }
  }

  // ----- reports that look like the end -----

  ghost predicate Quiet(events: seq<Event>) {
    forall i :: 0 <= i < |events| ==> events[i].code != -1
  }

  /** Writing `--key` (or `--key=x`) on a command line selects a row that returns -1. */
  predicate ReturnsMinusOne(t: Table, key: string) {
    && t.longopts.Some? && '=' !in key
    && var r := LookUp(t.longopts.value, key);
       && r.Found?
       && var option := t.longopts.value[r.index];
          option.flag.None? && option.val == -1 && (key != "" || option.hasArg != 0)
  }

  lemma {:induction false} ClusterQuiet(optstring: string, chars: string, next: seq<string>)
    requires chars != ""
    ensures Quiet(Cluster(optstring, chars, next).events)
  {
    if |chars| > 1 { ClusterQuiet(optstring, chars[1..], next); }
  }

  lemma LongWordQuiet(t: Table, body: string, next: seq<string>)
    requires t.longopts.Some? && body != "" && !Quiet(LongWord(t, body, next).events)
    ensures exists key :: ReturnsMinusOne(t, key)
  {
    var key := body[..IndexOf(body, '=')];
    assert ReturnsMinusOne(t, key);
  }

  lemma {:induction false} ScanQuiet(t: Table, args: seq<string>)
    requires !exists key :: ReturnsMinusOne(t, key)
    ensures Quiet(Scan(t, args).events)
    decreases |args|
  {
    if args == [] || args[0] == "--" || (IsOperand(args[0]) && t.ordering.RequireOrder?) {
    } else if IsOperand(args[0]) {
      ScanQuiet(t, args[1..]);
    } else {
      var w := ReadWord(t, args[0], args[1..]);
      ScanQuiet(t, args[1 + w.taken..]);
      if IsLong(t, args[0]) {
        if !Quiet(w.events) { LongWordQuiet(t, args[0][2..], args[1..]); }
      } else {
        ClusterQuiet(t.optstring, args[0][1..], args[1..]);
      }
    }
  }

  lemma NotQuiet(t: Table, key: string) returns (args: seq<string>)
    requires ReturnsMinusOne(t, key)
    ensures !Quiet(Scan(t, args).events)
  {
    var option := t.longopts.value[LookUp(t.longopts.value, key).index];
    var body := if option.hasArg != 0 then key + "=x" else key;
    args := ["--" + body];
    assert ("--" + body)[2..] == body;
    if option.hasArg != 0 {
      assert body[..|key|] == key;
      IndexOfAt(body, '=', |key|);
    } else {
      assert body[..IndexOf(body, '=')] == key;
    }
    assert |args[0]| > 2 && args[1..] == [];
    assert Scan(t, args) == AfterWord(t, LongWord(t, body, []), args);
    assert Scan(t, args).events[0].code == -1;
  }

  /**
   A caller that stops at -1 sees every report of every command line exactly when no abbreviation selects
   a row with a NULL flag and the value -1.
   */
  lemma AlwaysQuiet(t: Table)
    ensures (forall args :: Quiet(Scan(t, args).events)) <==> !exists key :: ReturnsMinusOne(t, key)
  {
    if key :| ReturnsMinusOne(t, key) {
      var args := NotQuiet(t, key);
    } else {
      forall args {
        ScanQuiet(t, args);
      }
    }
  }
}
