/**
 getopt's permuting parser: the calls of externals/getopt/getopt.c on the byte-string
 (`_a`) variant, with long_only = 0.  Error messages go to stderr in the source and are
 left out, so opterr plays no part.
 */
module Getopt {
  import opened Wrappers
  import opened GetoptSpec
  import opened Text

  // ----- exchanging two adjacent blocks -----

  /** `s` with the blocks [b, m) and [m, t) in the opposite order. */
  function Rotated(s: seq<string>, b: nat, m: nat, t: nat): (r: seq<string>)
    requires b <= m <= t <= |s|
    ensures |r| == |s|
  {
    s[..b] + s[m..t] + s[b..m] + s[t..]
  }

  /** `r` is `s` with the equally long blocks at p and q swapped. */
  ghost predicate IsSwap(s: seq<string>, r: seq<string>, p: nat, q: nat, n: nat)
    requires p + n <= q && q + n <= |s|
  {
    && |r| == |s|
    && (forall k {:trigger r[k]} :: p <= k < p + n ==> r[k] == s[k - p + q])
    && (forall k {:trigger r[k]} :: q <= k < q + n ==> r[k] == s[k - q + p])
    && (forall k {:trigger r[k]} :: 0 <= k < |s| && !(p <= k < p + n) && !(q <= k < q + n) ==> r[k] == s[k])
  }

  /** Where the element at index `i` comes from. */
  lemma RotatedAt(s: seq<string>, b: nat, m: nat, t: nat, i: nat)
    requires b <= m <= t <= |s| && i < |s|
    ensures Rotated(s, b, m, t)[i]
         == s[if i < b || t <= i then i else if i < b + (t - m) then i - b + m else i - (t - m)]
  {
  }

  lemma RotateLongTail(s: seq<string>, r: seq<string>, b: nat, m: nat, t: nat)
    requires b <= m <= t <= |s| && m - b < t - m
    requires IsSwap(s, r, b, t - (m - b), m - b)
    ensures Rotated(r, b, m, t - (m - b)) == Rotated(s, b, m, t)
  {
    hide Rotated;
    var u := t - (m - b);
    forall i | 0 <= i < |s| ensures Rotated(r, b, m, u)[i] == Rotated(s, b, m, t)[i] {
      RotatedAt(r, b, m, u, i);
      RotatedAt(s, b, m, t, i);
    }
  }

  lemma RotateLongHead(s: seq<string>, r: seq<string>, b: nat, m: nat, t: nat)
    requires b <= m <= t <= |s| && t - m <= m - b
    requires IsSwap(s, r, b, m, t - m)
    ensures Rotated(r, b + (t - m), m, t) == Rotated(s, b, m, t)
  {
    hide Rotated;
    var c := b + (t - m);
    forall i | 0 <= i < |s| ensures Rotated(r, c, m, t)[i] == Rotated(s, b, m, t)[i] {
      RotatedAt(r, c, m, t, i);
      RotatedAt(s, b, m, t, i);
    }
  }

  lemma RotateDone(s: seq<string>, b: nat, m: nat, t: nat)
    requires b <= m <= t <= |s| && (b == m || m == t)
    ensures Rotated(s, b, m, t) == s
  {
  }

  method SwapBlocks(argv: array<string>, p: nat, q: nat, n: nat)
    requires p + n <= q && q + n <= argv.Length
    modifies argv
    ensures IsSwap(old(argv[..]), argv[..], p, q, n)
  {
    var i := 0;
    while i < n
      invariant i <= n
      invariant forall k :: p <= k < p + i ==> argv[k] == old(argv[k - p + q])
      invariant forall k :: q <= k < q + i ==> argv[k] == old(argv[k - q + p])
      invariant forall k :: 0 <= k < argv.Length && !(p <= k < p + i) && !(q <= k < q + i) ==> argv[k] == old(argv[k])
    {
      var tem := argv[p + i];
      argv[p + i] := argv[q + i];
      argv[q + i] := tem;
      i := i + 1;
    }
  }

  /** One round of the exchange: puts the shorter block in its final place. */
  method ExchangeStep(argv: array<string>, bottom: nat, middle: nat, top: nat) returns (b: nat, t: nat)
    requires bottom < middle < top <= argv.Length
    modifies argv
    ensures bottom <= b <= middle <= t <= top && t - b < top - bottom
    ensures Rotated(argv[..], b, middle, t) == Rotated(old(argv[..]), bottom, middle, top)
  {
    hide Rotated, IsSwap;
    ghost var s := argv[..];
    if top - middle > middle - bottom {
      var len := middle - bottom;
      b, t := bottom, top - len;
      SwapBlocks(argv, bottom, t, len);
      RotateLongTail(s, argv[..], bottom, middle, top);
    } else {
      var len := top - middle;
      b, t := bottom + len, top;
      SwapBlocks(argv, bottom, middle, len);
      RotateLongHead(s, argv[..], bottom, middle, top);
    }
  }

  // ----- long option lookup -----

  /** The single pass over the table, stopping at an exact name. */
  method FindLong(options: seq<LongOption>, key: string) returns (r: Lookup)
    ensures IsLookup(options, key, r)
    ensures r == LookUp(options, key)
  {
    var found: Option<nat> := None;
    var exact, ambiguous := false, false;
    var i := 0;
    while i < |options|
      invariant i <= |options| && !exact
      invariant forall j: nat | j < i :: !Exact(options, key, j)
      invariant found.None? ==> !ambiguous && forall j: nat | j < i :: !Abbreviated(options, key, j)
      invariant found.Some? ==>
                  && found.value < i && Abbreviated(options, key, found.value)
                  && forall j: nat | j < found.value :: !Abbreviated(options, key, j)
      invariant ambiguous ==> exists j: nat :: j < i && Abbreviated(options, key, j)
                                               && !SameEffect(options[found.value], options[j])
      invariant found.Some? && !ambiguous ==>
                  forall j: nat | j < i && Abbreviated(options, key, j) :: SameEffect(options[found.value], options[j])
    {
      if key <= options[i].name {
        if |key| == |options[i].name| {
          found, exact := Some(i), true;
          break;
        } else if found.None? {
          found := Some(i);
        } else if !SameEffect(options[found.value], options[i]) {
          ambiguous := true;
        }
      }
      i := i + 1;
    }
    r := if ambiguous && !exact then Ambiguous else if found.Some? then Found(found.value) else Missing;
    assert exact ==> Exact(options, key, i);
    LookupUnique(options, key, r, LookUp(options, key));
  }

  // ----- what a parser state stands for -----

  /** The scan of `args` when `pending` is still to be read from the word args[0]. */
  function Pending(t: Table, pending: string, args: seq<string>): Parsed
    requires pending != "" ==> args != []
  {
    if pending == "" then Scan(t, args)
    else AfterWord(t, Cluster(t.optstring, pending, args[1..]), args)
  }

  /**
   What is still to come in a state where argv[first..last) are the operands met so far and everything
   else before optind has been used up.
   */
  function View(t: Table, argv: seq<string>, first: nat, last: nat, optind: nat, pending: string): Parsed
    requires first <= last <= optind <= |argv|
    requires pending != "" ==> optind < |argv|
  {
    var p := Pending(t, pending, argv[optind..]);
    Parsed(p.events, argv[..first] + argv[last..optind] + p.consumed, argv[first..last] + p.operands)
  }

  lemma ViewAfterExchange(t: Table, argv: seq<string>, first: nat, last: nat, optind: nat)
    requires first <= last <= optind <= |argv|
    ensures View(t, Rotated(argv, first, last, optind), first + (optind - last), optind, optind, "")
         == View(t, argv, first, last, optind, "")
  {
    var r := Rotated(argv, first, last, optind);
    var f := first + (optind - last);
    assert r[optind..] == argv[optind..];
    assert r[..f] + r[optind..optind] == argv[..first] + argv[last..optind];
    assert r[f..optind] == argv[first..last];
  }

  lemma ViewAfterOperand(t: Table, argv: seq<string>, first: nat, optind: nat)
    requires t.ordering.Permute? && first <= optind < |argv| && IsOperand(argv[optind])
    ensures View(t, argv, first, optind + 1, optind + 1, "") == View(t, argv, first, optind, optind, "")
  {
    var args := argv[optind..];
    assert args[1..] == argv[optind + 1..];
    assert argv[first..optind + 1] == argv[first..optind] + [args[0]];
    assert argv[..first] + argv[optind + 1..optind + 1] == argv[..first] + argv[optind..optind];
    var p := Scan(t, args[1..]);
    assert argv[first..optind + 1] + p.operands == argv[first..optind] + ([args[0]] + p.operands);
  }

  /** Reading one report `e` out of the word at optind, which then ends and takes `taken` more elements. */
  lemma {:induction false} ViewAfterWord(t: Table, argv: seq<string>, first: nat, last: nat, optind: nat,
                                         pending: string, w: Word)
    requires first <= last <= optind < |argv| && |w.events| == 1 && optind + 1 + w.taken <= |argv|
    requires Pending(t, pending, argv[optind..]) == AfterWord(t, w, argv[optind..])
    ensures View(t, argv, first, last, optind, pending)
         == View(t, argv, first, last, optind + 1 + w.taken, "").Prepend(w.events[0])
  {
    hide Scan;
    var n := 1 + w.taken;
    var args := argv[optind..];
    assert args[n..] == argv[optind + n..];
    assert argv[last..optind + n] == argv[last..optind] + args[..n];
    Assoc(argv[..first], argv[last..optind], args[..n]);
    Assoc(argv[..first] + argv[last..optind], args[..n], Scan(t, args[n..]).consumed);
    assert w.events == [w.events[0]];
  }

  lemma {:induction false} AfterWordPrepend(t: Table, e: Event, w: Word, args: seq<string>)
    requires 1 + w.taken <= |args|
    ensures AfterWord(t, Word([e] + w.events, w.taken), args) == AfterWord(t, w, args).Prepend(e)
  {
    var p := Scan(t, args[1 + w.taken..]);
    assert ([e] + w.events) + p.events == [e] + (w.events + p.events);
  }

  /** Reading one report out of a cluster that goes on. */
  lemma ViewAfterChar(t: Table, argv: seq<string>, first: nat, last: nat, optind: nat, pending: string, e: Event)
    requires first <= last <= optind < |argv| && 2 <= |pending|
    requires Pending(t, pending, argv[optind..]) == Pending(t, pending[1..], argv[optind..]).Prepend(e)
    ensures View(t, argv, first, last, optind, pending)
         == View(t, argv, first, last, optind, pending[1..]).Prepend(e)
  {
  }

  lemma ViewAtShortWord(t: Table, argv: seq<string>, first: nat, last: nat, optind: nat)
    requires first <= last <= optind < |argv| && !IsOperand(argv[optind]) && argv[optind] != "--"
    requires !IsLong(t, argv[optind])
    ensures View(t, argv, first, last, optind, "") == View(t, argv, first, last, optind, argv[optind][1..])
  {
    assert argv[optind..][0] == argv[optind];
  }

  lemma ViewAtLongWord(t: Table, argv: seq<string>, first: nat, last: nat, optind: nat)
    requires first <= last <= optind < |argv| && !IsOperand(argv[optind]) && argv[optind] != "--"
    requires IsLong(t, argv[optind])
    ensures var w := LongWord(t, argv[optind][2..], argv[optind + 1..]);
      View(t, argv, first, last, optind, "")
      == View(t, argv, first, last, optind + 1 + w.taken, "").Prepend(w.events[0])
  {
    var args := argv[optind..];
    assert args[0] == argv[optind] && args[1..] == argv[optind + 1..];
    ViewAfterWord(t, argv, first, last, optind, "", LongWord(t, argv[optind][2..], argv[optind + 1..]));
  }

  lemma ViewAtEnd(t: Table, argv: seq<string>, first: nat)
    requires first <= |argv|
    ensures View(t, argv, first, |argv|, |argv|, "") == Parsed([], argv[..first], argv[first..])
  {
    assert argv[|argv|..] == [];
  }

  lemma ViewAllRead(t: Table, argv: seq<string>, first: nat, last: nat)
    requires first <= last <= |argv| && (first == last || last == |argv|)
    ensures var f := if first == last then |argv| else first;
      View(t, argv, first, last, |argv|, "") == Parsed([], argv[..f], argv[f..])
  {
    hide View;
    if first == last { ViewInOrder(t, argv, first, last, |argv|); }
    ViewAtEnd(t, argv, if first == last then |argv| else first);
  }

  /** At `--`: the operands met so far have just been moved behind it, or there are none. */
  lemma ViewAtDashes(t: Table, argv: seq<string>, first: nat, optind: nat)
    requires first <= optind < |argv| && argv[optind] == "--"
    ensures View(t, argv, first, optind, optind, "")
         == Parsed([], argv[..first] + ["--"], argv[first..optind] + argv[optind + 1..])
  {
    var args := argv[optind..];
    assert args[0] == "--" && args[1..] == argv[optind + 1..];
    assert argv[..first] + argv[optind..optind] + ["--"] == argv[..first] + ["--"];
  }

  lemma RotatedAtDashes(argv: seq<string>, first: nat, optind: nat)
    requires first <= optind < |argv| && argv[optind] == "--"
    ensures var r := Rotated(argv, first, optind, optind + 1);
      r[..first + 1] == argv[..first] + ["--"] && r[first + 1..] == argv[first..optind] + argv[optind + 1..]
  {
  }

  /** What `--` comes to, once it has changed places with the operands before it. */
  lemma ViewDashesMoved(t: Table, argv: seq<string>, first: nat, last: nat, optind: nat)
    requires first <= last <= optind < |argv| && argv[optind] == "--" && (first == last || last == optind)
    ensures var r := if first == last then argv else Rotated(argv, first, last, optind + 1);
      var f := if first == last then optind + 1 else first + 1;
      View(t, argv, first, last, optind, "") == Parsed([], r[..f], r[f..])
  {
    hide View, Rotated;
    if first == last {
      ViewInOrder(t, argv, first, last, optind);
      ViewAtDashes(t, argv, optind, optind);
      assert argv[..optind] + ["--"] == argv[..optind + 1];
      assert argv[optind..optind] + argv[optind + 1..] == argv[optind + 1..];
    } else {
      ViewAtDashes(t, argv, first, optind);
      RotatedAtDashes(argv, first, optind);
    }
  }

  lemma ViewInOrder(t: Table, argv: seq<string>, first: nat, last: nat, optind: nat)
    requires first == last <= optind <= |argv|
    ensures View(t, argv, first, last, optind, "") == View(t, argv, optind, optind, optind, "")
  {
    assert argv[..first] + argv[last..optind] == argv[..optind] + argv[optind..optind];
    assert argv[first..last] == argv[optind..optind];
  }

  lemma {:induction false} ViewAtStart(t: Table, argv: seq<string>, k: nat)
    requires k <= |argv|
    ensures var p := Scan(t, argv[k..]);
      View(t, argv, k, k, k, "") == Parsed(p.events, argv[..k] + p.consumed, p.operands)
  {
    assert argv[..k] + argv[k..k] == argv[..k];
  }

  lemma ViewAtOperand(t: Table, argv: seq<string>, first: nat, last: nat, optind: nat)
    requires first == last <= optind < |argv| && IsOperand(argv[optind]) && !t.ordering.Permute?
    ensures t.ordering.RequireOrder? ==>
      View(t, argv, first, last, optind, "") == Parsed([], argv[..optind], argv[optind..])
    ensures t.ordering.ReturnInOrder? ==>
      View(t, argv, first, last, optind, "")
      == View(t, argv, first, last, optind + 1, "").Prepend(Report(1, Some(argv[optind])))
  {
    hide View, Scan;
    ViewInOrder(t, argv, first, last, optind);
    ViewInOrder(t, argv, first, last, optind + 1);
    ViewAtStart(t, argv, optind);
    ViewAtStart(t, argv, optind + 1);
    var args := argv[optind..];
    assert args[0] == argv[optind] && args[1..] == argv[optind + 1..];
    ScanOperand(t, args);
    assert argv[..optind + 1] == argv[..optind] + [args[0]] && argv[..optind] + [] == argv[..optind];
    Assoc(argv[..optind], [args[0]], Scan(t, args[1..]).consumed);
  }

  lemma {:induction false} ScanOperand(t: Table, args: seq<string>)
    requires args != [] && IsOperand(args[0]) && !t.ordering.Permute?
    ensures var r := Scan(t, args[1..]);
      Scan(t, args) ==
      if t.ordering.RequireOrder? then Parsed([], [], args)
      else Parsed([Report(1, Some(args[0]))] + r.events, [args[0]] + r.consumed, r.operands)
  {
  }

  /** How the search for the next option word ends: nothing left, an operand to report, or a word to read. */
  datatype Seek = AtEnd | AtOperand | AtWord

  // ----- the parser -----

  class GetoptData {
    var optind: int
    var optopt: int
    var optarg: Option<string>
    var initialized: bool
    var nextchar: string          // "" stands for NULL as well as for a pointer to the terminator
    var ordering: Ordering
    var firstNonopt: int
    var lastNonopt: int
    var longind: Option<nat>      // the caller's *longind
    var flags: map<nat, int>      // the variables that long options may set

    constructor ()
      ensures !initialized && optind == 1 && flags == map[]
    {
      optind, optopt, optarg := 1, '?' as int, None;
      initialized, nextchar, ordering := false, "", Permute;
      firstNonopt, lastNonopt, longind, flags := 0, 0, None, map[];
    }

    predicate Fresh()
      reads this
    {
      optind == 0 || !initialized
    }

    function Start(): int
      reads this
    {
      if optind == 0 then 1 else optind
    }

    /** The option table this and later calls go by. */
    function TableOf(optstring: string, longopts: Option<seq<LongOption>>, posixlyCorrect: bool): Table
      reads this
    {
      Table(StripSign(optstring), longopts, if Fresh() then OrderingOf(optstring, posixlyCorrect) else ordering)
    }

    function First(): int
      reads this
    {
      if firstNonopt > optind then optind else firstNonopt
    }

    function Last(): int
      reads this
    {
      if lastNonopt > optind then optind else lastNonopt
    }

    /** Between the first call and the first -1, every index stays in order and inside argv. */
    ghost predicate Ready(argv: array<string>, t: Table)
      reads this, argv
    {
      && initialized
      && 1 <= firstNonopt <= lastNonopt <= optind <= argv.Length
      && ordering == t.ordering && (!ordering.Permute? ==> firstNonopt == lastNonopt)
      && (nextchar != "" ==> optind < argv.Length && !IsOperand(argv[optind]) && !IsLong(t, argv[optind]))
    }

    /** What a call needs: a fresh start, a ready state, or a state where optind was moved back between words. */
    ghost predicate Valid(argv: array<string>, t: Table)
      reads this, argv
    {
      if Fresh() then 1 <= Start() <= argv.Length
      else
        && 1 <= firstNonopt <= lastNonopt && 1 <= optind <= argv.Length
        && ordering == t.ordering && (!ordering.Permute? ==> First() == Last())
        && (nextchar != "" ==> Ready(argv, t))
    }

    /** What the calls from here on come to. */
    ghost function Outlook(argv: array<string>, t: Table): Parsed
      requires Valid(argv, t)
      reads this, argv
    {
      if Fresh() then View(t, argv[..], Start(), Start(), Start(), "")
      else View(t, argv[..], First(), Last(), optind, nextchar)
    }

    /** Puts the used-up elements after the operands in front of them. */
    method Exchange(argv: array<string>)
      requires 0 <= firstNonopt <= lastNonopt <= optind <= argv.Length
      modifies argv, `firstNonopt, `lastNonopt
      ensures argv[..] == Rotated(old(argv[..]), old(firstNonopt), old(lastNonopt), optind)
      ensures firstNonopt == old(firstNonopt) + (optind - old(lastNonopt)) && lastNonopt == optind
    {
      var bottom, middle, top := firstNonopt, lastNonopt, optind;
      ghost var goal := Rotated(argv[..], firstNonopt, lastNonopt, optind);
      while top > middle && middle > bottom
        invariant 0 <= bottom <= middle <= top <= argv.Length
        invariant firstNonopt == old(firstNonopt) && lastNonopt == old(lastNonopt)
        invariant Rotated(argv[..], bottom, middle, top) == goal
        decreases top - bottom
      {
        bottom, top := ExchangeStep(argv, bottom, middle, top);
      }
      RotateDone(argv[..], bottom, middle, top);
      firstNonopt := firstNonopt + (optind - lastNonopt);
      lastNonopt := optind;
    }

    method Initialize(optstring: string, posixlyCorrect: bool)
      modifies this
      ensures initialized && optind == old(optind) && firstNonopt == lastNonopt == optind && nextchar == ""
      ensures ordering == OrderingOf(optstring, posixlyCorrect)
      ensures unchanged(`optopt) && unchanged(`optarg) && unchanged(`longind) && unchanged(`flags)
    {
      firstNonopt, lastNonopt := optind, optind;
      nextchar := "";
      if optstring != "" && optstring[0] == '-' {
        ordering := ReturnInOrder;
      } else if optstring != "" && optstring[0] == '+' {
        ordering := RequireOrder;
      } else if posixlyCorrect {
        ordering := RequireOrder;
      } else {
        ordering := Permute;
      }
      initialized := true;
    }

    /** Moves the used-up elements forward and skips the operands that follow. */
    method SkipOperands(argv: array<string>, ghost t: Table)
      requires Ready(argv, t) && nextchar == "" && ordering.Permute?
      modifies argv, `optind, `firstNonopt, `lastNonopt
      ensures Ready(argv, t) && lastNonopt == optind
      ensures optind < argv.Length ==> !IsOperand(argv[optind])
      ensures View(t, argv[..], firstNonopt, lastNonopt, optind, "")
           == old(View(t, argv[..], firstNonopt, lastNonopt, optind, ""))
    {
      hide View;
      if firstNonopt != lastNonopt && lastNonopt != optind {
        ViewAfterExchange(t, argv[..], firstNonopt, lastNonopt, optind);
        Exchange(argv);
      } else if lastNonopt != optind {
        ViewInOrder(t, argv[..], firstNonopt, lastNonopt, optind);
        firstNonopt := optind;
      }
      ghost var v := old(View(t, argv[..], firstNonopt, lastNonopt, optind, ""));
      while optind < argv.Length && (argv[optind] == "" || argv[optind][0] != '-' || |argv[optind]| == 1)
        invariant 1 <= firstNonopt <= optind <= argv.Length
        invariant View(t, argv[..], firstNonopt, optind, optind, "") == v
      {
        ViewAfterOperand(t, argv[..], firstNonopt, optind);
        optind := optind + 1;
      }
      lastNonopt := optind;
    }

    /** `--`: everything after it is an operand. */
    method EndAtDashes(argv: array<string>, ghost t: Table)
      requires Ready(argv, t) && nextchar == "" && optind < argv.Length && argv[optind] == "--"
      requires firstNonopt == lastNonopt || lastNonopt == optind
      modifies argv, `optind, `firstNonopt, `lastNonopt
      ensures optind == lastNonopt == argv.Length && 1 <= firstNonopt <= lastNonopt
      ensures old(View(t, argv[..], firstNonopt, lastNonopt, optind, ""))
           == Parsed([], argv[..firstNonopt], argv[firstNonopt..])
    {
      hide View, Rotated;
      ViewDashesMoved(t, argv[..], firstNonopt, lastNonopt, optind);
      optind := optind + 1;
      if firstNonopt != lastNonopt && lastNonopt != optind {
        Exchange(argv);
      } else if firstNonopt == lastNonopt {
        firstNonopt := optind;
      }
      lastNonopt := argv.Length;
      optind := argv.Length;
    }

    /** optind may have been moved back between words. */
    method ClampNonopts(argv: array<string>, ghost t: Table)
      requires !Fresh() && Valid(argv, t) && nextchar == ""
      modifies `firstNonopt, `lastNonopt
      ensures Ready(argv, t)
      ensures View(t, argv[..], firstNonopt, lastNonopt, optind, "") == old(Outlook(argv, t))
    {
      hide View;
      if lastNonopt > optind { lastNonopt := optind; }
      if firstNonopt > optind { firstNonopt := optind; }
    }

    /** Finds the next element to report, between words. */
    method FindWord(argv: array<string>, t: Table) returns (r: Seek)
      requires !Fresh() && Valid(argv, t) && nextchar == ""
      modifies this, argv
      ensures !Fresh() && nextchar == ""
      ensures unchanged(`optopt) && unchanged(`longind) && unchanged(`flags)
      ensures Valid(argv, t) && (!r.AtEnd? ==> Ready(argv, t))
      ensures r.AtEnd? ==> old(Outlook(argv, t)) == Parsed([], argv[..optind], argv[optind..])
      ensures r.AtOperand? ==> optarg.Some? && old(Outlook(argv, t)) == Outlook(argv, t).Prepend(Report(1, optarg))
      ensures r.AtWord? ==> old(Outlook(argv, t)) == Outlook(argv, t)
      ensures r.AtWord? ==> optind < argv.Length && !IsOperand(argv[optind]) && argv[optind] != "--"
      ensures !r.AtOperand? ==> optarg == old(optarg)
    {
      hide View;
      ClampNonopts(argv, t);
      if ordering.Permute? {
        SkipOperands(argv, t);
      }
      if optind != argv.Length && argv[optind] == "--" {
        EndAtDashes(argv, t);
        if firstNonopt != lastNonopt { optind := firstNonopt; }
        return AtEnd;
      }
      if optind == argv.Length {
        ViewAllRead(t, argv[..], firstNonopt, lastNonopt);
        if firstNonopt != lastNonopt { optind := firstNonopt; }
        return AtEnd;
      }
      if argv[optind] == "" || argv[optind][0] != '-' || |argv[optind]| == 1 {
        ViewAtOperand(t, argv[..], firstNonopt, lastNonopt, optind);
        if ordering.RequireOrder? { return AtEnd; }
        optarg := Some(argv[optind]);
        optind := optind + 1;
        return AtOperand;
      }
      return AtWord;
    }

    /** Reads a word `--body`, all at once. */
    method TakeLong(argv: array<string>, t: Table) returns (code: int, ghost e: Event)
      requires t.longopts.Some? && 0 <= optind < argv.Length && optarg == None
      modifies `optind, `optopt, `optarg, `nextchar, `longind, `flags
      ensures var w := LongWord(t, old(nextchar), argv[old(optind) + 1..]);
        e == w.events[0] && optind == old(optind) + 1 + w.taken
      ensures nextchar == ""
      ensures Reported(e, code, old(optopt), old(longind), old(flags))
    {
      hide IsLookup, LookUp;
      e := LongWord(t, nextchar, argv[optind + 1..]).events[0];
      var nameend := 0;
      while nameend < |nextchar| && nextchar[nameend] != '='
        invariant nameend <= IndexOf(nextchar, '=')
      {
        nameend := nameend + 1;
      }
      var found := FindLong(t.longopts.value, nextchar[..nameend]);
      match found {
        case Ambiguous =>
          nextchar := "";
          optind := optind + 1;
          optopt := 0;
          return '?' as int, e;
        case Missing =>
          nextchar := "";
          optind := optind + 1;
          optopt := 0;
          return '?' as int, e;
        case Found(i) =>
          var option := t.longopts.value[i];
          optind := optind + 1;
          if nameend < |nextchar| {
            if option.hasArg != 0 {
              optarg := Some(nextchar[nameend + 1..]);
            } else {
              nextchar := "";
              optopt := option.val;
              return '?' as int, e;
            }
          } else if option.hasArg == 1 {
            if optind < argv.Length {
              optarg := Some(argv[optind]);
              optind := optind + 1;
            } else {
              nextchar := "";
              optopt := option.val;
              return MissingCode(t.optstring), e;
            }
          }
          nextchar := "";
          longind := Some(i);
          if option.flag.Some? {
            flags := flags[option.flag.value := option.val];
            return 0, e;
          }
          return option.val, e;
      }
    }

    /** Reads the next character of a cluster, and its argument if it takes one. */
    method TakeShort(argv: array<string>, t: Table) returns (code: int, ghost e: Event)
      requires 0 <= optind < argv.Length && nextchar != "" && optarg == None
      modifies `optind, `optopt, `optarg, `nextchar
      ensures var next := argv[old(optind) + 1..];
        var w := Cluster(t.optstring, old(nextchar), next);
        && e == w.events[0]
        && (nextchar == "" ==> |w.events| == 1 && optind == old(optind) + 1 + w.taken)
        && (nextchar != "" ==> nextchar == old(nextchar)[1..] && optind == old(optind))
        && (nextchar != "" ==> var v := Cluster(t.optstring, nextchar, next); w == Word([e] + v.events, v.taken))
      ensures Reported(e, code, old(optopt), longind, flags)
    {
      e := Cluster(t.optstring, nextchar, argv[optind + 1..]).events[0];
      var c := nextchar[0];
      nextchar := nextchar[1..];
      var temp := 0;
      while temp < |t.optstring| && t.optstring[temp] != c
        invariant temp <= IndexOf(t.optstring, c)
      {
        temp := temp + 1;
      }
      if nextchar == "" { optind := optind + 1; }
      if temp == |t.optstring| || c == ':' || c == ';' {
        optopt := c as int;
        return '?' as int, e;
      }
      code := c as int;
      if temp + 1 < |t.optstring| && t.optstring[temp + 1] == ':' {
        if temp + 2 < |t.optstring| && t.optstring[temp + 2] == ':' {
          if nextchar != "" {
            optarg := Some(nextchar);
            optind := optind + 1;
          } else {
            optarg := None;
          }
          nextchar := "";
        } else {
          if nextchar != "" {
            optarg := Some(nextchar);
            optind := optind + 1;
          } else if optind == argv.Length {
            optopt := c as int;
            code := MissingCode(t.optstring);
          } else {
            optarg := Some(argv[optind]);
            optind := optind + 1;
          }
          nextchar := "";
        }
      }
    }

    /**
     One call.  `e` is None exactly when the scan is over; a caller only sees `code`, which is also -1
     for a long option whose value is -1.
     */
    method Next(argv: array<string>, optstring: string, longopts: Option<seq<LongOption>>, posixlyCorrect: bool)
      returns (code: int, ghost e: Option<Event>)
      requires !UsesW(StripSign(optstring))
      requires argv.Length > 0 ==> Valid(argv, TableOf(optstring, longopts, posixlyCorrect))
      modifies this, argv
      ensures argv.Length == 0 ==> code == -1 && e == None && unchanged(this) && unchanged(argv)
      ensures argv.Length > 0 ==>
        var t := old(TableOf(optstring, longopts, posixlyCorrect));
        && !Fresh() && t == TableOf(optstring, longopts, posixlyCorrect) && Valid(argv, t)
        && (e.None? ==>
              && code == -1 && nextchar == ""
              && unchanged(`optopt) && unchanged(`longind) && unchanged(`flags) && optarg == None
              && old(Outlook(argv, t)) == Parsed([], argv[..optind], argv[optind..]))
        && (e.Some? ==>
              && Ready(argv, t)
              && Reported(e.value, code, old(optopt), old(longind), old(flags))
              && old(Outlook(argv, t)) == Outlook(argv, t).Prepend(e.value))
    {
      hide View;
      if argv.Length < 1 { return -1, None; }
      var t := Begin(argv, optstring, longopts, posixlyCorrect);
      if nextchar == "" {
        var at := FindWord(argv, t);
        if at.AtEnd? { return -1, None; }
        if at.AtOperand? { return 1, Some(Report(1, optarg)); }
        if longopts.Some? && argv[optind][1] == '-' {
          code, e := NextLong(argv, t);
          return;
        }
        ViewAtShortWord(t, argv[..], firstNonopt, lastNonopt, optind);
        nextchar := argv[optind][1..];
      }
      code, e := NextShort(argv, t);
    }

    /** The start of every call: first-time initialisation and the ordering sign of optstring. */
    method Begin(argv: array<string>, optstring: string, longopts: Option<seq<LongOption>>, posixlyCorrect: bool)
      returns (t: Table)
      requires Valid(argv, TableOf(optstring, longopts, posixlyCorrect))
      modifies this
      ensures t == old(TableOf(optstring, longopts, posixlyCorrect)) == TableOf(optstring, longopts, posixlyCorrect)
      ensures !Fresh() && Valid(argv, t) && Outlook(argv, t) == old(Outlook(argv, t))
      ensures optarg == None && unchanged(`optopt) && unchanged(`longind) && unchanged(`flags)
    {
      hide View;
      optarg := None;
      if optind == 0 || !initialized {
        if optind == 0 { optind := 1; }
        Initialize(optstring, posixlyCorrect);
      }
      var stripped := optstring;
      if optstring != "" && (optstring[0] == '-' || optstring[0] == '+') {
        stripped := optstring[1..];
      }
      t := Table(stripped, longopts, ordering);
    }

    method NextLong(argv: array<string>, t: Table) returns (code: int, ghost e: Option<Event>)
      requires Ready(argv, t) && nextchar == "" && optarg == None
      requires optind < argv.Length && !IsOperand(argv[optind]) && argv[optind] != "--" && IsLong(t, argv[optind])
      modifies this
      ensures e.Some? && Ready(argv, t) && Reported(e.value, code, old(optopt), old(longind), old(flags))
      ensures old(Outlook(argv, t)) == Outlook(argv, t).Prepend(e.value)
    {
      hide View;
      ViewAtLongWord(t, argv[..], firstNonopt, lastNonopt, optind);
      nextchar := argv[optind][2..];
      ghost var ev;
      code, ev := TakeLong(argv, t);
      e := Some(ev);
    }

    method NextShort(argv: array<string>, t: Table) returns (code: int, ghost e: Option<Event>)
      requires Ready(argv, t) && nextchar != "" && optarg == None
      modifies this
      ensures e.Some? && Ready(argv, t) && Reported(e.value, code, old(optopt), old(longind), old(flags))
      ensures old(Outlook(argv, t)) == Outlook(argv, t).Prepend(e.value)
    {
      hide View;
      ghost var s, o, p := argv[..], optind, nextchar;
      ghost var w := Cluster(t.optstring, p, s[o + 1..]);
      assert s[o..][1..] == s[o + 1..];
      assert Pending(t, p, s[o..]) == AfterWord(t, w, s[o..]);
      ghost var ev;
      code, ev := TakeShort(argv, t);
      e := Some(ev);
      if nextchar == "" {
        ViewAfterWord(t, s, firstNonopt, lastNonopt, o, p, w);
      } else {
        AfterWordPrepend(t, ev, Cluster(t.optstring, nextchar, s[o + 1..]), s[o..]);
        ViewAfterChar(t, s, firstNonopt, lastNonopt, o, p, ev);
      }
    }

    function Left(): Traces
      reads this
    {
      Traces(optopt, longind, flags)
    }

    /** The result, optarg, optopt, *longind and the flag variables are as `e` says. */
    ghost predicate Reported(e: Event, code: int, optopt0: int, longind0: Option<nat>, flags0: map<nat, int>)
      reads this
    {
      && e.code == code
      && optarg == e.arg
      && optopt == e.optopt.GetOr(optopt0)
      && longind == (if e.longIndex.Some? then e.longIndex else longind0)
      && flags == (if e.store.Some? then flags0[e.store.value.0 := e.store.value.1] else flags0)
    }
  }

  // ----- a caller's loop -----

  /** What a caller that stops at -1 gets to see of `events`. */
  function Seen(events: seq<Event>): seq<(int, Option<string>)> {
    if events == [] || events[0].code == -1 then []
    else [(events[0].code, events[0].arg)] + Seen(events[1..])
  }

  /** What calls leave behind besides their results: optopt, *longind and the variables that flags point to. */
  datatype Traces = Traces(optopt: int, longind: Option<nat>, flags: map<nat, int>) {
    function With(e: Event): Traces {
      Traces(e.optopt.GetOr(optopt), if e.longIndex.Some? then e.longIndex else longind,
             if e.store.Some? then flags[e.store.value.0 := e.store.value.1] else flags)
    }
  }

  /** What all of them leave behind for a caller that stops at -1. */
  function TracesOf(events: seq<Event>, before: Traces): Traces {
    if events == [] then before
    else if events[0].code == -1 then before.With(events[0])
    else TracesOf(events[1..], before.With(events[0]))
  }

  lemma {:induction false} TracesStep(e: Event, events: seq<Event>, before: Traces)
    ensures TracesOf([], before) == before
    ensures TracesOf([e] + events, before)
         == if e.code == -1 then before.With(e) else TracesOf(events, before.With(e))
  {
    assert ([e] + events)[1..] == events;
  }

  lemma {:induction false} SeenStep(e: Event, events: seq<Event>)
    ensures Seen([]) == [] && Seen([e] + events) == if e.code == -1 then [] else [(e.code, e.arg)] + Seen(events)
    ensures Quiet([e] + events) ==> e.code != -1 && Quiet(events)
  {
    assert ([e] + events)[1..] == events;
    forall i | Quiet([e] + events) && 0 <= i < |events| ensures events[i].code != -1 {
      assert events[i] == ([e] + events)[i + 1];
    }
  }

  /**
   The usual loop: call until -1.  The reports, and what else the calls leave behind, are those of the plain scan of the
   original arguments, and at the end argv holds the used-up elements in their original order, then, from optind, the
   operands in theirs.
   */
  method ParseAll(d: GetoptData, argv: array<string>, optstring: string, longopts: Option<seq<LongOption>>,
                  posixlyCorrect: bool) returns (reports: seq<(int, Option<string>)>)
    requires !UsesW(StripSign(optstring))
    requires d.Fresh() && 1 <= d.Start() <= argv.Length
    modifies d, argv
    ensures var t := Table(StripSign(optstring), longopts, OrderingOf(optstring, posixlyCorrect));
      var k := if old(d.optind) == 0 then 1 else old(d.optind);
      var p := Scan(t, old(argv[k..]));
      && reports == Seen(p.events)
      && d.Left() == TracesOf(p.events, old(d.Left()))
      && IsMerge(old(argv[k..]), p.consumed, p.operands)
      && (Quiet(p.events) ==>
            && 1 <= d.optind <= argv.Length
            && argv[..d.optind] == old(argv[..k]) + p.consumed
            && argv[d.optind..] == p.operands)
  {
    hide View, Scan, IsMerge, Seen, Quiet, TracesOf;
    SeenStep(Report(0, None), []);
    ghost var t := d.TableOf(optstring, longopts, posixlyCorrect);
    ghost var k := d.Start();
    ghost var goal := d.Outlook(argv, t);
    ScanPartitions(t, argv[k..]);
    ViewAtStart(t, argv[..], k);
    reports := [];
    ghost var left := goal;
    while true
      invariant d.Valid(argv, t) && t == d.TableOf(optstring, longopts, posixlyCorrect)
      invariant left == d.Outlook(argv, t)
      invariant left.consumed == goal.consumed && left.operands == goal.operands
      invariant reports + Seen(left.events) == Seen(goal.events)
      invariant Quiet(goal.events) ==> Quiet(left.events)
      invariant TracesOf(left.events, d.Left()) == TracesOf(goal.events, old(d.Left()))
      decreases |left.events|
    {
      ghost var e;
      ghost var before := d.Left();
      TracesStep(Report(0, None), [], before);
      var code;
      code, e := d.Next(argv, optstring, longopts, posixlyCorrect);
      if e.Some? {
        SeenStep(e.value, d.Outlook(argv, t).events);
        TracesStep(e.value, d.Outlook(argv, t).events, before);
        assert d.Left() == before.With(e.value);
      }
      if code == -1 { return; }
      reports := reports + [(code, d.optarg)];
      left := d.Outlook(argv, t);
    }
  }
}
