/**
 Every command line by the way it is written, and what it then reports: option settings spelled in clusters, with
 attached or separate arguments, as long options and their abbreviations, among operands, with mistakes.  What an option
 takes is read off the characters of optstring and the rows of the table of externals/getopt/getopt.c.
 */
module GetoptForms {
  import opened GetoptSpec
  import opened Text
  import opened Wrappers

  // ----- what optstring says about a character -----

  /** `c` is declared at index i of optstring: there first, and colons and semicolons never are. */
  ghost predicate IsDeclared(optstring: string, c: char, i: nat) {
    i < |optstring| && optstring[i] == c && c != ':' && c != ';' && forall j :: 0 <= j < i ==> optstring[j] != c
  }

  predicate ColonAt(optstring: string, i: nat) {
    i < |optstring| && optstring[i] == ':'
  }

  ghost predicate TakesNone(optstring: string, c: char) {
    exists i: nat :: IsDeclared(optstring, c, i) && !ColonAt(optstring, i + 1)
  }

  ghost predicate Requires(optstring: string, c: char) {
    exists i: nat :: IsDeclared(optstring, c, i) && ColonAt(optstring, i + 1) && !ColonAt(optstring, i + 2)
  }

  ghost predicate MayTake(optstring: string, c: char) {
    exists i: nat :: IsDeclared(optstring, c, i) && ColonAt(optstring, i + 1) && ColonAt(optstring, i + 2)
  }

  predicate IsUndeclared(optstring: string, c: char) {
    c == ':' || c == ';' || c !in optstring
  }

  // ----- command lines -----

  /** How a word of short options ends: with a flag, or with an option that may have an argument. */
  datatype Last = Ends | Attached(c: char, arg: string) | Separate(c: char, arg: string) | Bare(c: char)

  datatype Argument = NoArgument | WithEquals(arg: string) | InNext(arg: string)

  datatype Item =
    | Short(flags: string, last: Last)
    | Long(key: string, found: Lookup, arg: Argument)
    | Operand(word: string)

  /** How a command line ends: just so, with `--`, at the first operand, or with an option that lacks its argument. */
  datatype End =
    | Nothing
    | Dashes(rest: seq<string>)
    | Stop(rest: seq<string>)
    | ShortLacks(flags: string, c: char)
    | LongLacks(key: string, index: nat)

  function LastText(last: Last): string {
    match last
    case Ends => ""
    case Attached(c, arg) => [c] + arg
    case Separate(c, _) => [c]
    case Bare(c) => [c]
  }

  function ItemWords(item: Item): seq<string> {
    match item
    case Short(flags, last) => ["-" + (flags + LastText(last))] + if last.Separate? then [last.arg] else []
    case Long(key, _, arg) =>
      (match arg
       case NoArgument => ["--" + key]
       case WithEquals(a) => ["--" + (key + ("=" + a))]
       case InNext(a) => ["--" + key, a])
    case Operand(word) => [word]
  }

  function EndWords(end: End): seq<string> {
    match end
    case Nothing => []
    case Dashes(rest) => ["--"] + rest
    case Stop(rest) => rest
    case ShortLacks(flags, c) => ["-" + (flags + [c])]
    case LongLacks(key, _) => ["--" + key]
  }

  function Line(items: seq<Item>, end: End): seq<string> {
    if items == [] then EndWords(end) else ItemWords(items[0]) + Line(items[1..], end)
  }

  // ----- which are well written -----

  ghost predicate AreFlags(optstring: string, flags: string) {
    forall i :: 0 <= i < |flags| ==> TakesNone(optstring, flags[i]) || IsUndeclared(optstring, flags[i])
  }

  /** These characters behind a dash are read as short options. */
  predicate IsCluster(t: Table, chars: string) {
    chars != "" && chars != "-" && (t.longopts.Some? ==> chars[0] != '-')
  }

  ghost predicate IsItem(t: Table, item: Item) {
    match item
    case Short(flags, last) =>
      && AreFlags(t.optstring, flags) && IsCluster(t, flags + LastText(last))
      && (match last
          case Ends => true
          case Attached(c, arg) => arg != "" && (Requires(t.optstring, c) || MayTake(t.optstring, c))
          case Separate(c, _) => Requires(t.optstring, c)
          case Bare(c) => MayTake(t.optstring, c))
    case Long(key, found, arg) =>
      && t.longopts.Some? && '=' !in key && IsLookup(t.longopts.value, key, found)
      && (arg.WithEquals? || key != "")
      && (match found
          case Found(i) => i < |t.longopts.value| &&
                           (arg.WithEquals? || (t.longopts.value[i].hasArg == 1 <==> arg.InNext?))
          case _ => !arg.InNext?)
    case Operand(word) => !t.ordering.RequireOrder? && (|word| < 2 || word[0] != '-')
  }

  ghost predicate IsEnd(t: Table, end: End) {
    match end
    case Nothing => true
    case Dashes(_) => true
    case Stop(rest) => t.ordering.RequireOrder? && rest != [] && (|rest[0]| < 2 || rest[0][0] != '-')
    case ShortLacks(flags, c) =>
      AreFlags(t.optstring, flags) && IsCluster(t, flags + [c]) && Requires(t.optstring, c)
    case LongLacks(key, i) =>
      && t.longopts.Some? && '=' !in key && key != "" && IsLookup(t.longopts.value, key, Found(i))
      && i < |t.longopts.value| && t.longopts.value[i].hasArg == 1
  }

  ghost predicate AreItems(t: Table, items: seq<Item>) {
    forall i :: 0 <= i < |items| ==> IsItem(t, items[i])
  }

  // ----- what they report -----

  function Lacking(t: Table): int {
    if t.optstring != "" && t.optstring[0] == ':' then ':' as int else '?' as int
  }

  function FlagReports(optstring: string, flags: string): seq<Event> {
    if flags == "" then [] else
      var c := flags[0];
      [if IsUndeclared(optstring, c) then Event('?' as int, None, Some(c as int), None, None)
       else Event(c as int, None, None, None, None)] + FlagReports(optstring, flags[1..])
  }

  function LastReports(last: Last): seq<Event> {
    match last
    case Ends => []
    case Attached(c, arg) => [Event(c as int, Some(arg), None, None, None)]
    case Separate(c, arg) => [Event(c as int, Some(arg), None, None, None)]
    case Bare(c) => [Event(c as int, None, None, None, None)]
  }

  /** A row of the table: its value is returned, or stored where its flag points; the row's index is reported. */
  function RowReport(row: LongOption, i: nat, arg: Argument): Event {
    if arg.WithEquals? && row.hasArg == 0 then Event('?' as int, None, Some(row.val), None, None)
    else
      Event(if row.flag.Some? then 0 else row.val, if arg.NoArgument? then None else Some(arg.arg), None, Some(i),
            if row.flag.Some? then Some((row.flag.value, row.val)) else None)
  }

  function ItemReports(t: Table, item: Item): seq<Event>
    requires item.Long? && item.found.Found? ==> t.longopts.Some? && item.found.index < |t.longopts.value|
  {
    match item
    case Short(flags, last) => FlagReports(t.optstring, flags) + LastReports(last)
    case Long(_, found, arg) =>
      if found.Found? then [RowReport(t.longopts.value[found.index], found.index, arg)]
      else [Event('?' as int, None, Some(0), None, None)]
    case Operand(word) => if t.ordering.Permute? then [] else [Event(1, Some(word), None, None, None)]
  }

  function EndReports(t: Table, end: End): seq<Event>
    requires end.LongLacks? ==> t.longopts.Some? && end.index < |t.longopts.value|
  {
    match end
    case ShortLacks(flags, c) =>
      FlagReports(t.optstring, flags) + [Event(Lacking(t), None, Some(c as int), None, None)]
    case LongLacks(_, i) => [Event(Lacking(t), None, Some(t.longopts.value[i].val), None, None)]
    case _ => []
  }

  /** What the item adds to a command line that goes on as `more`. */
  function WithItem(t: Table, item: Item, more: Parsed): Parsed
    requires item.Long? && item.found.Found? ==> t.longopts.Some? && item.found.index < |t.longopts.value|
  {
    if item.Operand? && t.ordering.Permute? then more.(operands := [item.word] + more.operands)
    else Parsed(ItemReports(t, item) + more.events, ItemWords(item) + more.consumed, more.operands)
  }

  function EndMeaning(t: Table, end: End): Parsed
    requires end.LongLacks? ==> t.longopts.Some? && end.index < |t.longopts.value|
  {
    match end
    case Nothing => Parsed([], [], [])
    case Dashes(rest) => Parsed([], ["--"], rest)
    case Stop(rest) => Parsed([], [], rest)
    case _ => Parsed(EndReports(t, end), EndWords(end), [])
  }

  function Meaning(t: Table, items: seq<Item>, end: End): Parsed
    requires forall i :: 0 <= i < |items| && items[i].Long? && items[i].found.Found? ==>
               t.longopts.Some? && items[i].found.index < |t.longopts.value|
    requires end.LongLacks? ==> t.longopts.Some? && end.index < |t.longopts.value|
  {
    if items == [] then EndMeaning(t, end) else WithItem(t, items[0], Meaning(t, items[1..], end))
  }

  /** Rows that an abbreviation may stand for without being ambiguous: they report the same, whatever the argument. */
  lemma SameEffectExactly(a: LongOption, b: LongOption)
    ensures SameEffect(a, b) <==> a.hasArg == b.hasArg && forall arg :: RowReport(a, 0, arg) == RowReport(b, 0, arg)
  {
    var (x, y) := (RowReport(a, 0, NoArgument), RowReport(b, 0, NoArgument));
    assert x == y && a.hasArg == b.hasArg ==> SameEffect(a, b);
  }

  // ----- reading short options -----

  lemma {:induction false} DeclaredFirst(optstring: string, c: char)
    ensures var i := IndexOf(optstring, c);
      && (i < |optstring| && c != ':' && c != ';' ==> IsDeclared(optstring, c, i))
      && (forall j: nat :: IsDeclared(optstring, c, j) ==> j == i)
      && (c in optstring <==> i < |optstring|)
  {
    var i := IndexOf(optstring, c);
    assert forall j :: 0 <= j < i ==> optstring[j] == optstring[..i][j];
    assert optstring[..|optstring|] == optstring;
  }

  lemma ColonsFollow(optstring: string, i: nat)
    requires i < |optstring|
    ensures ":" <= optstring[i + 1..] <==> ColonAt(optstring, i + 1)
    ensures "::" <= optstring[i + 1..] <==> ColonAt(optstring, i + 1) && ColonAt(optstring, i + 2)
  {
    var s := optstring[i + 1..];
    assert |s| >= 1 ==> s[0] == optstring[i + 1];
    assert |s| >= 2 ==> s[1] == optstring[i + 2];
  }

  /** The kind of an option, off the characters. */
  lemma KindIs(optstring: string, c: char)
    ensures KindOf(optstring, c).Unknown? <==> IsUndeclared(optstring, c)
    ensures KindOf(optstring, c).Plain? <==> TakesNone(optstring, c)
    ensures KindOf(optstring, c).Required? <==> Requires(optstring, c)
    ensures KindOf(optstring, c).Optional? <==> MayTake(optstring, c)
  {
    hide IsDeclared, ColonAt, IndexOf;
    DeclaredFirst(optstring, c);
    var i := IndexOf(optstring, c);
    DeclaredMeans(optstring, c);
    if i < |optstring| { ColonsFollow(optstring, i); }
  }

  lemma DeclaredMeans(optstring: string, c: char)
    ensures forall j: nat :: IsDeclared(optstring, c, j) ==> c in optstring && c != ':' && c != ';'
  {
  }

  /** Flags are reported one by one, whatever follows them in their word. */
  lemma {:induction false} FlagsRead(optstring: string, flags: string, tail: string, next: seq<string>)
    requires AreFlags(optstring, flags) && tail != ""
    ensures var w := Cluster(optstring, tail, next);
      Cluster(optstring, flags + tail, next) == Word(FlagReports(optstring, flags) + w.events, w.taken)
  {
    hide TakesNone, KindOf, IsUndeclared;
    var w := Cluster(optstring, tail, next);
    if flags == "" {
      assert flags + tail == tail;
      assert [] + w.events == w.events;
    } else {
      FlagsRead(optstring, flags[1..], tail, next);
      KindIs(optstring, flags[0]);
      assert (flags + tail)[1..] == flags[1..] + tail;
      OneFlag(optstring, flags[0]);
      var e := FlagReports(optstring, flags[..1]);
      assert flags[..1] == [flags[0]];
      Assoc(e, FlagReports(optstring, flags[1..]), w.events);
    }
  }

  lemma {:induction false} OneFlag(optstring: string, c: char)
    ensures FlagReports(optstring, [c]) ==
      [if IsUndeclared(optstring, c) then Event('?' as int, None, Some(c as int), None, None)
       else Event(c as int, None, None, None, None)]
  {
    assert [c][1..] == "";
  }

  /** ... also when nothing follows. */
  lemma {:induction false} OnlyFlagsRead(optstring: string, flags: string, next: seq<string>)
    requires AreFlags(optstring, flags) && flags != ""
    ensures Cluster(optstring, flags, next) == Word(FlagReports(optstring, flags), 0)
  {
    hide TakesNone, KindOf, IsUndeclared, Cluster;
    var n := |flags| - 1;
    var (front, c) := (flags[..n], flags[n]);
    assert flags == front + [c];
    FlagsRead(optstring, front, [c], next);
    OneFlagRead(optstring, c, next);
    OneFlag(optstring, c);
    FlagReportsLast(optstring, front, c);
  }

  lemma {:induction false} OneFlagRead(optstring: string, c: char, next: seq<string>)
    requires TakesNone(optstring, c) || IsUndeclared(optstring, c)
    ensures Cluster(optstring, [c], next) == Word(FlagReports(optstring, [c]), 0)
  {
    hide TakesNone, KindOf, IsUndeclared;
    KindIs(optstring, c);
    OneFlag(optstring, c);
  }

  lemma {:induction false} FlagReportsLast(optstring: string, flags: string, c: char)
    ensures FlagReports(optstring, flags + [c]) == FlagReports(optstring, flags) + FlagReports(optstring, [c])
  {
    hide IsUndeclared;
    if flags == "" {
      assert flags + [c] == [c];
    } else {
      FlagReportsLast(optstring, flags[1..], c);
      assert (flags + [c])[1..] == flags[1..] + [c];
    }
  }

  /** The option that ends a word, with its argument. */
  lemma {:induction false} LastReads(optstring: string, last: Last, next: seq<string>)
    requires !last.Ends?
    requires last.Attached? ==> last.arg != "" && (Requires(optstring, last.c) || MayTake(optstring, last.c))
    requires last.Separate? ==> Requires(optstring, last.c) && next != [] && next[0] == last.arg
    requires last.Bare? ==> MayTake(optstring, last.c)
    ensures Cluster(optstring, LastText(last), next) == Word(LastReports(last), if last.Separate? then 1 else 0)
  {
    hide Requires, MayTake, KindOf;
    KindIs(optstring, last.c);
    var s := LastText(last);
    assert s[0] == last.c && s[1..] == if last.Attached? then last.arg else "";
  }

  lemma {:induction false} LackingReads(optstring: string, c: char)
    requires Requires(optstring, c)
    ensures Cluster(optstring, [c], []) == Word([Event(MissingCode(optstring), None, Some(c as int), None, None)], 0)
  {
    hide Requires, KindOf;
    KindIs(optstring, c);
  }

  /** A whole word of short options. */
  lemma {:induction false} ShortReads(t: Table, item: Item, next: seq<string>)
    requires item.Short? && IsItem(t, item)
    requires item.last.Separate? ==> next != [] && next[0] == item.last.arg
    ensures Cluster(t.optstring, item.flags + LastText(item.last), next)
         == Word(ItemReports(t, item), if item.last.Separate? then 1 else 0)
  {
    hide AreFlags, Requires, MayTake, Cluster;
    if item.last.Ends? {
      assert item.flags + "" == item.flags;
      OnlyFlagsRead(t.optstring, item.flags, next);
      assert ItemReports(t, item) == FlagReports(t.optstring, item.flags) + [];
    } else {
      FlagsRead(t.optstring, item.flags, LastText(item.last), next);
      LastReads(t.optstring, item.last, next);
    }
  }

  // ----- reading long options -----

  lemma {:induction false} KeyRead(key: string, arg: Argument, body: string)
    requires '=' !in key && body == (if arg.WithEquals? then key + ("=" + arg.arg) else key)
    ensures IndexOf(body, '=') == |key| && body[..|key|] == key
    ensures arg.WithEquals? <==> |key| < |body|
    ensures arg.WithEquals? ==> body[|key| + 1..] == arg.arg
  {
    assert body[..|key|] == key;
    IndexOfAt(body, '=', |key|);
  }

  lemma LongReads(t: Table, item: Item, body: string, next: seq<string>)
    requires item.Long? && IsItem(t, item)
    requires body == if item.arg.WithEquals? then item.key + ("=" + item.arg.arg) else item.key
    requires item.arg.InNext? ==> next != [] && next[0] == item.arg.arg
    ensures LongWord(t, body, next) == Word(ItemReports(t, item), if item.arg.InNext? then 1 else 0)
  {
    hide IsLookup, LookUp, IndexOf;
    KeyRead(item.key, item.arg, body);
    LookupUnique(t.longopts.value, item.key, item.found, LookUp(t.longopts.value, item.key));
  }

  lemma LongLackingReads(t: Table, key: string, i: nat)
    requires IsEnd(t, LongLacks(key, i))
    ensures LongWord(t, key, []) == Word([Event(Lacking(t), None, Some(t.longopts.value[i].val), None, None)], 0)
  {
    hide IsLookup, LookUp, IndexOf;
    KeyRead(key, NoArgument, key);
    LookupUnique(t.longopts.value, key, Found(i), LookUp(t.longopts.value, key));
  }

  // ----- reading command lines -----

  /** A word read as `w`, which takes `taken` further elements. */
  lemma {:induction false} WordRead(t: Table, words: seq<string>, w: Word, more: seq<string>)
    requires words != [] && !IsOperand(words[0]) && words[0] != "--" && w.taken == |words| - 1
    requires ReadWord(t, words[0], words[1..] + more) == w
    ensures Scan(t, words + more)
         == var r := Scan(t, more); Parsed(w.events + r.events, words + r.consumed, r.operands)
  {
    var args := words + more;
    assert args[0] == words[0] && args[1..] == words[1..] + more;
    assert args[..|words|] == words && args[|words|..] == more;
  }

  lemma ClusterWord(t: Table, chars: string)
    requires IsCluster(t, chars)
    ensures var w := "-" + chars; !IsOperand(w) && w != "--" && !IsLong(t, w) && w[1..] == chars
  {
    var w := "-" + chars;
    assert w[1..] == chars && w[1] == chars[0];
    assert "--"[1..] == "-";
  }

  lemma LongWordIs(t: Table, body: string)
    requires t.longopts.Some? && body != ""
    ensures var w := "--" + body; !IsOperand(w) && w != "--" && IsLong(t, w) && w[2..] == body
  {
    assert |"--" + body| > 2;
  }

  lemma {:induction false} ItemReads(t: Table, item: Item, more: seq<string>)
    requires IsItem(t, item)
    ensures Scan(t, ItemWords(item) + more) == WithItem(t, item, Scan(t, more))
  {
    hide Scan, Cluster, LongWord, IsLookup, AreFlags;
    match item
    case Short(flags, last) =>
      var words := ItemWords(item);
      ClusterWord(t, flags + LastText(last));
      assert words[1..] == if last.Separate? then [last.arg] else [];
      ShortReads(t, item, words[1..] + more);
      WordRead(t, words, Word(ItemReports(t, item), if last.Separate? then 1 else 0), more);
    case Long(key, _, arg) =>
      var words := ItemWords(item);
      var body := if arg.WithEquals? then key + ("=" + arg.arg) else key;
      LongWordIs(t, body);
      assert words[1..] == if arg.InNext? then [arg.arg] else [];
      LongReads(t, item, body, words[1..] + more);
      WordRead(t, words, Word(ItemReports(t, item), if arg.InNext? then 1 else 0), more);
    case Operand(word) =>
      OperandReads(t, word, more);
  }

  lemma {:induction false} OperandReads(t: Table, word: string, more: seq<string>)
    requires IsOperand(word) && !t.ordering.RequireOrder?
    ensures Scan(t, [word] + more) == WithItem(t, Operand(word), Scan(t, more))
  {
    var args := [word] + more;
    assert args[0] == word && args[1..] == more;
  }

  lemma {:induction false} EndReads(t: Table, end: End)
    requires IsEnd(t, end)
    ensures Scan(t, EndWords(end)) == EndMeaning(t, end)
  {
    match end
    case Nothing =>
    case Dashes(rest) => assert (["--"] + rest)[1..] == rest;
    case Stop(rest) =>
    case ShortLacks(flags, c) =>
      hide Cluster, AreFlags, Scan;
      ClusterWord(t, flags + [c]);
      FlagsRead(t.optstring, flags, [c], []);
      LackingReads(t.optstring, c);
      NothingLeft(t);
      WordAlone(t, EndWords(end), Word(EndReports(t, end), 0));
    case LongLacks(key, i) =>
      hide LongWord, Scan;
      LongWordIs(t, key);
      LongLackingReads(t, key, i);
      NothingLeft(t);
      WordAlone(t, EndWords(end), Word(EndReports(t, end), 0));
  }

  lemma {:induction false} NothingLeft(t: Table)
    ensures Scan(t, []) == Parsed([], [], [])
  {
  }

  lemma {:induction false} WordAlone(t: Table, words: seq<string>, w: Word)
    requires |words| == 1 && !IsOperand(words[0]) && words[0] != "--" && w.taken == 0 && ReadWord(t, words[0], []) == w
    ensures Scan(t, words) == Parsed(w.events, words, [])
  {
    hide Scan, ReadWord;
    NothingLeft(t);
    assert words[1..] + [] == [] && words + [] == words;
    WordRead(t, words, w, []);
    assert w.events + [] == w.events;
  }

  /**
   Every command line put together like this is read as what it was put together from: every setting with its argument,
   its row and its store, every mistake as a complaint, and the operands.
   */
  lemma {:induction false} LineReads(t: Table, items: seq<Item>, end: End)
    requires AreItems(t, items) && IsEnd(t, end)
    ensures Scan(t, Line(items, end)) == Meaning(t, items, end)
  {
    hide Scan, IsItem, ItemWords, WithItem;
    ItemsHaveRows(t, items);
    if items == [] {
      EndReads(t, end);
    } else {
      LineReads(t, items[1..], end);
      ItemReads(t, items[0], Line(items[1..], end));
    }
  }

  lemma ItemsHaveRows(t: Table, items: seq<Item>)
    requires AreItems(t, items)
    ensures forall i :: 0 <= i < |items| && items[i].Long? && items[i].found.Found? ==>
              t.longopts.Some? && items[i].found.index < |t.longopts.value|
  {
  }

  // ----- there are no other command lines -----

  /** The flags that a cluster begins with. */
  function Flags(optstring: string, chars: string): (n: nat)
    ensures n <= |chars|
  {
    if chars == "" then 0 else
      var kind := KindOf(optstring, chars[0]);
      if kind.Unknown? || kind.Plain? then 1 + Flags(optstring, chars[1..]) else 0
  }

  lemma {:induction false} FlagsAre(optstring: string, chars: string)
    ensures var n := Flags(optstring, chars);
      && AreFlags(optstring, chars[..n])
      && (n < |chars| ==> Requires(optstring, chars[n]) || MayTake(optstring, chars[n]))
  {
    hide KindOf, TakesNone, Requires, MayTake, IsUndeclared;
    var n := Flags(optstring, chars);
    if chars != "" {
      KindIs(optstring, chars[0]);
      if n > 0 {
        FlagsAre(optstring, chars[1..]);
        assert chars[..n] == [chars[0]] + chars[1..][..n - 1];
      }
    }
  }

  /** A word of short options, and what it takes of `next`: an item, or the end for lack of an argument. */
  lemma ShortWord(t: Table, chars: string, next: seq<string>) returns (item: Option<Item>, end: End)
    requires IsCluster(t, chars)
    ensures item.Some? ==> item.value.Short? && IsItem(t, item.value) && ItemWords(item.value) <= ["-" + chars] + next
    ensures item.None? ==> next == [] && IsEnd(t, end) && EndWords(end) == ["-" + chars]
  {
    hide AreFlags, Requires, MayTake;
    var n := Flags(t.optstring, chars);
    FlagsAre(t.optstring, chars);
    var flags := chars[..n];
    item, end := None, Nothing;
    if n == |chars| {
      assert flags + "" == chars;
      item := Some(Short(flags, Ends));
    } else {
      var (c, arg) := (chars[n], chars[n + 1..]);
      assert chars == flags + ([c] + arg);
      if arg != "" {
        item := Some(Short(flags, Attached(c, arg)));
      } else {
        assert chars == flags + [c];
        if MayTake(t.optstring, c) {
          item := Some(Short(flags, Bare(c)));
        } else if next == [] {
          end := ShortLacks(flags, c);
        } else {
          item := Some(Short(flags, Separate(c, next[0])));
          assert ["-" + chars] + [next[0]] <= ["-" + chars] + next;
        }
      }
    }
  }

  lemma LongItem(t: Table, body: string, next: seq<string>) returns (item: Option<Item>, end: End)
    requires t.longopts.Some? && body != ""
    ensures item.Some? ==> item.value.Long? && IsItem(t, item.value) && ItemWords(item.value) <= ["--" + body] + next
    ensures item.None? ==> next == [] && IsEnd(t, end) && EndWords(end) == ["--" + body]
  {
    hide IsLookup;
    var n := IndexOf(body, '=');
    var (key, found) := (body[..n], LookUp(t.longopts.value, body[..n]));
    item, end := None, Nothing;
    if n < |body| {
      assert body == key + ("=" + body[n + 1..]);
      item := Some(Long(key, found, WithEquals(body[n + 1..])));
    } else {
      assert body == key;
      if found.Found? && t.longopts.value[found.index].hasArg == 1 {
        if next == [] {
          end := LongLacks(key, found.index);
        } else {
          item := Some(Long(key, found, InNext(next[0])));
          assert ["--" + body] + [next[0]] <= ["--" + body] + next;
        }
      } else {
        item := Some(Long(key, found, NoArgument));
      }
    }
  }

  lemma FirstItem(t: Table, args: seq<string>) returns (item: Option<Item>, end: End)
    requires args != [] && !IsOperand(args[0]) && args[0] != "--"
    ensures item.Some? ==> IsItem(t, item.value) && ItemWords(item.value) <= args && ItemWords(item.value) != []
    ensures item.None? ==> IsEnd(t, end) && EndWords(end) == args
  {
    hide IsItem, IsEnd;
    var (w, next) := (args[0], args[1..]);
    assert args == [w] + next;
    if IsLong(t, w) {
      assert w == "--" + w[2..];
      item, end := LongItem(t, w[2..], next);
    } else {
      assert w == "-" + w[1..] && (w[1..] == "-" ==> w == "--");
      item, end := ShortWord(t, w[1..], next);
    }
    assert next == [] ==> args == [w];
  }

  /** Every command line is of this form, so this is all that the scan can say. */
  lemma {:induction false} EveryLine(t: Table, args: seq<string>) returns (items: seq<Item>, end: End)
    ensures AreItems(t, items) && IsEnd(t, end) && Line(items, end) == args
    decreases |args|
  {
    hide IsItem, ItemWords;
    items, end := [], Nothing;
    if args == [] {
    } else if args[0] == "--" {
      end := Dashes(args[1..]);
      assert ["--"] + args[1..] == args;
    } else if IsOperand(args[0]) && t.ordering.RequireOrder? {
      end := Stop(args);
    } else {
      var item;
      if IsOperand(args[0]) {
        item := Some(Operand(args[0]));
        OperandIsItem(t, args[0]);
      } else {
        item, end := FirstItem(t, args);
      }
      if item.Some? {
        var words := ItemWords(item.value);
        var more;
        more, end := EveryLine(t, args[|words|..]);
        items := [item.value] + more;
        assert items[1..] == more && words + args[|words|..] == args;
      }
    }
  }

  lemma OperandIsItem(t: Table, word: string)
    requires IsOperand(word) && !t.ordering.RequireOrder?
    ensures IsItem(t, Operand(word)) && ItemWords(Operand(word)) == [word]
  {
  }

  /** What the first character of the caller's optstring, and POSIXLY_CORRECT, decide. */
  lemma SignMeans(sign: string, body: string, posixlyCorrect: bool)
    requires sign == "" || sign == "-" || sign == "+"
    requires sign == "" && body != "" ==> body[0] != '-' && body[0] != '+'
    ensures StripSign(sign + body) == body
    ensures OrderingOf(sign + body, posixlyCorrect)
         == if sign == "-" then ReturnInOrder else if sign == "+" || posixlyCorrect then RequireOrder else Permute
  {
    var s := sign + body;
    if sign == "" { assert s == body; } else { assert s[0] == sign[0] && s[1..] == body; }
  }
}
